# JaVelo core, modelled in Dafny

JaVelo is a route planner for cycling in Switzerland. This project models
the part of it that sits below the user interface, and proves properties
of that model:

- **Bit and fixed-point codec.**
  - `Bits` extracts signed and unsigned fields from a 32-bit word.
  - `Q28_4` converts between ints and Q28.4 fixed point.
  - `Math2` holds ceilDiv, clamp, interpolate, the dot product and the norms.
- **Packed graph store.**
  - `GraphNodes` holds three words per node.
  - `GraphEdges` holds 10-byte edge records and decodes elevation profiles: raw, 8-bit deltas or 4-bit deltas, reversed for inverted edges.
  - `GraphSectors` is the 128 × 128 grid of sectors of Switzerland.
  - `AttributeSet` is a 64-bit attribute mask.
  - `Graph` adds the nearest-node scan and the accessors.
- **Planar geometry.** `SwissBounds` and the validated `PointCh`.
- **Routes.**
  - `Edge` and `RoutePoint`.
  - `Functions`: constant and sampled functions.
  - `SingleRoute`: a list of edges with its table of start positions.
  - `MultiRoute`: recursive segments. A route is a datatype `Single(edges) | Multi(segments)` in module `Routes`.
- **Elevation and search.**
  - `ElevationProfile` and its statistics.
  - `ElevationProfileComputer`: sampling a route's elevation and repairing NaN runs in place.
  - `RouteComputer`: the A*-style best-first search and the route rebuilt from the predecessors.

There is one Dafny module per Java class, in a file of the same name.
Values are modelled as datatypes and functions. Loops stay as methods with
`while`/`for` loops, proved against a specification function. The array
algorithms keep their `array`s: profile decoding, `invertTab`, the NaN
repair and the search's distance and predecessor arrays.

Modelling conventions:

- Java `int` is an `int` constrained to 32 bits, with its wrap-around and truncating division written out where they can occur.
- `double` and `float` are `real`. NaN is `None` of an `Option<real>`.
- A `checkArgument` that throws is a `None` result where callers can reach it, and a `requires` otherwise.
- Out-of-range buffer reads are excluded by a well-formedness predicate on the loaded buffers.

## Model

| member | source | states |
|---|---|---|
| Bits.ExtractSigned | src/ch/epfl/javelo/Bits.java:19-27 | a result exists exactly when 0 <= start, 0 < length and start + length <= 32; every other argument is the IllegalArgumentException |
| Bits.ExtractUnsigned | src/ch/epfl/javelo/Bits.java:38-47 | a result exists exactly when 0 <= start, 0 < length < 32 and start + length <= 32, so length 32 is refused |
| Bits.SignedRangeOkIff | src/ch/epfl/javelo/Bits.java:20-24 | the range test as written, with `end` computed in wrapping int arithmetic, accepts exactly 0 <= start, 0 < length, start + length <= 32 |
| Bits.UnsignedRangeOkIff | src/ch/epfl/javelo/Bits.java:39-44 | the unsigned range test accepts exactly 0 <= start, 0 < length < 32, start + length <= 32 |
| Bits.ShiftLeftWraps | src/ch/epfl/javelo/Bits.java:26 | `value << k` is value * 2^k wrapped into the int range |
| Bits.ExtractUnsignedIsField | src/ch/epfl/javelo/Bits.java:46 | the shift pair yields exactly bits start .. start+length-1 of the word's two's-complement encoding, as an unsigned number |
| Bits.ExtractSignedIsSignExtended | src/ch/epfl/javelo/Bits.java:26 | the shift pair yields that field read in length-bit two's complement |
| Bits.ExtractUnsignedRange | src/ch/epfl/javelo/Bits.java:46 | an unsigned extraction lies in [0, 2^length) |
| Bits.ExtractSignedRange | src/ch/epfl/javelo/Bits.java:26 | a signed extraction lies in [-2^(length-1), 2^(length-1)) |
| Bits.SignedUnsignedAgree | src/ch/epfl/javelo/Bits.java:19-47 | on a range both accept, the two extractions are congruent modulo 2^length, and equal exactly when the field's top bit is 0 |
| Bits.ExtractSignedFullWord | src/ch/epfl/javelo/Bits.java:26 | extracting all 32 bits as a signed field gives the value back |
| Q28_4.AsDouble | src/ch/epfl/javelo/Q28_4.java:30-32 | the real read from a Q28.4 word, times 16, is the word |
| Q28_4.OfIntScales | src/ch/epfl/javelo/Q28_4.java:21-23 | `i << 4` is 16 * i modulo 2^32, and exactly 16 * i when abs(i) < 2^27 |
| Q28_4.OfInt | src/ch/epfl/javelo/Q28_4.java:21-23 | `i << 4` is 16 * i wrapped round 2^32 into the int range |
| Q28_4.AsFloat | src/ch/epfl/javelo/Q28_4.java:39-41 | the real read as a float, times 16, is the word, the same value as asDouble since float rounding is not modelled |
| Q28_4.AsDoubleOfInt | src/ch/epfl/javelo/Q28_4.java:21-32 | reading back the Q28.4 form of an int gives the int, when no wrap-around occurs |
| Q28_4.AsDoubleMonotone | src/ch/epfl/javelo/Q28_4.java:30-32 | reading Q28.4 words preserves and reflects their strict order |
| Math2.CeilDiv | src/ch/epfl/javelo/Math2.java:21-24 | for x >= 0 and y > 0, the int expression `(x + y - 1) / y`, with the sum wrapping round 2^32 and the division truncating: while x + y - 1 fits an int, the least q >= 0 with q * y >= x; once the sum overflows, a q <= 0 with q * y < x, so no longer a ceiling |
| Math2.CeilDivIsLeast | src/ch/epfl/javelo/Math2.java:23 | without overflow, the wrapped sum is the sum itself and its truncated quotient is the least multiple count q >= 0 with q * y >= x |
| Math2.JavaDiv | src/ch/epfl/javelo/Math2.java:23 | int division by a positive divisor truncates towards zero: q * d <= n < q * d + d for n >= 0, and q * d - d < n <= q * d for n < 0 |
| Math2.CeilDivWraps | src/ch/epfl/javelo/Math2.java:23 | once x + y - 1 exceeds 2^31 - 1 the sum wraps to a negative int, so the quotient is at most 0 and q * y falls short of x |
| Math2.CeilDivOverflowExample | src/ch/epfl/javelo/Math2.java:23 | ceilDiv(2^31 - 1, 2) is -2^30: the sum 2^31 wraps to -2^31 |
| Math2.ClampInt | src/ch/epfl/javelo/Math2.java:44-50 | the result lies in [min, max]; it is v inside, min below and max above |
| Math2.Clamp | src/ch/epfl/javelo/Math2.java:59-65 | the same three cases and bound for doubles |
| Math2.ClampIdempotent | src/ch/epfl/javelo/Math2.java:59-65 | clamping twice is clamping once |
| Math2.Interpolate | src/ch/epfl/javelo/Math2.java:33-35 | gives y0 at x = 0 and y1 at x = 1, and stays between y0 and y1 for x in [0, 1] |
| Math2.InterpolateStrictlyMonotone | src/ch/epfl/javelo/Math2.java:33-35 | the interpolated value moves strictly towards y1 as x grows, whenever y0 != y1 |
| Math2.DotProductSymmetric | src/ch/epfl/javelo/Math2.java:83-85 | the dot product does not depend on the order of its two vectors |
| Math2.DotProduct | src/ch/epfl/javelo/Math2.java:83-85 | uX * vX + uY * vY; no contract of its own, its symmetry is DotProductSymmetric and its use is stated by ProjectionLength |
| Math2.SquaredNorm | src/ch/epfl/javelo/Math2.java:93-95 | never negative, 0 for the zero vector, and at least the square of each coordinate |
| Math2.SquaredNormZeroOnlyAtOrigin | src/ch/epfl/javelo/Math2.java:93-95 | a zero squared norm means the zero vector |
| Math2.Norm | src/ch/epfl/javelo/Math2.java:103-105 | never negative |
| Math2.NormSquared | src/ch/epfl/javelo/Math2.java:103-105 | with an exact square root, the norm squared is the squared norm |
| Math2.ProjectionLength | src/ch/epfl/javelo/Math2.java:119-121 | a value exists exactly when the norm of A->B is non-zero, which represents the NaN or infinite quotient |
| Math2.ProjectionTimesNorm | src/ch/epfl/javelo/Math2.java:119-121 | the projection length times the norm of A->B is the dot product of A->P and A->B |
| Math2.ProjectionLengthEnds | src/ch/epfl/javelo/Math2.java:119-121 | projecting A gives 0 and projecting B gives the length of A->B; both are undefined exactly when A == B |
| Math2.TruncateToInt | src/ch/epfl/javelo/Functions.java:63 | the Java `(int)` cast of a double: rounds towards zero inside the int range and saturates outside it |
| Math2.TruncateMonotone | src/ch/epfl/javelo/data/GraphSectors.java:36-43 | the cast preserves order |
| SwissBounds.BoundsShape | src/ch/epfl/javelo/projection/SwissBounds.java:10-25 | WIDTH is 349000 and HEIGHT is 221000, and all four corners pass containsEN (the bounds are closed) |
| SwissBounds.ContainsEN | src/ch/epfl/javelo/projection/SwissBounds.java:23-25 | the closed rectangle test on both coordinates; no contract of its own, its corners are BoundsShape and its convexity ContainsInterpolated |
| SwissBounds.ContainsInterpolated | src/ch/epfl/javelo/projection/SwissBounds.java:23-25 | the rectangle is convex: interpolating between two contained points with x in [0, 1] stays inside |
| PointCh.Make | src/ch/epfl/javelo/projection/PointCh.java:14-16 | a point exists exactly when containsEN holds, and it keeps the given coordinates |
| PointCh.SquaredDistanceTo | src/ch/epfl/javelo/projection/PointCh.java:23-25 | never negative, and 0 from a point to itself |
| PointCh.SquaredDistanceSymmetric | src/ch/epfl/javelo/projection/PointCh.java:23-25 | the squared distance does not depend on the direction |
| PointCh.DistanceTo | src/ch/epfl/javelo/projection/PointCh.java:32-34 | never negative |
| PointCh.DistanceToSquared | src/ch/epfl/javelo/projection/PointCh.java:32-34 | with an exact square root, the distance squared is the squared distance, and the distance is symmetric |
| Functions.StartInRange | src/ch/epfl/javelo/Functions.java:61-63 | below xMax the truncated index `start` is a valid left end, so `samples[start + 1]` is never out of bounds |
| Functions.ConstantEverywhere | src/ch/epfl/javelo/Functions.java:45-51 | `constant(y)` returns y whatever its argument |
| Functions.SampledClamps | src/ch/epfl/javelo/Functions.java:61-67 | a non-positive argument gives the first sample and an argument >= xMax gives the last |
| Functions.ApplyClamped | src/ch/epfl/javelo/Functions.java:61 | the function only sees its argument clamped to [0, xMax] |
| Functions.IntervalOf | src/ch/epfl/javelo/Functions.java:62-63 | every argument in [0, xMax) lies on some interval k between sample points k and k + 1 |
| Functions.ApplyInside | src/ch/epfl/javelo/Functions.java:62-68 | below xMax the value is the interpolation of the two neighbouring samples at the fractional part of x / gap |
| Functions.SampledBetween | src/ch/epfl/javelo/Functions.java:62-68 | on interval k the value is that interpolation, equals samples[k] at the left end, and lies between the two neighbours |
| Functions.SampledAtSamplePoints | src/ch/epfl/javelo/Functions.java:62-68 | at x = k * xMax / (n - 1) the value is samples[k], for every k including the last |
| Functions.SampledWithin | src/ch/epfl/javelo/Functions.java:57-71 | samples all within [lo, hi] give a function that stays within [lo, hi] everywhere |
| Functions.GapTimesCount | src/ch/epfl/javelo/Functions.java:62 | the n - 1 gaps add up to xMax |
| Edge.Of | src/ch/epfl/javelo/routing/Edge.java:35-39 | node ids come from the arguments; points, length and profile come from the graph; the result is absent exactly where edgeProfile throws |
| Edge.PointAt | src/ch/epfl/javelo/routing/Edge.java:58-65 | the point interpolated between the end points at the fraction position / length; absent for a zero-length edge or outside the bounds |
| Edge.PointAtEnds | src/ch/epfl/javelo/routing/Edge.java:58-65 | position 0 gives fromPoint, position length gives toPoint, and every position in between gives a point |
| Edge.PointAtWithin | src/ch/epfl/javelo/routing/Edge.java:58-65 | a position on an edge of positive length never makes the PointCh constructor throw |
| Edge.ElevationAt | src/ch/epfl/javelo/routing/Edge.java:72-75 | a constant profile gives its value; a sampled profile always gives a number |
| Edge.PositionClosestToEnds | src/ch/epfl/javelo/routing/Edge.java:46-51 | the projection of fromPoint is 0, and the projection is NaN exactly when the two end points coincide |
| Edge.PositionClosestTo | src/ch/epfl/javelo/routing/Edge.java:46-51 | the projection length of the point on the edge's segment from fromPoint to toPoint; no contract of its own, its values at the ends are PositionClosestToEnds |
| RoutePoint.WithPositionShiftedBy | src/ch/epfl/javelo/routing/RoutePoint.java:27-29 | the position moves by exactly the difference (NaN stays NaN); point and distance are unchanged |
| RoutePoint.ShiftsAdd | src/ch/epfl/javelo/routing/RoutePoint.java:27-29 | two shifts make one shift by their sum, and a shift by 0 changes nothing |
| RoutePoint.Min | src/ch/epfl/javelo/routing/RoutePoint.java:37-39 | the result is one of the two; it is this exactly when this is at most as far (ties keep this); its distance is the smaller one |
| RoutePoint.MinWith | src/ch/epfl/javelo/routing/RoutePoint.java:51-54 | this when its distance is at most the given one, otherwise the point built from the arguments |
| RoutePoint.NoneMinIdentity | src/ch/epfl/javelo/routing/RoutePoint.java:18 | NONE, at infinite distance, is the identity of min on both sides for any point at a finite distance |
| RoutePoint.MinAssociative | src/ch/epfl/javelo/routing/RoutePoint.java:37-39 | min is associative, so a running minimum does not depend on grouping |
| RoutePoint.AtMostTotal | src/ch/epfl/javelo/routing/RoutePoint.java:38 | the `<=` on distances, infinity included, is total, reflexive and transitive |
| AttributeSet.ValidBitsIff | src/ch/epfl/javelo/data/AttributeSet.java:18-21 | the constructor's test `bits >> COUNT == 0` accepts exactly the masks in [0, 2^COUNT): no bit at COUNT or above, and no negative mask |
| AttributeSet.Of | src/ch/epfl/javelo/data/AttributeSet.java:28-36 | the loop builds the set containing exactly the given attributes |
| AttributeSet.ContainsIff | src/ch/epfl/javelo/data/AttributeSet.java:43-46 | contains(a) holds exactly when bit a of the mask is set |
| AttributeSet.IntersectsIff | src/ch/epfl/javelo/data/AttributeSet.java:54-56 | intersects holds exactly when some attribute is in both sets, and it is symmetric |
| AttributeSet.Contains | src/ch/epfl/javelo/data/AttributeSet.java:43-46 | `(1L << a) & bits != 0`; no contract of its own, ContainsIff proves it is bit a being set |
| AttributeSet.Intersects | src/ch/epfl/javelo/data/AttributeSet.java:54-56 | `bits & that.bits != 0`; no contract of its own, IntersectsIff proves it is a shared attribute |
| AttributeSet.Extensionality | src/ch/epfl/javelo/data/AttributeSet.java:12 | two sets with the same members have the same mask |
| AttributeSet.EmptyIntersectsNothing | src/ch/epfl/javelo/data/AttributeSet.java:28-56 | a set with no member is the mask 0 that `of()` builds, and it intersects nothing |
| AttributeSet.AndBit | src/ch/epfl/javelo/data/AttributeSet.java:45 | bit i of x & y is set exactly when it is set in both |
| AttributeSet.OrBit | src/ch/epfl/javelo/data/AttributeSet.java:32 | bit i of x \| y is set exactly when it is set in either |
| AttributeSet.MembersExact | src/ch/epfl/javelo/data/AttributeSet.java:66-70 | the ordinals visited by the loop and kept are exactly the contained attributes, in strictly increasing order |
| AttributeSet.Names | src/ch/epfl/javelo/data/AttributeSet.java:68 | one key=value text per attribute, in order |
| AttributeSet.ToString | src/ch/epfl/javelo/data/AttributeSet.java:64-72 | the text is the contained attributes' key=value texts in ordinal order, comma-separated and between braces |
| AttributeSet.EmptyToString | src/ch/epfl/javelo/data/AttributeSet.java:64-72 | the empty set prints as "{}" |
| AttributeSet.SingletonToString | src/ch/epfl/javelo/data/AttributeSet.java:64-72 | a one-attribute set prints as that attribute's text between braces |
| GraphNodes.Count | src/ch/epfl/javelo/data/GraphNodes.java:28-31 | the number of whole three-word nodes in the buffer: capacity div 3 |
| GraphNodes.NodeWordsInBuffer | src/ch/epfl/javelo/data/GraphNodes.java:38-76 | all three words of a node below count lie in the buffer |
| GraphNodes.NodeE | src/ch/epfl/javelo/data/GraphNodes.java:38-41 | word 3 * id read as Q28.4, i.e. divided by 16 |
| GraphNodes.NodeN | src/ch/epfl/javelo/data/GraphNodes.java:48-51 | word 3 * id + 1 read as Q28.4 |
| GraphNodes.OutDegree | src/ch/epfl/javelo/data/GraphNodes.java:59-62 | bits 28..31 of word 3 * id + 2, hence between 0 and 15 |
| GraphNodes.EdgeId | src/ch/epfl/javelo/data/GraphNodes.java:72-77 | for 0 <= k < outDegree (the source's assert), the low 28 bits of word 3 * id + 2 plus k |
| GraphNodes.OutEdgesConsecutive | src/ch/epfl/javelo/data/GraphNodes.java:74-76 | a node's out-edges have consecutive ids starting at its first edge |
| GraphEdges.ToUnsignedInt | src/ch/epfl/javelo/data/GraphEdges.java:62-64 | Short.toUnsignedInt: the value in [0, 65536) congruent to the short modulo 2^16 |
| GraphEdges.TargetNodeId | src/ch/epfl/javelo/data/GraphEdges.java:50-54 | the target is the stored word, or its complement for an inverted edge, so it is never negative |
| GraphEdges.IsInverted | src/ch/epfl/javelo/data/GraphEdges.java:40-43 | the edge's stored target word is negative; no contract of its own, TargetNodeId states what it decides |
| GraphEdges.TargetEncoding | src/ch/epfl/javelo/data/GraphEdges.java:40-54 | the stored word is recovered from the target and the direction: -1 - target when inverted (negative word), else the target |
| GraphEdges.LengthQ28 | src/ch/epfl/javelo/data/GraphEdges.java:175-177 | the big-endian unsigned short at byte offset 4 of the 10-byte record |
| GraphEdges.Length | src/ch/epfl/javelo/data/GraphEdges.java:61-65 | that short read as Q28.4 metres, within [0, 4095.9375] |
| GraphEdges.ElevationGain | src/ch/epfl/javelo/data/GraphEdges.java:72-76 | the big-endian unsigned short at offset 6 read as Q28.4 metres, within [0, 4095.9375] |
| GraphEdges.AttributesIndex | src/ch/epfl/javelo/data/GraphEdges.java:83-86 | the big-endian unsigned short at offset 8, within [0, 65535] |
| GraphEdges.ProfileType | src/ch/epfl/javelo/data/GraphEdges.java:93-96 | bits 30..31 of the edge's profile word, between 0 and 3; hasProfile is this being non-zero |
| GraphEdges.HasProfile | src/ch/epfl/javelo/data/GraphEdges.java:93-96 | the profile type is not 0; no contract of its own, the sample readers state what it gates |
| GraphEdges.FirstSampleIndex | src/ch/epfl/javelo/data/GraphEdges.java:112-113 | bits 0..29 of the profile word |
| GraphEdges.NbSamples | src/ch/epfl/javelo/data/GraphEdges.java:114-115 | 1 + ceilDiv(lengthQ28, ofInt(2)), that is one sample every 2 m plus one |
| GraphEdges.Samples | src/ch/epfl/javelo/data/GraphEdges.java:118-125 | n samples, sample k being the reference decoding of the profile type: raw (type 1), or sample k - 1 plus the k-th signed delta (types 2 and 3) |
| GraphEdges.FillProfileSamplesType1 | src/ch/epfl/javelo/data/GraphEdges.java:133-138 | after the loop the array is the type-1 decoding: each sample read raw |
| GraphEdges.FillProfileSamplesType2 | src/ch/epfl/javelo/data/GraphEdges.java:139-153 | after the nested loops the array is the type-2 decoding: signed 8-bit deltas divided by 16, high byte of each word first |
| GraphEdges.FillProfileSamplesType3 | src/ch/epfl/javelo/data/GraphEdges.java:154-168 | after the nested loops the array is the type-3 decoding: signed 4-bit deltas divided by 16, most significant nibble first |
| GraphEdges.PrefixStep | src/ch/epfl/javelo/data/GraphEdges.java:145-148 | writing sample k as sample k - 1 plus its delta extends a correctly decoded prefix by one |
| GraphEdges.DecodedStep | src/ch/epfl/javelo/data/GraphEdges.java:143-151 | the i-th field of word `var` is the delta of sample 1 + per * (var - 1) + i, and that word is in the buffer |
| GraphEdges.Reverse | src/ch/epfl/javelo/data/GraphEdges.java:184-191 | same length, element k is element len - 1 - k of the input |
| GraphEdges.ReverseInvolutive | src/ch/epfl/javelo/data/GraphEdges.java:184-191 | reversing twice gives the sequence back |
| GraphEdges.InvertTab | src/ch/epfl/javelo/data/GraphEdges.java:184-191 | swapping cells i and len - 1 - i for i < len / 2 leaves the array reversed |
| GraphEdges.ProfileSamples | src/ch/epfl/javelo/data/GraphEdges.java:104-128 | a fresh array holding the reference profile: empty without a profile, else the decoded samples, reversed for an inverted edge |
| GraphEdges.ProfileSize | src/ch/epfl/javelo/data/GraphEdges.java:104-115 | the profile is empty exactly when hasProfile is false, otherwise it has NbSamples entries, spaced at most 2 m apart and ending short of the edge by less than 2 m |
| GraphEdges.ProfileFirstSample | src/ch/epfl/javelo/data/GraphEdges.java:118-127 | the first stored sample is the unsigned word at the first index / 16, and it ends up last for an inverted edge |
| GraphEdges.PackedDeltas | src/ch/epfl/javelo/data/GraphEdges.java:139-168 | consecutive samples of a type-2 profile differ by a value in [-8, 7.9375], of a type-3 profile by one in [-0.5, 0.4375] |
| GraphSectors.NodeCount | src/ch/epfl/javelo/data/GraphSectors.java:51-52 | the big-endian unsigned short after the record's start id, below 65536 |
| GraphSectors.SectorSize | src/ch/epfl/javelo/data/GraphSectors.java:50-53 | unless start + count overflows an int, a sector spans exactly the stored number of nodes (so end >= start); on overflow the end wraps below the start |
| GraphSectors.CellRange | src/ch/epfl/javelo/data/GraphSectors.java:36-43 | both ends of an axis range are clamped into [0, 127] |
| GraphSectors.Table | src/ch/epfl/javelo/data/GraphSectors.java:49-53 | one sector for each of the 16384 records, record x + 128 * y for cell (x, y) |
| GraphSectors.TableAt | src/ch/epfl/javelo/data/GraphSectors.java:49-53 | entry i of the table is the sector read from the 6-byte record i |
| GraphSectors.ColumnSnoc | src/ch/epfl/javelo/data/GraphSectors.java:48-54 | one turn of the inner loop appends the sector of cell (x, y) to column x |
| GraphSectors.SectorsInArea | src/ch/epfl/javelo/data/GraphSectors.java:34-57 | the two nested loops return column after column of the clamped cell ranges, x outer and y inner |
| GraphSectors.ColumnsLayout | src/ch/epfl/javelo/data/GraphSectors.java:47-55 | the result has (xMax - xMin + 1) * (yMax - yMin + 1) entries, and cell (x, y) of the ranges sits at slot (x - xMin) * ny + (y - yMin) |
| GraphSectors.ColumnsOnlyInRange | src/ch/epfl/javelo/data/GraphSectors.java:47-55 | every entry of the result is the sector of a cell of the ranges |
| GraphSectors.CellRangeContainsCenter | src/ch/epfl/javelo/data/GraphSectors.java:36-43 | for a non-negative distance, each axis range contains the centre's own clamped cell |
| GraphSectors.AreaCoversCenter | src/ch/epfl/javelo/data/GraphSectors.java:34-57 | for a non-negative distance the sector holding the centre is always in the result |
| Graph.EdgeAttributes | src/ch/epfl/javelo/data/Graph.java:167-170 | the set is one of the graph's attribute sets, the one the edge's attribute index selects |
| Graph.EdgeProfile | src/ch/epfl/javelo/data/Graph.java:198-202 | undefined exactly where `sampled` throws: a profiled edge of length 0 |
| Graph.ProfileSamplesBounds | src/ch/epfl/javelo/data/Graph.java:199-200 | a profiled edge of positive length has between 2 and 2049 samples, so `sampled` accepts them |
| Graph.EdgeProfileValues | src/ch/epfl/javelo/data/Graph.java:198-202 | NaN everywhere without a profile; with one, the samples spread over the edge's length: first sample before 0, last beyond the length, sample k at k times the gap |
| Graph.Range | src/ch/epfl/javelo/data/Graph.java:131 | the ids a, a + 1, ..., b - 1 that the inner loop visits |
| Graph.FlatNodesOk | src/ch/epfl/javelo/data/Graph.java:130-132 | every id the loops visit is a valid node, so nodePoint does not throw |
| Graph.Candidates | src/ch/epfl/javelo/data/Graph.java:129-131 | the nodes the scan examines, sector after sector, all valid |
| Graph.ScanStep | src/ch/epfl/javelo/data/Graph.java:133-136 | one comparison with `<=` keeps the scan state: the new node is taken when it is no farther than the best so far |
| Graph.ScanSector | src/ch/epfl/javelo/data/Graph.java:131-137 | the inner loop extends the scanned nodes by the sector's ids and keeps the scan state |
| Graph.NodeClosestTo | src/ch/epfl/javelo/data/Graph.java:124-140 | -1 exactly when no candidate is within searchDistance (inclusive); otherwise a candidate within it, no farther than any other, and the last one at that distance in scanning order |
| Graph.ScanDone | src/ch/epfl/javelo/data/Graph.java:139 | the scan state after all candidates is the closest-node property |
| Graph.CenterSectorNodesAreCandidates | src/ch/epfl/javelo/data/Graph.java:129-131 | for a non-negative search distance every node of the point's own sector is examined |
| Graph.FlatContains | src/ch/epfl/javelo/data/Graph.java:130-131 | every id of every sector is visited |
| SingleRoute.PositionEdges | src/ch/epfl/javelo/routing/SingleRoute.java:131-138 | one entry per edge plus one: entry i is the total length of the first i edges |
| SingleRoute.PositionEdgesShape | src/ch/epfl/javelo/routing/SingleRoute.java:131-138 | the table starts at 0, each entry adds the previous edge's length, and the last entry is the route's length |
| SingleRoute.PositionEdgesMonotone | src/ch/epfl/javelo/routing/SingleRoute.java:131-138 | with non-negative lengths the table is non-decreasing, and strictly increasing with positive ones |
| SingleRoute.PositionEdgesSorted | src/ch/epfl/javelo/routing/SingleRoute.java:146 | the table is sorted, as binarySearch requires |
| SingleRoute.InitializePositionEdges | src/ch/epfl/javelo/routing/SingleRoute.java:131-138 | the loop fills a fresh array with exactly the table of start positions |
| SingleRoute.Length | src/ch/epfl/javelo/routing/SingleRoute.java:47-53 | the accumulated sum is the total length of the edges |
| SingleRoute.LengthIsLastPosition | src/ch/epfl/javelo/routing/SingleRoute.java:47-53 | the length is the last table entry and never negative |
| SingleRoute.Points | src/ch/epfl/javelo/routing/SingleRoute.java:66-76 | n + 1 points: the first edge's start, then every edge's end in order |
| SingleRoute.BinarySearch | src/ch/epfl/javelo/routing/SingleRoute.java:146 | Arrays.binarySearch on a sorted table: the index of an entry equal to the key, or -(insertion point) - 1 with everything before smaller and everything after larger |
| SingleRoute.ClampedPosition | src/ch/epfl/javelo/routing/SingleRoute.java:141 | the position clamped to [0, length] |
| SingleRoute.Index | src/ch/epfl/javelo/routing/SingleRoute.java:145-152 | an edge index in [0, n - 1] whose start and end positions enclose the clamped position |
| SingleRoute.IndexInside | src/ch/epfl/javelo/routing/SingleRoute.java:145-152 | a position strictly inside edge i is owned by edge i |
| SingleRoute.IndexAtEnds | src/ch/epfl/javelo/routing/SingleRoute.java:140-152 | with positive lengths, positions up to 0 go to the first edge at offset 0, and positions from the length on go to the last edge at its end |
| SingleRoute.IndexOfSegmentAt | src/ch/epfl/javelo/routing/SingleRoute.java:39-41 | a simple route is always segment 0 |
| SingleRoute.ReducedPosition | src/ch/epfl/javelo/routing/SingleRoute.java:140-142 | the clamped position minus the owning edge's start, which lies within that edge |
| SingleRoute.PointOnEdge | src/ch/epfl/javelo/routing/SingleRoute.java:84-85 | an offset within an edge of positive length has a point |
| SingleRoute.PointAt | src/ch/epfl/javelo/routing/SingleRoute.java:82-86 | with positive lengths a point always exists |
| SingleRoute.PointAtEnds | src/ch/epfl/javelo/routing/SingleRoute.java:82-86 | positions up to 0 give the first edge's start, positions from the length on give the last edge's end |
| SingleRoute.PointAtInside | src/ch/epfl/javelo/routing/SingleRoute.java:82-98 | inside edge i, the point and the elevation are those of edge i at the position minus the edge's start |
| SingleRoute.ElevationAt | src/ch/epfl/javelo/routing/SingleRoute.java:94-98 | a number whenever the owning edge has a sampled profile |
| SingleRoute.NodeClosestTo | src/ch/epfl/javelo/routing/SingleRoute.java:104-107 | one of the two end nodes of the owning edge |
| SingleRoute.NodeClosestToInside | src/ch/epfl/javelo/routing/SingleRoute.java:104-107 | inside edge i: its start node up to half its length (inclusive), its end node after |
| SingleRoute.ClampPosition | src/ch/epfl/javelo/routing/SingleRoute.java:118 | clamp of a possibly-NaN double: in [0, max]; NaN fails both comparisons and gives max |
| SingleRoute.Candidate | src/ch/epfl/javelo/routing/SingleRoute.java:118-123 | an edge's candidate has a point, a position within the edge's span on the route, and its distance to the reference point |
| SingleRoute.Candidates | src/ch/epfl/javelo/routing/SingleRoute.java:117-125 | one candidate per edge, in order |
| SingleRoute.CandidatesSnoc | src/ch/epfl/javelo/routing/SingleRoute.java:123 | one more loop turn folds min over one more candidate |
| SingleRoute.MinOfIsEarliestNearest | src/ch/epfl/javelo/routing/SingleRoute.java:115-126 | the min folded from NONE over finite-distance points is the earliest point at the least distance |
| SingleRoute.ClosestOnEdge | src/ch/epfl/javelo/routing/SingleRoute.java:118-123 | the loop body gives the edge's candidate, and fails (the PointCh constructor throws) exactly for an edge of length 0 |
| SingleRoute.IsCandidate | src/ch/epfl/javelo/routing/SingleRoute.java:118-123 | the route point the body builds from the clamped projection is the edge's candidate |
| SingleRoute.PointClosestTo | src/ch/epfl/javelo/routing/SingleRoute.java:114-127 | the running minimum over the edges' candidates, starting at NONE; absent exactly when some edge has length 0 |
| SingleRoute.PointClosestToIsNearest | src/ch/epfl/javelo/routing/SingleRoute.java:114-127 | the result's position is in [0, length], no edge's candidate is nearer, and ties keep the earliest edge |
| SingleRoute.OnRoute | src/ch/epfl/javelo/routing/SingleRoute.java:119 | a position within edge j's span lies within [0, length] |
| Routes.NewSingle | src/ch/epfl/javelo/routing/SingleRoute.java:28-32 | the SingleRoute constructor succeeds exactly for a non-empty edge list |
| Routes.NewMulti | src/ch/epfl/javelo/routing/MultiRoute.java:24-27 | the MultiRoute constructor succeeds exactly for a non-empty segment list |
| Routes.SumMonotone | src/ch/epfl/javelo/routing/MultiRoute.java:57-63 | prefix sums of non-negative lengths never decrease, and strictly grow over positive ones |
| Routes.LengthNonNegative | src/ch/epfl/javelo/routing/MultiRoute.java:57-63 | a valid route's length, at any depth, is never negative |
| Routes.Length | src/ch/epfl/javelo/routing/MultiRoute.java:57-63 | the loop's sum is the route's length: the sum of its segments' lengths, recursively |
| Routes.LengthIsEdgeSum | src/ch/epfl/javelo/routing/MultiRoute.java:57-76 | a route's length is the total length of its edges, whatever the nesting |
| Routes.LengthsAreEdgeSums | src/ch/epfl/javelo/routing/MultiRoute.java:57-76 | the first k segments' lengths add up to the length of their concatenated edges |
| Routes.Edges | src/ch/epfl/javelo/routing/MultiRoute.java:70-76 | the loop's addAll builds the segments' edges concatenated in order |
| Routes.TotalLengthAppend | src/ch/epfl/javelo/routing/MultiRoute.java:73 | the length of two appended edge lists is the sum of their lengths |
| Routes.EdgesNonEmpty | src/ch/epfl/javelo/routing/MultiRoute.java:85-88 | a valid route has at least one edge, so `edges.get(0)` does not throw; its first edge is found in the first segment |
| Routes.AddAbsentExtends | src/ch/epfl/javelo/routing/MultiRoute.java:89-93 | the list the loop builds extends the starting list |
| Routes.AddAbsentNoDuplicates | src/ch/epfl/javelo/routing/MultiRoute.java:91-92 | a point is added only when absent, so no point is repeated |
| Routes.AddAbsentMembers | src/ch/epfl/javelo/routing/MultiRoute.java:89-93 | the points are exactly the starting ones and the edges' end points |
| Routes.Points | src/ch/epfl/javelo/routing/MultiRoute.java:83-95 | a simple route gives the first start and every end; a multiple route gives the first start and then each end point not yet listed |
| Routes.MultiPoints | src/ch/epfl/javelo/routing/MultiRoute.java:83-95 | the points of a multiple route start with its first edge's start, have no duplicates, and are exactly that point and the edges' end points |
| Routes.OwnerIndex | src/ch/epfl/javelo/routing/MultiRoute.java:194-201 | the index of the owning segment lies in [0, segments.size) |
| Routes.OwnerIndexIsFirstReaching | src/ch/epfl/javelo/routing/MultiRoute.java:194-201 | every segment before the owner ends strictly before the position, and the owner (unless last) ends at or after it |
| Routes.OwnerBrackets | src/ch/epfl/javelo/routing/MultiRoute.java:190-203 | for a position in [0, length] the owner's stretch of the route contains the position |
| Routes.OwnerInside | src/ch/epfl/javelo/routing/MultiRoute.java:190-203 | a position strictly inside segment k is owned by k |
| Routes.Clamped | src/ch/epfl/javelo/routing/MultiRoute.java:167-169 | the position clamped to [0, length] |
| Routes.Owner | src/ch/epfl/javelo/routing/MultiRoute.java:190-203 | the owning segment of the clamped position, in [0, segments.size) |
| Routes.IndexOfSegmentAtSimplified | src/ch/epfl/javelo/routing/MultiRoute.java:190-203 | the loop stops at the owning segment |
| Routes.OwnerStep | src/ch/epfl/javelo/routing/MultiRoute.java:195-200 | one loop turn: passing a segment shorter than what remains keeps the owner ahead; otherwise the current segment is the owner |
| Routes.ReducedPosition | src/ch/epfl/javelo/routing/MultiRoute.java:177-182 | the unclamped position minus the lengths of the segments before the index |
| Routes.Locate | src/ch/epfl/javelo/routing/MultiRoute.java:104-106 | the owning segment and the unclamped position minus the lengths before it |
| Routes.PointAt | src/ch/epfl/javelo/routing/MultiRoute.java:103-109 | the owning segment's point at the reduced position, recursively |
| Routes.ElevationAt | src/ch/epfl/javelo/routing/MultiRoute.java:119-125 | the owning segment's elevation at the reduced position |
| Routes.NodeClosestTo | src/ch/epfl/javelo/routing/MultiRoute.java:133-139 | the owning segment's closest node at the reduced position |
| Routes.PositiveRouteLength | src/ch/epfl/javelo/routing/MultiRoute.java:57-63 | a route whose edges all have positive lengths has a positive length |
| Routes.RoutePointAtEnds | src/ch/epfl/javelo/routing/MultiRoute.java:103-109 | with positive lengths, positions up to 0 give the first edge's start and positions from the length on give the last edge's end, at any depth |
| Routes.OwnerAtStart | src/ch/epfl/javelo/routing/MultiRoute.java:190-203 | positions up to 0 are owned by the first segment, unreduced |
| Routes.OwnerAtEnd | src/ch/epfl/javelo/routing/MultiRoute.java:190-203 | with positive lengths, positions from the length on are owned by the last segment, at or beyond its end |
| Routes.OwnsInside | src/ch/epfl/javelo/routing/MultiRoute.java:167-203 | a position strictly inside segment k is unchanged by clamping and owned by k |
| Routes.Shifted | src/ch/epfl/javelo/routing/MultiRoute.java:150-154 | each segment's closest point, shifted by the length of the segments before it |
| Routes.ShiftedSnoc | src/ch/epfl/javelo/routing/MultiRoute.java:152 | one loop turn folds min over one more shifted point |
| Routes.PointClosestTo | src/ch/epfl/javelo/routing/MultiRoute.java:147-156 | the loop's running minimum is the route's closest point: the min, from NONE, of the shifted closest points of the segments |
| Routes.ClosestFound | src/ch/epfl/javelo/routing/MultiRoute.java:147-156 | a closest point exists exactly when every edge of the route has a positive length |
| Routes.ClosestOnRoute | src/ch/epfl/javelo/routing/MultiRoute.java:147-156 | the closest point has a point, a position in [0, length], and its distance to the reference point |
| Routes.SegmentWithin | src/ch/epfl/javelo/routing/MultiRoute.java:149-153 | each segment's stretch of positions lies within [0, length] |
| Routes.MultiClosestIsNearest | src/ch/epfl/javelo/routing/MultiRoute.java:147-156 | no segment's shifted point is nearer, and ties keep the earlier segment |
| Routes.FlatIndexInRange | src/ch/epfl/javelo/routing/MultiRoute.java:35-49 | the corrected flat index names a leaf: it lies in [0, number of simple routes at the leaves) |
| Routes.IndexOfSegmentAt | src/ch/epfl/javelo/routing/MultiRoute.java:35-49 | the loop returns the corrected flat index: the leaves of the segments passed over plus the owner's own index |
| Routes.IndexOfSegmentAtUndercounts | src/ch/epfl/javelo/routing/MultiRoute.java:41 | on [[A(5), Z(0)], C(5)] at position 7 the loop as written gives 1, but C is leaf 2 |
| Routes.FlatIndexAsWritten | src/ch/epfl/javelo/routing/MultiRoute.java:35-49 | indexOfSegmentAt as written: each segment passed over adds its own index at its length, plus 1; no contract of its own, it is related to FlatIndex by FlatIndexAsWrittenAgrees and IndexOfSegmentAtUndercounts |
| Routes.FlatIndexAsWrittenAgrees | src/ch/epfl/javelo/routing/MultiRoute.java:35-49 | when every edge has a positive length, the loop as written gives the corrected flat index at every position, so only zero-length edges expose the undercount |
| Routes.FlatIndexPastEnd | src/ch/epfl/javelo/routing/MultiRoute.java:36-44 | when every edge has a positive length, a position at or beyond a route's length lies in its last leaf |
| ElevationProfile.New | src/ch/epfl/javelo/routing/ElevationProfile.java:30-52 | fails exactly when the length is not positive or there are fewer than two samples; otherwise the two loops build the profile whose minimum, maximum, ascent and descent are those of the samples |
| ElevationProfile.TotalElevation | src/ch/epfl/javelo/routing/ElevationProfile.java:84-86 | never negative, and no sample lies further than it from the minimum or from the maximum |
| ElevationProfile.MinIsSmallest | src/ch/epfl/javelo/routing/ElevationProfile.java:66-69 | the minimum elevation is one of the samples and no sample is below it |
| ElevationProfile.MaxIsLargest | src/ch/epfl/javelo/routing/ElevationProfile.java:75-78 | the maximum elevation is one of the samples and no sample is above it |
| ElevationProfile.AscentMinusDescent | src/ch/epfl/javelo/routing/ElevationProfile.java:40-51 | ascent and descent are never negative, and their difference is the last sample minus the first |
| ElevationProfile.NonDecreasingHasNoDescent | src/ch/epfl/javelo/routing/ElevationProfile.java:42-49 | samples that never go down have no descent, and their ascent is the last sample minus the first |
| ElevationProfile.ValidStatistics | src/ch/epfl/javelo/routing/ElevationProfile.java:30-102 | every sample lies in [minElevation, maxElevation], ascent and descent are non-negative, and ascent minus descent is the net climb |
| ElevationProfile.ElevationAt | src/ch/epfl/javelo/routing/ElevationProfile.java:111-116 | the first sample up to position 0, the last from the length on, and always within [minElevation, maxElevation] |
| ElevationProfile.ElevationWithinSamples | src/ch/epfl/javelo/routing/ElevationProfile.java:111-116 | the sampled function of the samples over [0, length] never leaves [minElevation, maxElevation] |
| ElevationProfileComputer.Ceil | src/ch/epfl/javelo/routing/ElevationProfileComputer.java:32 | Math.ceil: the least integer that is not below its argument |
| ElevationProfileComputer.SpacingAtMost | src/ch/epfl/javelo/routing/ElevationProfileComputer.java:21-34 | a positive length gives at least two samples, spaced by a positive gap of at most maxStepLength |
| ElevationProfileComputer.Samples | src/ch/epfl/javelo/routing/ElevationProfileComputer.java:38-40 | one raw sample per index, the route's elevation at i * gap |
| ElevationProfileComputer.NanIndexesSpec | src/ch/epfl/javelo/routing/ElevationProfileComputer.java:36-44 | the NaN list holds NaN indexes only, in increasing order, and is as long as the samples exactly when every sample is NaN |
| ElevationProfileComputer.NanIndexesComplete | src/ch/epfl/javelo/routing/ElevationProfileComputer.java:38-44 | every NaN sample's index is in the list |
| ElevationProfileComputer.NanIndexesList | src/ch/epfl/javelo/routing/ElevationProfileComputer.java:36-44 | the list the sampling loop builds is exactly the increasing list of the NaN indexes |
| ElevationProfileComputer.Sample | src/ch/epfl/javelo/routing/ElevationProfileComputer.java:33-44 | a fresh array of the raw samples and the list of their NaN indexes |
| ElevationProfileComputer.Fill | src/ch/epfl/javelo/routing/ElevationProfileComputer.java:52 | Arrays.fill: the slice [from, to) takes the value and nothing else changes |
| ElevationProfileComputer.NextKnown | src/ch/epfl/javelo/routing/ElevationProfileComputer.java:85-93 | the first known sample at or after an index, with only NaN before it |
| ElevationProfileComputer.PrevKnown | src/ch/epfl/javelo/routing/ElevationProfileComputer.java:79-81 | the last known sample at or before an index, with only NaN after it |
| ElevationProfileComputer.Repaired | src/ch/epfl/javelo/routing/ElevationProfileComputer.java:46-100 | the repair keeps every known sample |
| ElevationProfileComputer.NoNanUnchanged | src/ch/epfl/javelo/routing/ElevationProfileComputer.java:47-49 | without NaN the samples come back unchanged |
| ElevationProfileComputer.AllNanIsFlat | src/ch/epfl/javelo/routing/ElevationProfileComputer.java:51-54 | when every sample is NaN, every sample becomes 0 |
| ElevationProfileComputer.LeadingTakesFirstKnown | src/ch/epfl/javelo/routing/ElevationProfileComputer.java:56-65 | the leading NaN run takes the first known sample |
| ElevationProfileComputer.TrailingTakesLastKnown | src/ch/epfl/javelo/routing/ElevationProfileComputer.java:67-76 | the trailing NaN run takes the last known sample |
| ElevationProfileComputer.InteriorBetweenNeighbours | src/ch/epfl/javelo/routing/ElevationProfileComputer.java:78-100 | a repaired interior NaN lies between its two known neighbours |
| ElevationProfileComputer.RepairIdempotent | src/ch/epfl/javelo/routing/ElevationProfileComputer.java:46-100 | once repaired nothing is NaN, so a second repair changes nothing |
| ElevationProfileComputer.KnownKept | src/ch/epfl/javelo/routing/ElevationProfileComputer.java:55-100 | no phase of the repair changes a known sample |
| ElevationProfileComputer.RepairLeading | src/ch/epfl/javelo/routing/ElevationProfileComputer.java:56-65 | removes the leading run from the list and fills it with the sample after it; the rest of the list is untouched and still has a known sample before it |
| ElevationProfileComputer.RemoveLeadingRun | src/ch/epfl/javelo/routing/ElevationProfileComputer.java:57-62 | the do-while removes exactly the run of consecutive indexes at the head of the list and returns its last index |
| ElevationProfileComputer.RepairTrailing | src/ch/epfl/javelo/routing/ElevationProfileComputer.java:66-76 | when the list ends at the last sample, removes that run and fills it with the sample before it; every remaining NaN then has known samples on both sides |
| ElevationProfileComputer.RemoveTrailingRun | src/ch/epfl/javelo/routing/ElevationProfileComputer.java:68-73 | the do-while removes exactly the run of consecutive indexes at the tail of the list and returns its first index |
| ElevationProfileComputer.RepairInterior | src/ch/epfl/javelo/routing/ElevationProfileComputer.java:77-100 | the outer loop repairs every remaining interior run, leaving nothing pending |
| ElevationProfileComputer.RepairRun | src/ch/epfl/javelo/routing/ElevationProfileComputer.java:79-99 | one turn removes a whole run from the list's head and repairs exactly it |
| ElevationProfileComputer.TakeRun | src/ch/epfl/javelo/routing/ElevationProfileComputer.java:82-91 | the inner loop walks the consecutive indexes at the head of the list; nbGap is the number of gaps from the sample before the run to the one after |
| ElevationProfileComputer.InterpolateRun | src/ch/epfl/javelo/routing/ElevationProfileComputer.java:80-97 | reads y0 and y1 at the run's two ends and interpolates between them |
| ElevationProfileComputer.FillInterpolated | src/ch/epfl/javelo/routing/ElevationProfileComputer.java:95-97 | samples start + j, for 0 < j < nbGap, take the interpolation at j / nbGap; nothing else changes |
| ElevationProfileComputer.RepairSamples | src/ch/epfl/javelo/routing/ElevationProfileComputer.java:46-100 | every sample ends up known, and the samples are the repaired raw ones; the no-NaN and all-NaN cases included |
| ElevationProfileComputer.RepairRuns | src/ch/epfl/javelo/routing/ElevationProfileComputer.java:55-100 | the leading, trailing and interior phases in turn give the repaired samples |
| ElevationProfileComputer.AllRepaired | src/ch/epfl/javelo/routing/ElevationProfileComputer.java:78-100 | once nothing is pending, every sample is known and equal to its repaired value |
| ElevationProfileComputer.ComputedProfile | src/ch/epfl/javelo/routing/ElevationProfileComputer.java:28-103 | a profile exactly when the step is positive, the route's length is positive and the sample count fits an int; it then satisfies the profile invariant and has the route's length |
| ElevationProfileComputer.SampledProfile | src/ch/epfl/javelo/routing/ElevationProfileComputer.java:32-102 | a valid profile of the given length with nbSamples repaired samples |
| ElevationProfileComputer.ElevationProfileOf | src/ch/epfl/javelo/routing/ElevationProfileComputer.java:28-103 | elevationProfile returns the specified profile, None where it throws |
| ElevationProfileComputer.ComputedProfileIs | src/ch/epfl/javelo/routing/ElevationProfileComputer.java:29-34 | with the count and gap the method computes, the specified profile is the one from sampling and repairing |
| ElevationProfileComputer.ProfileOfSamples | src/ch/epfl/javelo/routing/ElevationProfileComputer.java:33-102 | sampling, repairing and the profile constructor give the sampled profile |
| RouteComputer.Target | src/ch/epfl/javelo/routing/RouteComputer.java:83-85 | the target of an out-edge is a node of the graph |
| RouteComputer.Arcs | src/ch/epfl/javelo/routing/RouteComputer.java:79-91 | one list of out-edges per node, in the graph's order |
| RouteComputer.ArcAt | src/ch/epfl/javelo/routing/RouteComputer.java:83-91 | the search's view of the i-th out-edge of u is its target node and whether its cost factor is finite |
| RouteComputer.ArcsOkOf | src/ch/epfl/javelo/routing/RouteComputer.java:83-85 | every out-edge leads to a node, so the distance array can be indexed by its target |
| RouteComputer.Candidate | src/ch/epfl/javelo/routing/RouteComputer.java:92 | the candidate distance through an edge is never below the current node's distance, since the cost factor is at least 1 (src/ch/epfl/javelo/routing/CostFunction.java:9-10) and lengths are non-negative |
| RouteComputer.OutEdgeAt | src/ch/epfl/javelo/routing/RouteComputer.java:83-97 | what one relaxation turn reads leads to a node and has a non-negative length |
| RouteComputer.OutEdges | src/ch/epfl/javelo/routing/RouteComputer.java:79-97 | one record per out-edge of the current node, each fitting the graph |
| RouteComputer.Relax | src/ch/epfl/javelo/routing/RouteComputer.java:87-102 | one relaxation turn leaves the current node's distance and predecessor as they were |
| RouteComputer.RelaxAll | src/ch/epfl/javelo/routing/RouteComputer.java:81-103 | the whole relaxation loop leaves the current node's distance and predecessor as they were |
| RouteComputer.Expand | src/ch/epfl/javelo/routing/RouteComputer.java:79-103 | the loop's new arrays and frontier are those of relaxing every out-edge in order |
| RouteComputer.RelaxOutEdge | src/ch/epfl/javelo/routing/RouteComputer.java:83-102 | one turn: an UNREACHABLE target or an infinite factor changes nothing; otherwise a smaller candidate lowers the target's distance, sets its predecessor and queues it at distance plus straight-line distance to the end |
| RouteComputer.RemoveMin | src/ch/epfl/javelo/routing/RouteComputer.java:53 | PriorityQueue.remove gives an entry of least priority and the frontier without that one entry |
| RouteComputer.FirstIndexFromFinds | src/ch/epfl/javelo/routing/RouteComputer.java:64-71 | the scan from index i stops at the first out-edge leading to the node sought |
| RouteComputer.FirstIndexFromNone | src/ch/epfl/javelo/routing/RouteComputer.java:64-71 | the scan from index i finds nothing exactly when no out-edge from i on leads to the node |
| RouteComputer.FirstIndexToSpec | src/ch/epfl/javelo/routing/RouteComputer.java:64-71 | the scan finds the first out-edge of the predecessor leading to the current node, and finds none exactly when there is none |
| RouteComputer.OutEdgeIndexTo | src/ch/epfl/javelo/routing/RouteComputer.java:63-71 | the for/break loop returns the index of that first out-edge |
| RouteComputer.IdsAppend | src/ch/epfl/javelo/routing/RouteComputer.java:101 | adding to the frontier adds the new entry's node to its node ids |
| RouteComputer.IdsRemove | src/ch/epfl/javelo/routing/RouteComputer.java:53 | removing entry k from the frontier removes one copy of its node id |
| RouteComputer.NodesBelow | src/ch/epfl/javelo/routing/RouteComputer.java:46-50 | the node ids are exactly 0 to nodeCount - 1 |
| RouteComputer.InitialInvariant | src/ch/epfl/javelo/routing/RouteComputer.java:44-50 | the initial state, with only the start node at distance 0 in the frontier, satisfies the search invariant |
| RouteComputer.RelaxedPreds | src/ch/epfl/javelo/routing/RouteComputer.java:98-100 | lowering a node's distance with the current node as its predecessor keeps every predecessor joined to its node by a usable edge |
| RouteComputer.RelaxedFrontier | src/ch/epfl/javelo/routing/RouteComputer.java:101 | the new frontier entry keeps its node pending, and every entry still names a reached node |
| RouteComputer.RelaxedKeeps | src/ch/epfl/javelo/routing/RouteComputer.java:98-102 | a turn that lowers the target's distance keeps the invariant |
| RouteComputer.RelaxKeeps | src/ch/epfl/javelo/routing/RouteComputer.java:87-102 | any relaxation turn keeps the invariant and closes one more out-edge of the current node |
| RouteComputer.RelaxAllKeeps | src/ch/epfl/javelo/routing/RouteComputer.java:81-103 | the whole relaxation loop keeps the invariant and closes every usable out-edge of the current node |
| RouteComputer.Settle | src/ch/epfl/javelo/routing/RouteComputer.java:104 | marking the expanded node UNREACHABLE settles it at the next rank, and the invariant holds again |
| RouteComputer.Skip | src/ch/epfl/javelo/routing/RouteComputer.java:55 | dropping a frontier entry whose node is already settled keeps the invariant |
| RouteComputer.BeginExpand | src/ch/epfl/javelo/routing/RouteComputer.java:53-58 | a popped entry whose node is neither settled nor the end node starts a valid expansion |
| RouteComputer.EntryReached | src/ch/epfl/javelo/routing/RouteComputer.java:53-55 | a frontier entry names a reached node, settled exactly when no longer unsettled |
| RouteComputer.FoundWalkable | src/ch/epfl/javelo/routing/RouteComputer.java:58-61 | when the end node is popped, the predecessor chain back from it reaches the start through settled nodes of decreasing rank |
| RouteComputer.PathStaysSettled | src/ch/epfl/javelo/routing/RouteComputer.java:52-107 | a path of usable edges from a settled node never leaves the settled nodes once the frontier is empty |
| RouteComputer.NoRouteLeft | src/ch/epfl/javelo/routing/RouteComputer.java:107 | a frontier that runs empty before the end node is popped means that no path of usable edges leads from start to end |
| RouteComputer.EdgeAt | src/ch/epfl/javelo/routing/RouteComputer.java:66-68 | Edge.of on the out-edge found joins the predecessor to the current node and has a non-negative length |
| RouteComputer.Reconstruct | src/ch/epfl/javelo/routing/RouteComputer.java:58-76 | walking the predecessors back yields a valid single route, a chain of edges from start to end in which each edge is the first out-edge of its from node that leads to its to node, and some finite-cost edge joins the same two nodes, so the end is reachable |
| RouteComputer.ChainConnected | src/ch/epfl/javelo/routing/RouteComputer.java:59-75 | a chain of edges that follow usable edges is a path from its first node to its last |
| RouteComputer.RouteReaches | src/ch/epfl/javelo/routing/RouteComputer.java:59-75 | a rebuilt route shows that the end is reachable from the start |
| RouteComputer.RouteLengths | src/ch/epfl/javelo/routing/RouteComputer.java:75 | the rebuilt edges have non-negative lengths, as a single route requires |
| RouteComputer.ExpandAndSettle | src/ch/epfl/javelo/routing/RouteComputer.java:79-104 | relaxing the out-edges of the popped node and marking it UNREACHABLE keeps the invariant with the node settled |
| RouteComputer.Explore | src/ch/epfl/javelo/routing/RouteComputer.java:52-107 | the main loop returns a route exactly when the end node is reachable by edges of finite cost, and then a single route from start to end whose consecutive nodes are joined by such edges; each edge taken is the first out-edge between those nodes |
| RouteComputer.BestRouteBetween | src/ch/epfl/javelo/routing/RouteComputer.java:32-108 | bestRouteBetween returns null exactly when no path of finite-cost edges leads from start to end, and otherwise a single route that goes from start to end along the graph's edges |

## Left out

- **Square root.** It cannot be defined over `real` here, so it is a parameter of type `Math2.SqrtFn`: any function that is never negative. Facts that need `sqrt(x)^2 == x` assume it through `IsExactSqrt` or `ExactAt`. This affects `Math2.Norm`, `Math2.ProjectionLength`, `PointCh.DistanceTo`, `Edge.PositionClosestTo` and the closest-point and heuristic computations.
- **Floating point.**
  - Rounding, `float` narrowing, float versus double in `Q28_4.asFloat`, and the rounding of `Math.fma` are not modelled. Every value is an exact real; `Q28_4.asFloat` is the same real as `AsDouble`.
  - Infinities and signed zero are not modelled. NaN is `None`, an infinite cost factor is `None`, and `RoutePoint.NONE`'s infinite distance is an extended real.
- **Graph.NodeCount, NodePoint, NodeOutDegree, NodeOutEdgeId, EdgeTargetNodeId, EdgeLength and EdgeElevationGain:** plain delegations to GraphNodes and GraphEdges. They carry no contract of their own; the delegates carry it.
- **Graph.loadFrom and the buffer mapping:** file I/O and memory mapping. A graph is built from its decoded buffers, given as sequences.
- **Graph.NodeClosestTo:** it requires `Graph.Valid`, which is an assumption on the data files, since Graph.loadFrom checks none of it. It asks for all 16384 sector records and, for every node a sector lists, a node record whose point lies inside SwissBounds. The exception paths it drops: `nodePoint` throws IllegalArgumentException for a node outside the bounds (PointCh.java lines 14-16), and a buffer read past the end throws IndexOutOfBoundsException.
- **The user interface, GpxGenerator and the projections:** WebMercator, Ch1903, PointWebMercator, `PointCh.lon/lat` and `Math2.asinh` are outside this model.
- **ch.epfl.javelo.data.Attribute is not part of this model.**
  - Attributes are their ordinals below `AttributeSet.COUNT`, which is 62.
  - Each attribute's text `keyValue` is a function parameter of `AttributeSet.ToString`.
- **CostFunction implementations are not part of this model.** The cost function is a parameter whose factor is at least 1, as the interface documents. As the code does, it is called with the edge's target node (RouteComputer.java line 91), not the node the edge leaves from.
- **RouteComputer.BestRouteBetween: minimality is not proved.**
  - The contract states that the result is null exactly when no path of finite-cost edges leads from start to end.
  - Otherwise the result is a chain of edges from start to end. A finite-cost edge joins the two nodes of each edge, and each edge is the first out-edge of its predecessor that leads to its successor.
  - The edge taken need not be the one relaxed. With two parallel edges between the same nodes, the first one is taken whatever its cost, as RouteComputer.java lines 64-69 do, so its cost factor may be infinite. The contract says no more than the code does.
  - That the route has the least total cost is not proved. That would need the straight-line heuristic to be consistent with the cost factors, and exact arithmetic that the float computation does not have.
- **RouteComputer.RemoveMin:** `PriorityQueue`'s order among equal priorities is unspecified. The model removes some entry of least priority, and nothing depends on which one.
- **RouteComputer.Routable:** the search requires a well-formed graph. Every node must have a valid point, and every out-edge must have a valid target and a decodable profile. Graph.loadFrom checks none of this, so Routable is an assumption on the data files. The exception path it drops: a profiled edge of length 0 has a single sample, which Functions.sampled rejects, so Graph.edgeProfile and Edge.of throw while bestRouteBetween rebuilds a route through such an edge.
- **RouteComputer.BestRouteBetween: `startNodeId != endNodeId` is a precondition.** It is not modelled as an exception.
- **Helper methods.** The inline loops of `bestRouteBetween` and `elevationProfile` are split into helper methods, one per loop or phase: `Explore`, `ExpandAndSettle`, `Expand`, `RelaxOutEdge`, `OutEdgeIndexTo`, `Reconstruct`, the `Repair*` methods, `RemoveLeadingRun`, `RemoveTrailingRun`, `TakeRun` and `FillInterpolated`. The nearest-node scan is split the same way, into `Graph.ScanSector`. The order of the statements and the branches is unchanged.
- **SingleRoute.BinarySearch:** `Arrays.binarySearch` from the JDK is not part of this model. It is a reference function with the documented contract: the index of an equal entry, or `-(insertion point) - 1`.
- **ElevationProfile.New:** the defensive copy of the samples array is implicit, since the samples are a value (`seq<real>`).
- **Edge.ElevationAt:** states only that the value is defined for a sampled profile and is the constant for a constant one. The value itself is the profile's, as `Functions` specifies it.
- **SingleRoute.ElevationAt:** states only definedness. The value is the owning edge's elevation, as `SingleRoute.PointAtInside` states.

## Findings

| source | as written | input that shows it | evidently intended | confidence | as-written member | corrected member |
|---|---|---|---|---|---|---|
| src/ch/epfl/javelo/routing/MultiRoute.java:41 | a segment passed over adds `indexOfSegmentAt(its length) + 1` leaves. A nested route whose last simple route has length 0 puts its own length in an earlier leaf, so that segment undercounts its leaves; with positive edge lengths only, the loop as written and the corrected count agree everywhere. | the route [[A(5), Z(0)], C(5)], where A, Z and C are simple routes of the lengths shown, at position 7: the loop gives 1, but the position lies in C, which is leaf 2 | each segment passed over adds the number of simple routes it contains | not executed | Routes.IndexOfSegmentAtUndercounts | Routes.IndexOfSegmentAt |
