/** The edge tables of the graph (ch.epfl.javelo.data.GraphEdges): 10-byte
    edge records, one profile word per edge (2-bit type, 30-bit first sample
    index) and the 16-bit elevation samples, raw or packed as deltas. */
module GraphEdges {
  import opened Bits
  import opened Q28_4
  import opened Math2

  const OFFSET_ID: nat := 0
  const OFFSET_LENGTH: nat := OFFSET_ID + 4
  const OFFSET_DENIV: nat := OFFSET_LENGTH + 2
  const OFFSET_OSM: nat := OFFSET_DENIV + 2
  const OFFSET_EDGE_SIZE: nat := OFFSET_OSM + 2
  const OFFSET_PROFIL_ID: Int32 := 30
  const OFFSET_PROFIL_TYPE: Int32 := 2
  const SIZE_Q44: Int32 := 8
  const SIZE_Q04: Int32 := 4

  type Byte = b: int | 0 <= b < 256
  type Int16 = x: int | -0x8000 <= x < 0x8000

  /** The ByteBuffer of edge records, the IntBuffer of profile words and the
      ShortBuffer of elevation samples. */
  datatype GraphEdges = GraphEdges(edgesBuffer: seq<Byte>, profileIds: seq<Int32>, elevations: seq<Int16>)

  /** ByteBuffer.getInt: four bytes, big-endian, two's complement. */
  function GetInt(buf: seq<Byte>, offset: nat): Int32
    requires offset + 4 <= |buf|
  {
    Signed((((buf[offset] as int) * 256 + buf[offset + 1]) * 256 + buf[offset + 2]) * 256 + buf[offset + 3])
  }

  /** ByteBuffer.getShort: two bytes, big-endian, two's complement. */
  function GetShort(buf: seq<Byte>, offset: nat): Int16
    requires offset + 2 <= |buf|
  {
    var u := (buf[offset] as int) * 256 + buf[offset + 1];
    if u >= 0x8000 then u - 0x1_0000 else u
  }

  /** Short.toUnsignedInt. */
  function ToUnsignedInt(s: Int16): (r: nat)
    ensures r < 0x1_0000 && (r - s) % 0x1_0000 == 0
  {
    if s < 0 then s + 0x1_0000 else s
  }

  /** An edge id whose record and profile word are in the buffers. */
  predicate IsEdge(g: GraphEdges, edgeId: int)
  {
    0 <= edgeId && edgeId * OFFSET_EDGE_SIZE + OFFSET_EDGE_SIZE <= |g.edgesBuffer| && edgeId < |g.profileIds|
  }

  function TargetWord(g: GraphEdges, edgeId: int): Int32
    requires IsEdge(g, edgeId)
  {
    GetInt(g.edgesBuffer, edgeId * OFFSET_EDGE_SIZE + OFFSET_ID)
  }

  /** isInverted: the stored target word is negative. */
  predicate IsInverted(g: GraphEdges, edgeId: int)
    requires IsEdge(g, edgeId)
  {
    TargetWord(g, edgeId) < 0
  }

  /** targetNodeId: the word itself, or its complement ~word for an inverted
      edge; never negative. */
  function TargetNodeId(g: GraphEdges, edgeId: int): (r: Int32)
    requires IsEdge(g, edgeId)
    ensures r >= 0
  {
    var nodeId := TargetWord(g, edgeId);
    if IsInverted(g, edgeId) then -1 - nodeId else nodeId
  }

  /** The target word is recovered from the target node and the direction:
      the direction flag and the target together encode the word. */
  lemma TargetEncoding(g: GraphEdges, edgeId: int)
    requires IsEdge(g, edgeId)
    ensures TargetWord(g, edgeId) == if IsInverted(g, edgeId) then -1 - TargetNodeId(g, edgeId) else TargetNodeId(g, edgeId)
  {
  }

  /** lengthQ28: the unsigned short at offset 4 of the record. */
  function LengthQ28(g: GraphEdges, edgeId: int): (r: nat)
    requires IsEdge(g, edgeId)
    ensures r < 0x1_0000
    ensures r == (g.edgesBuffer[edgeId * OFFSET_EDGE_SIZE + OFFSET_LENGTH] as int) * 256
      + g.edgesBuffer[edgeId * OFFSET_EDGE_SIZE + OFFSET_LENGTH + 1]
  {
    ToUnsignedInt(GetShort(g.edgesBuffer, edgeId * OFFSET_EDGE_SIZE + OFFSET_LENGTH))
  }

  /** length: lengthQ28 read as Q28.4 metres, within [0, 4095.9375]. */
  function Length(g: GraphEdges, edgeId: int): (r: real)
    requires IsEdge(g, edgeId)
    ensures 0.0 <= r <= 4095.9375
    ensures r * 16.0 == LengthQ28(g, edgeId) as real
  {
    AsDouble(LengthQ28(g, edgeId))
  }

  /** elevationGain: the unsigned short at offset 6 read as Q28.4 metres. */
  function ElevationGain(g: GraphEdges, edgeId: int): (r: real)
    requires IsEdge(g, edgeId)
    ensures 0.0 <= r <= 4095.9375
    ensures r * 16.0 == ((g.edgesBuffer[edgeId * OFFSET_EDGE_SIZE + OFFSET_DENIV] as int) * 256
      + g.edgesBuffer[edgeId * OFFSET_EDGE_SIZE + OFFSET_DENIV + 1]) as real
  {
    AsDouble(ToUnsignedInt(GetShort(g.edgesBuffer, edgeId * OFFSET_EDGE_SIZE + OFFSET_DENIV)))
  }

  /** attributesIndex: the unsigned short at offset 8. */
  function AttributesIndex(g: GraphEdges, edgeId: int): (r: nat)
    requires IsEdge(g, edgeId)
    ensures r <= 65535
    ensures r == (g.edgesBuffer[edgeId * OFFSET_EDGE_SIZE + OFFSET_OSM] as int) * 256
      + g.edgesBuffer[edgeId * OFFSET_EDGE_SIZE + OFFSET_OSM + 1]
  {
    ToUnsignedInt(GetShort(g.edgesBuffer, edgeId * OFFSET_EDGE_SIZE + OFFSET_OSM))
  }

  /** The profile type: bits 30..31 of the edge's profile word. */
  function ProfileType(g: GraphEdges, edgeId: int): (r: Int32)
    requires IsEdge(g, edgeId)
    ensures r == Field(g.profileIds[edgeId], 30, 2)
    ensures 0 <= r <= 3
  {
    ExtractUnsignedIsField(g.profileIds[edgeId], OFFSET_PROFIL_ID, OFFSET_PROFIL_TYPE);
    ExtractUnsignedRange(g.profileIds[edgeId], OFFSET_PROFIL_ID, OFFSET_PROFIL_TYPE);
    ExtractUnsigned(g.profileIds[edgeId], OFFSET_PROFIL_ID, OFFSET_PROFIL_TYPE).value
  }

  /** The index of the edge's first sample: bits 0..29 of its profile word. */
  function FirstSampleIndex(g: GraphEdges, edgeId: int): (r: Int32)
    requires IsEdge(g, edgeId)
    ensures r == Field(g.profileIds[edgeId], 0, 30)
    ensures r >= 0
  {
    ExtractUnsignedIsField(g.profileIds[edgeId], 0, OFFSET_PROFIL_ID);
    ExtractUnsigned(g.profileIds[edgeId], 0, OFFSET_PROFIL_ID).value
  }

  /** hasProfile: the profile type is not 0. */
  predicate HasProfile(g: GraphEdges, edgeId: int)
    requires IsEdge(g, edgeId)
  {
    ProfileType(g, edgeId) != 0
  }

  /** The number of samples of a profile: one every 2 m plus one,
      1 + ceilDiv(lengthQ28, ofInt(2)). */
  function NbSamples(g: GraphEdges, edgeId: int): (r: nat)
    requires IsEdge(g, edgeId)
    ensures r == 1 + CeilDiv(LengthQ28(g, edgeId), 32)
  {
    OfIntScales(OFFSET_PROFIL_TYPE);
    1 + CeilDiv(LengthQ28(g, edgeId), OfInt(OFFSET_PROFIL_TYPE))
  }

  /** Samples per 16-bit word: 1 raw sample for type 1, 2 8-bit deltas for
      type 2, 4 4-bit deltas for type 3. */
  function PerWord(profileType: int): nat
  {
    if profileType == 2 then 2 else if profileType == 3 then 4 else 1
  }

  /** The word holding sample k >= 1, counted from the first sample index. */
  function WordOf(index: int, per: nat, k: nat): int
    requires per >= 1 && k >= 1
  {
    index + 1 + (k - 1) / per
  }

  /** Every word a profile of n samples reads lies in the sample buffer. */
  predicate Readable(elevations: seq<Int16>, profileType: int, index: int, n: nat)
  {
    n >= 1 && 0 <= index < |elevations| && (n >= 2 ==> WordOf(index, PerWord(profileType), n - 1) < |elevations|)
  }

  lemma ReadableBelow(elevations: seq<Int16>, profileType: int, index: int, n: nat, k: nat)
    requires Readable(elevations, profileType, index, n) && 1 <= k < n
    ensures 0 <= WordOf(index, PerWord(profileType), k) < |elevations|
  {
    DivMonotone(k - 1, n - 2, PerWord(profileType));
  }

  lemma DivMonotone(a: nat, b: nat, d: nat)
    requires a <= b && d >= 1
    ensures a / d <= b / d
  {
    var qa, qb := a / d, b / d;
    assert a == qa * d + a % d && b == qb * d + b % d;
    if qa > qb {
      MulLe(qb + 1, qa, d);
    }
  }

  /** An unsigned sample read as Q28.4 metres. */
  function Raw(elevations: seq<Int16>, j: int): real
    requires 0 <= j < |elevations|
  {
    AsFloat(ToUnsignedInt(elevations[j]))
  }

  /** The delta of sample k >= 1 in a packed profile: the signed field of its
      word, most significant field first, read as Q28.4. */
  function DeltaAt(elevations: seq<Int16>, index: int, per: nat, k: nat): real
    requires per == 2 || per == 4
    requires k >= 1 && 0 <= WordOf(index, per, k) < |elevations|
  {
    var bits: Int32 := 16 / per;
    var i := (k - 1) % per;
    var start: Int32 := bits * (per - 1 - i);
    AsFloat(ExtractSigned(elevations[WordOf(index, per, k)], start, bits).value)
  }

  /** Sample k of a decoded profile: type 1 reads it raw, types 2 and 3 add its
      delta to sample k - 1; sample 0 is always raw. */
  function Decoded(elevations: seq<Int16>, profileType: int, index: int, n: nat, k: nat): real
    requires 1 <= profileType <= 3
    requires Readable(elevations, profileType, index, n) && k < n
  {
    if k == 0 then Raw(elevations, index)
    else if profileType == 1 then
      ReadableBelow(elevations, profileType, index, n, k);
      Raw(elevations, index + k)
    else
      ReadableBelow(elevations, profileType, index, n, k);
      Decoded(elevations, profileType, index, n, k - 1) + DeltaAt(elevations, index, PerWord(profileType), k)
  }

  function Samples(elevations: seq<Int16>, profileType: int, index: int, n: nat): (r: seq<real>)
    requires 1 <= profileType <= 3
    requires Readable(elevations, profileType, index, n)
    ensures |r| == n
    ensures forall k :: 0 <= k < n ==> r[k] == Decoded(elevations, profileType, index, n, k)
  {
    seq(n, k requires 0 <= k < n => Decoded(elevations, profileType, index, n, k))
  }

  function Reverse<T>(s: seq<T>): (r: seq<T>)
    ensures |r| == |s|
    ensures forall k :: 0 <= k < |s| ==> r[k] == s[|s| - 1 - k]
  {
    seq(|s|, k requires 0 <= k < |s| => s[|s| - 1 - k])
  }

  /** Reversing twice gives the sequence back. */
  lemma ReverseInvolutive<T>(s: seq<T>)
    ensures Reverse(Reverse(s)) == s
  {
    assert forall k :: 0 <= k < |s| ==> Reverse(Reverse(s))[k] == s[k];
  }

  /** The buffers hold every word the edge's profile reads. */
  predicate ProfileReadable(g: GraphEdges, edgeId: int)
    requires IsEdge(g, edgeId)
  {
    HasProfile(g, edgeId) ==> Readable(g.elevations, ProfileType(g, edgeId), FirstSampleIndex(g, edgeId), NbSamples(g, edgeId))
  }

  /** What profileSamples returns: nothing without a profile, else the decoded
      samples, reversed end to end for an inverted edge. */
  function Profile(g: GraphEdges, edgeId: int): seq<real>
    requires IsEdge(g, edgeId) && ProfileReadable(g, edgeId)
  {
    if !HasProfile(g, edgeId) then []
    else
      var s := Samples(g.elevations, ProfileType(g, edgeId), FirstSampleIndex(g, edgeId), NbSamples(g, edgeId));
      if IsInverted(g, edgeId) then Reverse(s) else s
  }

  /** fillProfileSamplesType1: samples 1 .. n - 1 read raw from the words
      following the first. */
  method FillProfileSamplesType1(elevations: seq<Int16>, nbSample: nat, samples: array<real>, index: int)
    requires samples.Length == nbSample && Readable(elevations, 1, index, nbSample)
    requires samples[0] == Raw(elevations, index)
    modifies samples
    ensures samples[..] == Samples(elevations, 1, index, nbSample)
  {
    for i := 1 to nbSample
      invariant samples[0] == Raw(elevations, index)
      invariant forall k :: 0 <= k < i ==> samples[k] == Decoded(elevations, 1, index, nbSample, k)
    {
      ReadableBelow(elevations, 1, index, nbSample, i);
      samples[i] := AsFloat(ToUnsignedInt(elevations[index + i]));
    }
  }

  /** fillProfileSamplesType2: word after word, its two 8-bit fields, most
      significant first, are the deltas from the previous sample. */
  method FillProfileSamplesType2(elevations: seq<Int16>, nbSample: nat, samples: array<real>, index: int)
    requires samples.Length == nbSample && Readable(elevations, 2, index, nbSample)
    requires samples[0] == Raw(elevations, index)
    modifies samples
    ensures samples[..] == Samples(elevations, 2, index, nbSample)
  {
    var indexo := 1;
    var word := 1;
    while indexo < nbSample
      invariant 1 <= indexo <= nbSample && word >= 1
      invariant indexo == Min(nbSample, 1 + 2 * (word - 1))
      invariant forall k {:trigger samples[k]} :: 0 <= k < indexo ==> samples[k] == Decoded(elevations, 2, index, nbSample, k)
      decreases nbSample - indexo
    {
      for i := 0 to 2
        invariant indexo == Min(nbSample, 1 + 2 * (word - 1) + i)
        invariant forall k {:trigger samples[k]} :: 0 <= k < indexo ==> samples[k] == Decoded(elevations, 2, index, nbSample, k)
      {
        if indexo < nbSample {
          DecodedStep(elevations, 2, index, nbSample, indexo, word, i, 2, SIZE_Q44);
          ghost var before := samples[..];
          ghost var delta := AsFloat(ExtractSigned(elevations[index + word], SIZE_Q44 * (1 - i), SIZE_Q44).value);
          samples[indexo] := samples[indexo - 1]
            + AsFloat(ExtractSigned(elevations[index + word], SIZE_Q44 * (1 - i), SIZE_Q44).value);
          PrefixStep(before, samples[..], elevations, 2, index, nbSample, indexo, delta);
          indexo := indexo + 1;
        }
      }
      word := word + 1;
    }
  }

  /** fillProfileSamplesType3: word after word, its four 4-bit fields, most
      significant first, are the deltas from the previous sample. */
  method FillProfileSamplesType3(elevations: seq<Int16>, nbSample: nat, samples: array<real>, index: int)
    requires samples.Length == nbSample && Readable(elevations, 3, index, nbSample)
    requires samples[0] == Raw(elevations, index)
    modifies samples
    ensures samples[..] == Samples(elevations, 3, index, nbSample)
  {
    var indexo := 1;
    var word := 1;
    while indexo < nbSample
      invariant 1 <= indexo <= nbSample && word >= 1
      invariant indexo == Min(nbSample, 1 + 4 * (word - 1))
      invariant forall k {:trigger samples[k]} :: 0 <= k < indexo ==> samples[k] == Decoded(elevations, 3, index, nbSample, k)
      decreases nbSample - indexo
    {
      for i := 0 to 4
        invariant indexo == Min(nbSample, 1 + 4 * (word - 1) + i)
        invariant forall k {:trigger samples[k]} :: 0 <= k < indexo ==> samples[k] == Decoded(elevations, 3, index, nbSample, k)
      {
        if indexo < nbSample {
          DecodedStep(elevations, 3, index, nbSample, indexo, word, i, 4, SIZE_Q04);
          ghost var before := samples[..];
          ghost var delta := AsFloat(ExtractSigned(elevations[index + word], SIZE_Q04 * (3 - i), SIZE_Q04).value);
          samples[indexo] := samples[indexo - 1]
            + AsFloat(ExtractSigned(elevations[index + word], SIZE_Q04 * (3 - i), SIZE_Q04).value);
          PrefixStep(before, samples[..], elevations, 3, index, nbSample, indexo, delta);
          indexo := indexo + 1;
        }
      }
      word := word + 1;
    }
  }

  /** Writing the decoded sample k after a decoded prefix of length k extends
      the prefix by one. */
  lemma PrefixStep(before: seq<real>, after: seq<real>, elevations: seq<Int16>, profileType: int, index: int, n: nat, k: nat, delta: real)
    requires 1 <= profileType <= 3 && Readable(elevations, profileType, index, n) && 1 <= k < n
    requires |before| == |after| == n
    requires forall j {:trigger before[j]} :: 0 <= j < k ==> before[j] == Decoded(elevations, profileType, index, n, j)
    requires after == before[k := before[k - 1] + delta]
    requires Decoded(elevations, profileType, index, n, k) == Decoded(elevations, profileType, index, n, k - 1) + delta
    ensures forall j {:trigger after[j]} :: 0 <= j < k + 1 ==> after[j] == Decoded(elevations, profileType, index, n, j)
  {
    forall j | 0 <= j < k + 1
      ensures after[j] == Decoded(elevations, profileType, index, n, j)
    {
      if j < k {
        assert after[j] == before[j];
      } else {
        assert before[k - 1] == Decoded(elevations, profileType, index, n, k - 1);
      }
    }
  }

  /** Sample k, the i-th field of word `word`, is sample k - 1 plus that
      field's value. */
  lemma DecodedStep(elevations: seq<Int16>, profileType: int, index: int, n: nat, k: nat, word: int, i: int, per: nat, size: Int32)
    requires (profileType == 2 && per == 2 && size == SIZE_Q44) || (profileType == 3 && per == 4 && size == SIZE_Q04)
    requires Readable(elevations, profileType, index, n) && 1 <= k < n
    requires 0 <= i < per && word >= 1 && k == 1 + per * (word - 1) + i
    ensures 0 <= index + word < |elevations|
    ensures Decoded(elevations, profileType, index, n, k) == Decoded(elevations, profileType, index, n, k - 1)
        + AsFloat(ExtractSigned(elevations[index + word], size * (per - 1 - i), size).value)
  {
    DivModUnique(k - 1, per, word - 1, i);
    ReadableBelow(elevations, profileType, index, n, k);
  }

  function Min(a: int, b: int): int
  {
    if a <= b then a else b
  }

  /** invertTab: swaps tab[i] and tab[len - 1 - i] for i < len / 2, reversing
      the array in place. */
  method InvertTab(tab: array<real>)
    modifies tab
    ensures tab[..] == Reverse(old(tab[..]))
  {
    ghost var original := tab[..];
    var n := tab.Length;
    for i := 0 to n / 2
      invariant forall k :: 0 <= k < i ==> tab[k] == original[n - 1 - k] && tab[n - 1 - k] == original[k]
      invariant forall k :: i <= k < n - i ==> tab[k] == original[k]
    {
      var tmp := tab[i];
      tab[i] := tab[n - i - 1];
      tab[n - i - 1] := tmp;
    }
  }

  /** profileSamples: a fresh array with the edge's decoded profile. */
  method ProfileSamples(g: GraphEdges, edgeId: int) returns (samples: array<real>)
    requires IsEdge(g, edgeId) && ProfileReadable(g, edgeId)
    ensures fresh(samples)
    ensures samples[..] == Profile(g, edgeId)
  {
    if !HasProfile(g, edgeId) {
      return new real[0];
    }
    var profilType := ProfileType(g, edgeId);
    var index := FirstSampleIndex(g, edgeId);
    var nbSample := NbSamples(g, edgeId);
    samples := new real[nbSample];
    samples[0] := AsFloat(ToUnsignedInt(g.elevations[index]));
    if profilType == 1 {
      FillProfileSamplesType1(g.elevations, nbSample, samples, index);
    } else if profilType == 2 {
      FillProfileSamplesType2(g.elevations, nbSample, samples, index);
    } else {
      FillProfileSamplesType3(g.elevations, nbSample, samples, index);
    }
    if IsInverted(g, edgeId) {
      InvertTab(samples);
    }
  }

  /** The profile is empty exactly when the edge has none; otherwise it has one
      sample every 2 m of the edge plus one. */
  lemma ProfileSize(g: GraphEdges, edgeId: int)
    requires IsEdge(g, edgeId) && ProfileReadable(g, edgeId)
    ensures |Profile(g, edgeId)| == 0 <==> !HasProfile(g, edgeId)
    ensures HasProfile(g, edgeId) ==> |Profile(g, edgeId)| == NbSamples(g, edgeId)
    ensures 2.0 * (NbSamples(g, edgeId) - 1) as real >= Length(g, edgeId)
    ensures NbSamples(g, edgeId) >= 2 ==> 2.0 * (NbSamples(g, edgeId) - 2) as real < Length(g, edgeId)
  {
    var q := CeilDiv(LengthQ28(g, edgeId), 32);
    assert q * 32 >= LengthQ28(g, edgeId);
    assert (q * 32) as real == 2.0 * q as real * 16.0;
    if q >= 1 {
      assert ((q - 1) * 32) as real == 2.0 * (q - 1) as real * 16.0;
    }
  }

  /** The first stored sample is the profile's first value, or its last for an
      inverted edge. */
  lemma ProfileFirstSample(g: GraphEdges, edgeId: int)
    requires IsEdge(g, edgeId) && ProfileReadable(g, edgeId) && HasProfile(g, edgeId)
    ensures var p := Profile(g, edgeId); var first := Raw(g.elevations, FirstSampleIndex(g, edgeId));
      if IsInverted(g, edgeId) then p[|p| - 1] == first else p[0] == first
  {
  }

  /** In a packed profile (type 2 or 3) each sample differs from the previous
      one by its signed field read as Q28.4: at most 128 / 16 m down and
      127 / 16 m up for type 2, 8 / 16 m down and 7 / 16 m up for type 3. */
  lemma PackedDeltas(g: GraphEdges, edgeId: int, k: nat)
    requires IsEdge(g, edgeId) && ProfileReadable(g, edgeId)
    requires ProfileType(g, edgeId) >= 2 && !IsInverted(g, edgeId)
    requires 1 <= k < NbSamples(g, edgeId)
    ensures var d := Profile(g, edgeId)[k] - Profile(g, edgeId)[k - 1];
      if ProfileType(g, edgeId) == 2 then -8.0 <= d <= 7.9375 else -0.5 <= d <= 0.4375
  {
    var t, index, n := ProfileType(g, edgeId), FirstSampleIndex(g, edgeId), NbSamples(g, edgeId);
    ReadableBelow(g.elevations, t, index, n, k);
    assert Profile(g, edgeId)[k] - Profile(g, edgeId)[k - 1] == DeltaAt(g.elevations, index, PerWord(t), k);
    DeltaBounds(g.elevations, index, PerWord(t), k);
  }

  lemma DeltaBounds(elevations: seq<Int16>, index: int, per: nat, k: nat)
    requires per == 2 || per == 4
    requires k >= 1 && 0 <= WordOf(index, per, k) < |elevations|
    ensures var d := DeltaAt(elevations, index, per, k);
      if per == 2 then -8.0 <= d <= 7.9375 else -0.5 <= d <= 0.4375
  {
    var w := elevations[WordOf(index, per, k)];
    var i := (k - 1) % per;
    if per == 2 {
      ExtractSignedRange(w, 8 * (1 - i), 8);
      assert Pow2(7) == 128;
    } else {
      ExtractSignedRange(w, 4 * (3 - i), 4);
      assert Pow2(3) == 8;
    }
  }
}
