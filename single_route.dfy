/** A simple route, a non-empty sequence of edges
    (ch.epfl.javelo.routing.SingleRoute), with the table of the positions at
    which its edges start. Every query works on the edge list; positions are
    exact reals. */
module SingleRoute {
  import opened Wrappers
  import opened Math2
  import opened PointCh
  import opened Functions
  import opened Edge
  import E = Edge
  import opened RoutePoint

  /** The lengths are those of graph edges: never negative. The position table
      is then sorted, as binarySearch requires. */
  predicate NonNegativeLengths(edges: seq<Edge>)
  {
    forall i | 0 <= i < |edges| :: edges[i].length >= 0.0
  }

  predicate PositiveLengths(edges: seq<Edge>)
  {
    forall i | 0 <= i < |edges| :: edges[i].length > 0.0
  }

  /** The sum of the lengths of the edges. */
  function TotalLength(edges: seq<Edge>): real
  {
    if edges == [] then 0.0 else TotalLength(edges[..|edges| - 1]) + edges[|edges| - 1].length
  }

  /** positionEdges: entry i is the position at which edge i starts, the
      last entry the length of the route. */
  function PositionEdges(edges: seq<Edge>): (pe: seq<real>)
    ensures |pe| == |edges| + 1
  {
    seq(|edges| + 1, i requires 0 <= i <= |edges| => TotalLength(edges[..i]))
  }

  /** The table starts at 0, adds one edge length per entry and ends at the
      total length. */
  lemma PositionEdgesShape(edges: seq<Edge>, i: int)
    requires 0 <= i < |edges|
    ensures PositionEdges(edges)[0] == 0.0
    ensures PositionEdges(edges)[i + 1] == PositionEdges(edges)[i] + edges[i].length
    ensures PositionEdges(edges)[|edges|] == TotalLength(edges)
  {
    assert edges[..i + 1][..i] == edges[..i];
    assert edges[..|edges|] == edges;
  }

  /** With non-negative lengths the table is non-decreasing, and strictly
      increasing with positive ones. */
  lemma {:induction false} PositionEdgesMonotone(edges: seq<Edge>, i: int, j: int)
    requires 0 <= i <= j <= |edges|
    ensures NonNegativeLengths(edges) ==> PositionEdges(edges)[i] <= PositionEdges(edges)[j]
    ensures StrictlyOrdered(edges, i, j)
    decreases j - i
  {
    if i < j {
      PositionEdgesMonotone(edges, i, j - 1);
      PositionEdgesShape(edges, j - 1);
    }
  }

  /** With positive lengths a later entry is strictly larger. */
  predicate StrictlyOrdered(edges: seq<Edge>, i: int, j: int)
    requires 0 <= i <= j <= |edges|
  {
    PositiveLengths(edges) && i < j ==> PositionEdges(edges)[i] < PositionEdges(edges)[j]
  }

  /** The route's length is the last entry of the table and is never negative. */
  lemma LengthIsLastPosition(edges: seq<Edge>)
    requires NonNegativeLengths(edges)
    ensures PositionEdges(edges)[|edges|] == TotalLength(edges) >= 0.0
  {
    assert edges[..|edges|] == edges;
    PositionEdgesMonotone(edges, 0, |edges|);
  }

  /** initializePositionEdges: fills the table entry after entry. */
  method InitializePositionEdges(edges: seq<Edge>) returns (tab: array<real>)
    ensures fresh(tab)
    ensures tab[..] == PositionEdges(edges)
  {
    tab := new real[|edges| + 1];
    tab[0] := 0.0;
    for i := 1 to |edges| + 1
      invariant forall k | 0 <= k < i :: tab[k] == PositionEdges(edges)[k]
    {
      PositionEdgesShape(edges, i - 1);
      tab[i] := tab[i - 1] + edges[i - 1].length;
    }
  }

  /** length: the sum of the edge lengths, accumulated in order. */
  method Length(edges: seq<Edge>) returns (sum: real)
    ensures sum == TotalLength(edges)
  {
    sum := 0.0;
    for i := 0 to |edges|
      invariant sum == TotalLength(edges[..i])
    {
      assert edges[..i + 1][..i] == edges[..i];
      sum := sum + edges[i].length;
    }
    assert edges[..|edges|] == edges;
  }

  /** points: the start of the first edge, then the end of every edge. */
  method Points(edges: seq<Edge>) returns (list: seq<PointCh>)
    requires |edges| > 0
    ensures |list| == |edges| + 1
    ensures list[0] == edges[0].fromPoint
    ensures forall i | 0 <= i < |edges| :: list[i + 1] == edges[i].toPoint
  {
    list := [edges[0].fromPoint];
    for i := 0 to |edges|
      invariant |list| == i + 1 && list[0] == edges[0].fromPoint
      invariant forall k | 0 <= k < i :: list[k + 1] == edges[k].toPoint
    {
      list := list + [edges[i].toPoint];
    }
  }

  /** A sequence of reals in non-decreasing order. */
  predicate Sorted(a: seq<real>)
  {
    forall i, j | 0 <= i <= j < |a| :: a[i] <= a[j]
  }

  /** java.util.Arrays.binarySearch on [low, high]: the index of an entry equal
      to the key, or -(insertion point) - 1 when there is none. */
  function BinarySearch(a: seq<real>, key: real, low: int, high: int): (r: int)
    requires Sorted(a) && 0 <= low <= |a| && -1 <= high < |a| && low <= high + 1
    requires forall i | 0 <= i < low :: a[i] < key
    requires forall i | high < i < |a| :: a[i] > key
    ensures r >= 0 ==> r < |a| && a[r] == key
    ensures r < 0 ==> (0 <= -r - 1 <= |a| &&
      (forall i | 0 <= i < -r - 1 :: a[i] < key) && (forall i | -r - 1 <= i < |a| :: a[i] > key))
    decreases high - low
  {
    if low > high then -(low + 1)
    else
      var mid := (low + high) / 2;
      if a[mid] < key then BinarySearch(a, key, mid + 1, high)
      else if a[mid] > key then BinarySearch(a, key, low, mid - 1)
      else mid
  }

  /** The table is sorted when no length is negative. */
  lemma PositionEdgesSorted(edges: seq<Edge>)
    requires NonNegativeLengths(edges)
    ensures Sorted(PositionEdges(edges))
  {
    forall i, j | 0 <= i <= j < |edges| + 1
      ensures PositionEdges(edges)[i] <= PositionEdges(edges)[j]
    {
      PositionEdgesMonotone(edges, i, j);
    }
  }

  /** The position clamped to the route. */
  function ClampedPosition(edges: seq<Edge>, position: real): (r: real)
    requires NonNegativeLengths(edges)
    ensures 0.0 <= r <= TotalLength(edges)
  {
    LengthIsLastPosition(edges);
    Clamp(0.0, position, TotalLength(edges))
  }

  /** index: the edge holding the clamped position, from the binary search
      over the position table; a hit on the last entry means the last edge. */
  function Index(edges: seq<Edge>, position: real): (r: int)
    requires |edges| > 0 && NonNegativeLengths(edges)
    ensures 0 <= r < |edges|
    ensures PositionEdges(edges)[r] <= ClampedPosition(edges, position) <= PositionEdges(edges)[r + 1]
  {
    var pe := PositionEdges(edges);
    var key := ClampedPosition(edges, position);
    PositionEdgesSorted(edges);
    PositionEdgesShape(edges, 0);
    LengthIsLastPosition(edges);
    var x := BinarySearch(pe, key, 0, |pe| - 1);
    if x >= |pe| - 1 then x - 1
    else if x >= 0 then x
    else -x - 2
  }

  /** A position strictly inside edge i is owned by edge i and is its own
      clamped position. */
  lemma IndexInside(edges: seq<Edge>, position: real, i: int)
    requires |edges| > 0 && NonNegativeLengths(edges) && 0 <= i < |edges|
    requires PositionEdges(edges)[i] < position < PositionEdges(edges)[i + 1]
    ensures ClampedPosition(edges, position) == position
    ensures Index(edges, position) == i
  {
    var pe, r := PositionEdges(edges), Index(edges, position);
    LengthIsLastPosition(edges);
    PositionEdgesShape(edges, 0);
    PositionEdgesMonotone(edges, 0, i);
    PositionEdgesMonotone(edges, i + 1, |edges|);
    assert ClampedPosition(edges, position) == position;
    if r < i {
      PositionEdgesMonotone(edges, r + 1, i);
    } else if r > i {
      PositionEdgesMonotone(edges, i + 1, r);
    }
  }

  /** With positive lengths, positions up to 0 are owned by the first edge at
      offset 0, positions from the length on by the last edge at its end. */
  lemma IndexAtEnds(edges: seq<Edge>, position: real)
    requires |edges| > 0 && PositiveLengths(edges)
    ensures position <= 0.0 ==> Index(edges, position) == 0 && ReducedPosition(edges, position) == 0.0
    ensures position >= TotalLength(edges) ==>
      Index(edges, position) == |edges| - 1 && ReducedPosition(edges, position) == edges[|edges| - 1].length
  {
    var p, pe, r := ClampedPosition(edges, position), PositionEdges(edges), Index(edges, position);
    LengthIsLastPosition(edges);
    PositionEdgesShape(edges, 0);
    PositionEdgesShape(edges, |edges| - 1);
    if position <= 0.0 {
      assert p == 0.0;
      if r > 0 {
        PositionEdgesMonotone(edges, 0, r);
      }
    }
    if position >= TotalLength(edges) {
      assert p == TotalLength(edges);
      if r < |edges| - 1 {
        PositionEdgesMonotone(edges, r + 1, |edges|);
      }
    }
  }

  /** indexOfSegmentAt: a simple route is a single segment. */
  function IndexOfSegmentAt(edges: seq<Edge>, position: real): (r: int)
    ensures r == 0
  {
    0
  }

  /** clampedAndReducedPosition: the clamped position minus the start of its
      edge, i.e. the offset into that edge. */
  function ReducedPosition(edges: seq<Edge>, position: real): (r: real)
    requires |edges| > 0 && NonNegativeLengths(edges)
    ensures 0.0 <= r <= edges[Index(edges, position)].length
    ensures r == ClampedPosition(edges, position) - PositionEdges(edges)[Index(edges, position)]
  {
    PositionEdgesShape(edges, Index(edges, position));
    ClampedPosition(edges, position) - PositionEdges(edges)[Index(edges, position)]
  }

  /** An offset within an edge of positive length has a point. */
  lemma PointOnEdge(e: Edge, position: real)
    requires 0.0 <= position <= e.length
    ensures e.length > 0.0 ==> E.PointAt(e, position).Some?
  {
    if e.length > 0.0 {
      E.PointAtWithin(e, position);
    }
  }

  /** pointAt: the owning edge's point at the offset. */
  function PointAt(edges: seq<Edge>, position: real): (r: Option<PointCh>)
    requires |edges| > 0 && NonNegativeLengths(edges)
    ensures PositiveLengths(edges) ==> r.Some?
  {
    var i := Index(edges, position);
    PointOnEdge(edges[i], ReducedPosition(edges, position));
    E.PointAt(edges[i], ReducedPosition(edges, position))
  }

  /** With positive lengths, the route starts at its first edge's start and ends
      at its last edge's end; positions beyond either end are clamped. */
  lemma PointAtEnds(edges: seq<Edge>, position: real)
    requires |edges| > 0 && PositiveLengths(edges)
    ensures position <= 0.0 ==> PointAt(edges, position) == Some(edges[0].fromPoint)
    ensures position >= TotalLength(edges) ==> PointAt(edges, position) == Some(edges[|edges| - 1].toPoint)
  {
    IndexAtEnds(edges, position);
    E.PointAtEnds(edges[0], 0.0);
    E.PointAtEnds(edges[|edges| - 1], 0.0);
  }

  /** Inside edge i the route's point and elevation are those of edge i at the
      offset from the edge's start. */
  lemma PointAtInside(edges: seq<Edge>, position: real, i: int)
    requires |edges| > 0 && NonNegativeLengths(edges) && 0 <= i < |edges|
    requires PositionEdges(edges)[i] < position < PositionEdges(edges)[i + 1]
    ensures PointAt(edges, position) == E.PointAt(edges[i], position - PositionEdges(edges)[i])
    ensures ElevationAt(edges, position) == E.ElevationAt(edges[i], position - PositionEdges(edges)[i])
  {
    IndexInside(edges, position, i);
  }

  /** elevationAt: the owning edge's profile at the offset. */
  function ElevationAt(edges: seq<Edge>, position: real): (r: Option<real>)
    requires |edges| > 0 && NonNegativeLengths(edges)
    ensures edges[Index(edges, position)].profile.Sampled? ==> r.Some?
  {
    E.ElevationAt(edges[Index(edges, position)], ReducedPosition(edges, position))
  }

  /** nodeClosestTo: the start node of the owning edge when the (unclamped)
      position is at most half-way along it, else its end node. */
  function NodeClosestTo(edges: seq<Edge>, position: real): (r: int)
    requires |edges| > 0 && NonNegativeLengths(edges)
    ensures r == edges[Index(edges, position)].fromNodeId || r == edges[Index(edges, position)].toNodeId
  {
    var i := Index(edges, position);
    var condition := position - PositionEdges(edges)[i] <= edges[i].length / 2.0;
    if condition then edges[i].fromNodeId else edges[i].toNodeId
  }

  /** Inside edge i: its start node up to half-way, its end node after. */
  lemma NodeClosestToInside(edges: seq<Edge>, position: real, i: int)
    requires |edges| > 0 && NonNegativeLengths(edges) && 0 <= i < |edges|
    requires PositionEdges(edges)[i] < position < PositionEdges(edges)[i + 1]
    ensures position - PositionEdges(edges)[i] <= edges[i].length / 2.0 ==> NodeClosestTo(edges, position) == edges[i].fromNodeId
    ensures position - PositionEdges(edges)[i] > edges[i].length / 2.0 ==> NodeClosestTo(edges, position) == edges[i].toNodeId
  {
    IndexInside(edges, position, i);
  }

  /** Math2.clamp(0, v, max) on a double that may be NaN: every comparison with
      NaN is false, so NaN is clamped to max. */
  function ClampPosition(v: Option<real>, max: real): (r: real)
    requires max >= 0.0
    ensures 0.0 <= r <= max
    ensures v.None? ==> r == max
    ensures v.Some? ==> r == Clamp(0.0, v.value, max)
  {
    match v
    case None => max
    case Some(x) => Clamp(0.0, x, max)
  }

  /** Math.abs. */
  function Abs(x: real): (r: real)
    ensures r >= 0.0 && (r == x || r == -x)
  {
    if x < 0.0 then -x else x
  }

  /** The candidate of pointClosestTo for edge e starting at `offset`: the
      point's projection clamped to the edge, as a RoutePoint. */
  function Candidate(sqrt: SqrtFn, e: Edge, offset: real, point: PointCh): (r: RoutePoint)
    requires e.length > 0.0
    ensures r.point.Some? && r.position.Some? && r.distanceToReference.Finite?
    ensures offset <= r.position.value <= offset + e.length
    ensures r.distanceToReference.d == DistanceTo(sqrt, point, r.point.value)
  {
    var position := ClampPosition(PositionClosestTo(sqrt, e, point), e.length);
    E.PointAtWithin(e, position);
    CandidateAt(sqrt, offset, point, position, E.PointAt(e, position))
  }

  /** The route point for the point p found at `position` on an edge starting
      at `offset`. */
  function CandidateAt(sqrt: SqrtFn, offset: real, point: PointCh, position: real, p: Option<PointCh>): RoutePoint
    requires p.Some?
  {
    RoutePoint(p, Some(Abs(position) + offset), Finite(DistanceTo(sqrt, point, p.value)))
  }

  predicate PositivePrefix(edges: seq<Edge>, k: int)
  {
    forall j | 0 <= j < k && j < |edges| :: edges[j].length > 0.0
  }

  /** The candidates of the first k edges. */
  function Candidates(sqrt: SqrtFn, edges: seq<Edge>, point: PointCh, k: int): (r: seq<RoutePoint>)
    requires 0 <= k <= |edges| && PositivePrefix(edges, k)
    ensures |r| == k
    ensures forall j | 0 <= j < k :: r[j] == Candidate(sqrt, edges[j], PositionEdges(edges)[j], point)
  {
    seq(k, j requires 0 <= j < k => Candidate(sqrt, edges[j], PositionEdges(edges)[j], point))
  }

  /** One more edge adds its candidate at the end. */
  lemma CandidatesSnoc(sqrt: SqrtFn, edges: seq<Edge>, point: PointCh, k: int)
    requires 0 <= k < |edges| && PositivePrefix(edges, k + 1)
    ensures MinOf(Candidates(sqrt, edges, point, k + 1)) ==
      Min(MinOf(Candidates(sqrt, edges, point, k)), Candidate(sqrt, edges[k], PositionEdges(edges)[k], point))
  {
    var c := Candidates(sqrt, edges, point, k + 1);
    assert c[..k] == Candidates(sqrt, edges, point, k);
  }

  /** min folded over a sequence of points from the left, starting at NONE. */
  function MinOf(points: seq<RoutePoint>): RoutePoint
  {
    if points == [] then NONE else Min(MinOf(points[..|points| - 1]), points[|points| - 1])
  }

  /** m is points[j], no point is nearer, and every earlier one is farther. */
  ghost predicate EarliestNearest(points: seq<RoutePoint>, j: int, m: RoutePoint)
    requires 0 <= j < |points|
    requires forall k | 0 <= k < |points| :: points[k].distanceToReference.Finite?
  {
    m == points[j] &&
    (forall k | 0 <= k < |points| :: m.distanceToReference.d <= points[k].distanceToReference.d) &&
    (forall k | 0 <= k < j :: points[k].distanceToReference.d > m.distanceToReference.d)
  }

  /** The fold of min over points at finite distances is the earliest of the
      nearest points. */
  lemma {:induction false} MinOfIsEarliestNearest(points: seq<RoutePoint>)
    requires |points| > 0
    requires forall k | 0 <= k < |points| :: points[k].distanceToReference.Finite?
    ensures exists j | 0 <= j < |points| :: EarliestNearest(points, j, MinOf(points))
  {
    var n := |points| - 1;
    var prefix := points[..n];
    assert forall k | 0 <= k < n :: prefix[k] == points[k];
    if n == 0 {
      assert EarliestNearest(points, 0, MinOf(points));
    } else {
      MinOfIsEarliestNearest(prefix);
      var j :| 0 <= j < n && EarliestNearest(prefix, j, MinOf(prefix));
      if points[n].distanceToReference.d < MinOf(prefix).distanceToReference.d {
        assert EarliestNearest(points, n, MinOf(points));
      } else {
        assert EarliestNearest(points, j, MinOf(points));
      }
    }
  }

  /** The body of pointClosestTo's loop for one edge starting at `offset`:
      the point's projection clamped to the edge; None where Edge.pointAt throws,
      on an edge of length 0. */
  method ClosestOnEdge(sqrt: SqrtFn, edge: Edge, offset: real, point: PointCh) returns (r: Option<RoutePoint>)
    requires edge.length >= 0.0
    ensures r.None? <==> edge.length == 0.0
    ensures r.Some? ==> r.value == Candidate(sqrt, edge, offset, point)
  {
    var position := ClampPosition(PositionClosestTo(sqrt, edge, point), edge.length);
    var thatPosition := Abs(position) + offset;
    var p := E.PointAt(edge, position);
    if p.None? {
      PointOnEdge(edge, position);
      return None;
    }
    var thatDistanceToRef := DistanceTo(sqrt, point, p.value);
    r := Some(RoutePoint(p, Some(thatPosition), Finite(thatDistanceToRef)));
    IsCandidate(sqrt, edge, offset, point, position, p);
  }

  /** What the loop body builds from the clamped position is the edge's
      candidate. */
  lemma IsCandidate(sqrt: SqrtFn, edge: Edge, offset: real, point: PointCh, position: real, p: Option<PointCh>)
    requires edge.length >= 0.0 && position == ClampPosition(PositionClosestTo(sqrt, edge, point), edge.length)
    requires p == E.PointAt(edge, position) && p.Some?
    ensures edge.length > 0.0
    ensures RoutePoint(p, Some(Abs(position) + offset), Finite(DistanceTo(sqrt, point, p.value))) ==
      Candidate(sqrt, edge, offset, point)
  {
    assert CandidateAt(sqrt, offset, point, position, p) == Candidate(sqrt, edge, offset, point);
  }

  /** pointClosestTo: for each edge in turn, the projection of the point
      clamped to the edge, kept when strictly nearer than the best so far;
      None when an edge has length 0. */
  method PointClosestTo(sqrt: SqrtFn, edges: seq<Edge>, point: PointCh) returns (closest: Option<RoutePoint>)
    requires NonNegativeLengths(edges)
    ensures closest.None? <==> !PositiveLengths(edges)
    ensures closest.Some? ==> closest.value == MinOf(Candidates(sqrt, edges, point, |edges|))
  {
    var positionEdges := InitializePositionEdges(edges);
    var best := NONE;
    var i := 0;
    while i < |edges|
      invariant 0 <= i <= |edges| && PositivePrefix(edges, i)
      invariant best == MinOf(Candidates(sqrt, edges, point, i))
      invariant positionEdges[..] == PositionEdges(edges)
    {
      assert positionEdges[i] == positionEdges[..][i];
      var c := ClosestOnEdge(sqrt, edges[i], positionEdges[i], point);
      if c.None? {
        return None;
      }
      CandidatesSnoc(sqrt, edges, point, i);
      best := MinWith(best, c.value.point, c.value.position, c.value.distanceToReference);
      i := i + 1;
    }
    closest := Some(best);
  }

  /** The point found lies on the route, and no edge's candidate is nearer; it
      is the candidate of the first edge at the least distance. */
  lemma PointClosestToIsNearest(sqrt: SqrtFn, edges: seq<Edge>, point: PointCh)
    requires |edges| > 0 && PositiveLengths(edges)
    ensures var c := Candidates(sqrt, edges, point, |edges|);
      var m := MinOf(c);
      m.position.Some? && 0.0 <= m.position.value <= TotalLength(edges) &&
      exists j | 0 <= j < |c| :: EarliestNearest(c, j, m)
  {
    var c := Candidates(sqrt, edges, point, |edges|);
    MinOfIsEarliestNearest(c);
    var j :| 0 <= j < |c| && EarliestNearest(c, j, MinOf(c));
    OnRoute(edges, c[j].position.value, j);
  }

  /** A position within edge j lies within the route. */
  lemma OnRoute(edges: seq<Edge>, x: real, j: int)
    requires NonNegativeLengths(edges) && 0 <= j < |edges|
    requires PositionEdges(edges)[j] <= x <= PositionEdges(edges)[j] + edges[j].length
    ensures 0.0 <= x <= TotalLength(edges)
  {
    LengthIsLastPosition(edges);
    PositionEdgesShape(edges, j);
    PositionEdgesMonotone(edges, 0, j);
    PositionEdgesMonotone(edges, j + 1, |edges|);
  }
}
