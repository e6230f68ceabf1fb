/** Routes (ch.epfl.javelo.routing.Route): a simple route over edges, or a
    multiple route (MultiRoute) made of contiguous sub-routes, its segments,
    nested to any depth. */
module Routes {
  import opened Wrappers
  import opened Math2
  import opened PointCh
  import opened Edge
  import opened RoutePoint
  import S = SingleRoute
  import Functions
  import opened SwissBounds

  datatype Route = Single(edges: seq<Edge>) | Multi(segments: seq<Route>)

  /** What the constructors check (no empty edge or segment list), and what
      the graph guarantees of edge lengths. */
  predicate ValidRoute(r: Route)
  {
    match r
    case Single(edges) => |edges| > 0 && S.NonNegativeLengths(edges)
    case Multi(segments) => |segments| > 0 && forall i | 0 <= i < |segments| :: ValidRoute(segments[i])
  }

  /** The SingleRoute constructor: refuses an empty edge list. */
  function NewSingle(edges: seq<Edge>): (r: Option<Route>)
    requires S.NonNegativeLengths(edges)
    ensures r.Some? <==> |edges| > 0
    ensures r.Some? ==> r.value == Single(edges) && ValidRoute(r.value)
  {
    if |edges| == 0 then None else Some(Single(edges))
  }

  /** The MultiRoute constructor: refuses an empty segment list. */
  function NewMulti(segments: seq<Route>): (r: Option<Route>)
    requires forall i | 0 <= i < |segments| :: ValidRoute(segments[i])
    ensures r.Some? <==> |segments| > 0
    ensures r.Some? ==> r.value == Multi(segments) && ValidRoute(r.value)
  {
    if |segments| == 0 then None else Some(Multi(segments))
  }

  // ---------------------------------------------------------------------
  // Lengths

  /** The sum of a sequence of reals, added from the left. */
  function Sum(s: seq<real>): real
  {
    if s == [] then 0.0 else Sum(s[..|s| - 1]) + s[|s| - 1]
  }

  lemma SumStep(s: seq<real>, k: int)
    requires 0 <= k < |s|
    ensures Sum(s[..k + 1]) == Sum(s[..k]) + s[k]
    ensures Sum(s[..|s|]) == Sum(s)
  {
    assert s[..k + 1][..k] == s[..k];
    assert s[..|s|] == s;
  }

  predicate NonNegative(s: seq<real>)
  {
    forall i | 0 <= i < |s| :: s[i] >= 0.0
  }

  /** Prefix sums of non-negative reals do not decrease, and strictly
      increase over positive ones. */
  lemma {:induction false} SumMonotone(s: seq<real>, i: int, j: int)
    requires NonNegative(s) && 0 <= i <= j <= |s|
    ensures Sum(s[..i]) <= Sum(s[..j])
    ensures (forall k | i <= k < j :: s[k] > 0.0) && i < j ==> Sum(s[..i]) < Sum(s[..j])
    decreases j - i
  {
    if i < j {
      SumMonotone(s, i, j - 1);
      SumStep(s, j - 1);
    }
  }

  /** length(): the sum of the edge lengths, or of the segment lengths. */
  function RouteLength(r: Route): real
  {
    match r
    case Single(edges) => S.TotalLength(edges)
    case Multi(segments) => Sum(Lengths(segments))
  }

  /** The lengths of the segments, in order. */
  function Lengths(segments: seq<Route>): (lens: seq<real>)
    ensures |lens| == |segments|
  {
    seq(|segments|, i requires 0 <= i < |segments| => RouteLength(segments[i]))
  }

  /** A valid route's length is never negative. */
  lemma {:induction false} LengthNonNegative(r: Route)
    requires ValidRoute(r)
    ensures RouteLength(r) >= 0.0
  {
    match r
    case Single(edges) =>
      S.LengthIsLastPosition(edges);
    case Multi(segments) =>
      LengthsNonNegative(segments);
      SumMonotone(Lengths(segments), 0, |segments|);
      assert Lengths(segments)[..|segments|] == Lengths(segments);
  }

  lemma {:induction false} LengthsNonNegative(segments: seq<Route>)
    requires forall i | 0 <= i < |segments| :: ValidRoute(segments[i])
    ensures NonNegative(Lengths(segments))
  {
    forall i | 0 <= i < |segments|
      ensures Lengths(segments)[i] >= 0.0
    {
      LengthNonNegative(segments[i]);
    }
  }

  /** length() as the loop over segments (or edges) computes it. */
  method Length(r: Route) returns (length: real)
    ensures length == RouteLength(r)
    decreases r
  {
    match r
    case Single(edges) =>
      length := S.Length(edges);
    case Multi(segments) =>
      length := 0.0;
      for i := 0 to |segments|
        invariant length == Sum(Lengths(segments)[..i])
      {
        var l := Length(segments[i]);
        SumStep(Lengths(segments), i);
        length := length + l;
      }
      assert Lengths(segments)[..|segments|] == Lengths(segments);
  }

  // ---------------------------------------------------------------------
  // Edges and points

  /** The concatenation of a sequence of edge lists. */
  function Concat(lists: seq<seq<Edge>>): seq<Edge>
  {
    if lists == [] then [] else Concat(lists[..|lists| - 1]) + lists[|lists| - 1]
  }

  /** edges(): the edges of a simple route, or the segments' edges one segment
      after the other. */
  function RouteEdges(r: Route): seq<Edge>
  {
    match r
    case Single(edges) => edges
    case Multi(segments) => Concat(EdgeLists(segments))
  }

  function EdgeLists(segments: seq<Route>): (lists: seq<seq<Edge>>)
    ensures |lists| == |segments|
  {
    seq(|segments|, i requires 0 <= i < |segments| => RouteEdges(segments[i]))
  }

  /** edges(): addAll of every segment's edges, in order. */
  method Edges(r: Route) returns (edges: seq<Edge>)
    ensures edges == RouteEdges(r)
    decreases r
  {
    match r
    case Single(es) =>
      edges := es;
    case Multi(segments) =>
      edges := [];
      for i := 0 to |segments|
        invariant edges == Concat(EdgeLists(segments)[..i])
      {
        var es := Edges(segments[i]);
        assert EdgeLists(segments)[..i + 1][..i] == EdgeLists(segments)[..i];
        edges := edges + es;
      }
      assert EdgeLists(segments)[..|segments|] == EdgeLists(segments);
  }

  lemma {:induction false} TotalLengthAppend(a: seq<Edge>, b: seq<Edge>)
    ensures S.TotalLength(a + b) == S.TotalLength(a) + S.TotalLength(b)
    decreases |b|
  {
    if b != [] {
      var n := |b| - 1;
      var ab := a + b;
      assert ab != [] && ab[..|ab| - 1] == a + b[..n] && ab[|ab| - 1] == b[n];
      TotalLengthAppend(a, b[..n]);
    } else {
      assert a + b == a;
    }
  }

  /** The length of any route is the sum of the lengths of its edges, whatever
      the nesting. */
  lemma {:induction false} LengthIsEdgeSum(r: Route)
    ensures RouteLength(r) == S.TotalLength(RouteEdges(r))
    decreases r, 1
  {
    match r
    case Single(_) =>
    case Multi(segments) =>
      LengthsAreEdgeSums(segments, |segments|);
      assert Lengths(segments)[..|segments|] == Lengths(segments);
      assert EdgeLists(segments)[..|segments|] == EdgeLists(segments);
  }

  lemma {:induction false} LengthsAreEdgeSums(segments: seq<Route>, k: int)
    requires 0 <= k <= |segments|
    ensures Sum(Lengths(segments)[..k]) == S.TotalLength(Concat(EdgeLists(segments)[..k]))
    decreases segments, 0, k
  {
    if k > 0 {
      LengthsAreEdgeSums(segments, k - 1);
      LengthIsEdgeSum(segments[k - 1]);
      SumStep(Lengths(segments), k - 1);
      var lists := EdgeLists(segments);
      assert lists[..k][..k - 1] == lists[..k - 1];
      TotalLengthAppend(Concat(lists[..k - 1]), lists[k - 1]);
    }
  }

  /** A valid route has at least one edge; the first one is its first
      segment's first. */
  lemma {:induction false} EdgesNonEmpty(r: Route)
    requires ValidRoute(r)
    ensures |RouteEdges(r)| > 0 && RouteEdges(r)[0] == FirstEdge(r)
    decreases r, 1
  {
    match r
    case Single(_) =>
    case Multi(segments) =>
      EdgesNonEmpty(segments[0]);
      ConcatStartsWithFirst(EdgeLists(segments), |segments|);
  }

  lemma {:induction false} ConcatStartsWithFirst(lists: seq<seq<Edge>>, k: int)
    requires 0 < k <= |lists| && |lists[0]| > 0
    ensures |Concat(lists[..k])| > 0 && Concat(lists[..k])[0] == lists[0][0]
    ensures k == |lists| ==> Concat(lists) == Concat(lists[..k])
  {
    assert lists[..|lists|] == lists;
    if k > 1 {
      assert lists[..k][..k - 1] == lists[..k - 1];
      ConcatStartsWithFirst(lists, k - 1);
    } else {
      assert lists[..1][..0] == [];
    }
  }

  /** Adding each edge's end point, unless the list already contains it. */
  function AddAbsent(points: seq<PointCh>, edges: seq<Edge>): seq<PointCh>
    decreases |edges|
  {
    if edges == [] then points
    else AddAbsent(if edges[0].toPoint in points then points else points + [edges[0].toPoint], edges[1..])
  }

  predicate NoDuplicates(points: seq<PointCh>)
  {
    forall i, j | 0 <= i < j < |points| :: points[i] != points[j]
  }

  /** The list built extends the starting one. */
  lemma {:induction false} AddAbsentExtends(points: seq<PointCh>, edges: seq<Edge>)
    ensures var r := AddAbsent(points, edges);
      |points| <= |r| && r[..|points|] == points
    decreases |edges|
  {
    if edges != [] {
      var next := if edges[0].toPoint in points then points else points + [edges[0].toPoint];
      AddAbsentExtends(next, edges[1..]);
      var r := AddAbsent(next, edges[1..]);
      assert r[..|points|] == r[..|next|][..|points|];
    }
  }

  /** A point is added only when absent, so no point is repeated. */
  lemma {:induction false} AddAbsentNoDuplicates(points: seq<PointCh>, edges: seq<Edge>)
    requires NoDuplicates(points)
    ensures NoDuplicates(AddAbsent(points, edges))
    decreases |edges|
  {
    if edges != [] {
      var next := if edges[0].toPoint in points then points else points + [edges[0].toPoint];
      assert NoDuplicates(next);
      AddAbsentNoDuplicates(next, edges[1..]);
    }
  }

  /** The points are exactly the starting ones and the edges' end points. */
  lemma {:induction false} AddAbsentMembers(points: seq<PointCh>, edges: seq<Edge>, p: PointCh)
    ensures p in AddAbsent(points, edges) <==> p in points || p in ToPoints(edges)
    decreases |edges|
  {
    if edges != [] {
      var next := if edges[0].toPoint in points then points else points + [edges[0].toPoint];
      AddAbsentMembers(next, edges[1..], p);
      assert ToPoints(edges) == [edges[0].toPoint] + ToPoints(edges[1..]);
    }
  }

  /** The end points of the edges, in order. */
  function ToPoints(edges: seq<Edge>): (ps: seq<PointCh>)
    ensures |ps| == |edges|
    ensures forall i | 0 <= i < |edges| :: ps[i] == edges[i].toPoint
  {
    seq(|edges|, i requires 0 <= i < |edges| => edges[i].toPoint)
  }

  /** points(): for a simple route, the start of its first edge and each edge's
      end; for a multiple route, the same without repetitions. */
  method Points(r: Route) returns (points: seq<PointCh>)
    requires ValidRoute(r)
    ensures r.Single? ==> (|points| == |r.edges| + 1 && points[0] == r.edges[0].fromPoint &&
      forall i | 0 <= i < |r.edges| :: points[i + 1] == r.edges[i].toPoint)
    ensures r.Multi? ==> (|RouteEdges(r)| > 0 &&
      points == AddAbsent([RouteEdges(r)[0].fromPoint], RouteEdges(r)))
  {
    match r
    case Single(edges) =>
      points := S.Points(edges);
    case Multi(_) =>
      var edges := Edges(r);
      EdgesNonEmpty(r);
      points := [edges[0].fromPoint];
      for i := 0 to |edges|
        invariant AddAbsent(points, edges[i..]) == AddAbsent([edges[0].fromPoint], edges)
      {
        var pTo := edges[i].toPoint;
        assert edges[i..][1..] == edges[i + 1..];
        if !(pTo in points) {
          points := points + [pTo];
        }
      }
  }

  /** The points of a multiple route start at its first edge's start, are
      distinct, and are exactly that point and the edges' end points. */
  lemma MultiPoints(r: Route)
    requires ValidRoute(r) && r.Multi?
    ensures var e := RouteEdges(r);
      |e| > 0 &&
      var points := AddAbsent([e[0].fromPoint], e);
      |points| > 0 && points[0] == e[0].fromPoint && NoDuplicates(points) &&
      forall p :: p in points <==> p == e[0].fromPoint || p in ToPoints(e)
  {
    EdgesNonEmpty(r);
    var e := RouteEdges(r);
    AddAbsentExtends([e[0].fromPoint], e);
    AddAbsentNoDuplicates([e[0].fromPoint], e);
    forall p
      ensures p in AddAbsent([e[0].fromPoint], e) <==> p == e[0].fromPoint || p in ToPoints(e)
    {
      AddAbsentMembers([e[0].fromPoint], e, p);
    }
  }

  // ---------------------------------------------------------------------
  // Positions

  /** The segment owning position x, from the left: the first whose length is
      at least what remains of x after the segments before it. */
  function OwnerIndex(lens: seq<real>, x: real): (k: int)
    requires |lens| > 0
    ensures 0 <= k < |lens|
    decreases |lens|
  {
    if |lens| == 1 || x <= lens[0] then 0 else 1 + OwnerIndex(lens[1..], x - lens[0])
  }

  lemma SumCons(s: seq<real>, k: int)
    requires 0 < k <= |s|
    ensures Sum(s[..k]) == s[0] + Sum(s[1..][..k - 1])
    decreases k
  {
    if k > 1 {
      SumCons(s, k - 1);
      SumStep(s, k - 1);
      SumStep(s[1..], k - 2);
      assert s[1..][k - 2] == s[k - 1];
    } else {
      assert s[..1][..0] == [];
      assert s[1..][..0] == [];
    }
  }

  /** The owner is the first segment whose end (the prefix sum through it)
      reaches x: every segment before it ends before x. */
  lemma {:induction false} OwnerIndexIsFirstReaching(lens: seq<real>, x: real)
    requires |lens| > 0
    ensures var k := OwnerIndex(lens, x);
      (k < |lens| - 1 ==> x <= Sum(lens[..k + 1])) &&
      forall j | 0 < j <= k :: Sum(lens[..j]) < x
    decreases |lens|
  {
    var k := OwnerIndex(lens, x);
    SumCons(lens, 1);
    assert lens[1..][..0] == [];
    if !(|lens| == 1 || x <= lens[0]) {
      var rest := lens[1..];
      OwnerIndexIsFirstReaching(rest, x - lens[0]);
      SumCons(lens, k + 1);
      forall j | 0 < j <= k
        ensures Sum(lens[..j]) < x
      {
        SumCons(lens, j);
      }
    }
  }

  /** With non-negative lengths and 0 <= x <= total, the owner's start is at
      most x and its end at least x; with positive lengths, x inside segment k
      is owned by k. */
  lemma OwnerBrackets(lens: seq<real>, x: real)
    requires |lens| > 0 && NonNegative(lens) && 0.0 <= x <= Sum(lens)
    ensures var k := OwnerIndex(lens, x);
      Sum(lens[..k]) <= x <= Sum(lens[..k + 1])
  {
    var k := OwnerIndex(lens, x);
    OwnerIndexIsFirstReaching(lens, x);
    SumStep(lens, k);
    if k == 0 {
      assert lens[..0] == [];
    }
    if k == |lens| - 1 {
      SumStep(lens, |lens| - 1);
    }
  }

  lemma OwnerInside(lens: seq<real>, x: real, k: int)
    requires |lens| > 0 && NonNegative(lens) && 0 <= k < |lens|
    requires Sum(lens[..k]) < x < Sum(lens[..k + 1])
    ensures OwnerIndex(lens, x) == k
  {
    var o := OwnerIndex(lens, x);
    OwnerIndexIsFirstReaching(lens, x);
    if o < k {
      SumMonotone(lens, o + 1, k);
    }
  }

  /** The position clamped to a multiple route of these segments. */
  function Clamped(segments: seq<Route>, position: real): (r: real)
    requires forall i | 0 <= i < |segments| :: ValidRoute(segments[i])
    ensures 0.0 <= r <= Sum(Lengths(segments))
  {
    LengthsNonNegative(segments);
    SumMonotone(Lengths(segments), 0, |segments|);
    assert Lengths(segments)[..|segments|] == Lengths(segments);
    Clamp(0.0, position, Sum(Lengths(segments)))
  }

  /** The owning segment of a position in a multiple route. */
  function Owner(segments: seq<Route>, position: real): (k: int)
    requires |segments| > 0 && forall i | 0 <= i < |segments| :: ValidRoute(segments[i])
    ensures 0 <= k < |segments|
  {
    OwnerIndex(Lengths(segments), Clamped(segments, position))
  }

  /** indexOfSegmentAtSimplified: index of the owning segment, found by
      subtracting segment lengths from the (re-clamped) position. */
  method IndexOfSegmentAtSimplified(segments: seq<Route>, position: real) returns (index: int)
    requires |segments| > 0 && forall i | 0 <= i < |segments| :: ValidRoute(segments[i])
    ensures index == Owner(segments, position)
  {
    var length := Length(Multi(segments));
    LengthNonNegative(Multi(segments));
    var pos := Clamp(0.0, position, length);
    ghost var lens := Lengths(segments);
    ghost var owner := Owner(segments, position);
    index := 0;
    while index < |segments|
      invariant 0 <= index <= owner
      invariant OwnerIndex(lens[index..], pos) == owner - index
      invariant pos <= Sum(lens) - Sum(lens[..index])
    {
      var l := Length(segments[index]);
      OwnerStep(lens, index, pos, owner);
      if l < pos {
        index := index + 1;
        pos := pos - l;
      } else {
        break;
      }
    }
  }

  /** One step of the walk over the segments: from what remains of the
      position, either the segment owns it or the walk moves on, never past
      the last segment. */
  lemma OwnerStep(lens: seq<real>, i: int, pos: real, owner: int)
    requires 0 <= i < |lens| && OwnerIndex(lens[i..], pos) == owner - i
    requires pos <= Sum(lens) - Sum(lens[..i])
    ensures lens[i] < pos ==> (i < |lens| - 1 && OwnerIndex(lens[i + 1..], pos - lens[i]) == owner - (i + 1) &&
      pos - lens[i] <= Sum(lens) - Sum(lens[..i + 1]))
    ensures !(lens[i] < pos) ==> owner == i
  {
    assert lens[i..][0] == lens[i] && lens[i..][1..] == lens[i + 1..];
    SumStep(lens, i);
    SumStep(lens, |lens| - 1);
  }

  /** reducedPosition: the position minus the lengths of the segments before
      the given index (not clamped). */
  method ReducedPosition(segments: seq<Route>, position: real, index: int) returns (pos: real)
    requires 0 <= index <= |segments|
    ensures pos == position - Sum(Lengths(segments)[..index])
  {
    pos := position;
    for i := 0 to index
      invariant pos == position - Sum(Lengths(segments)[..i])
    {
      var l := Length(segments[i]);
      SumStep(Lengths(segments), i);
      pos := pos - l;
    }
  }

  /** The three steps shared by pointAt, elevationAt and nodeClosestTo: clamp,
      find the owning segment, reduce the unclamped position. */
  method Locate(segments: seq<Route>, position: real) returns (index: int, pos: real)
    requires |segments| > 0 && forall i | 0 <= i < |segments| :: ValidRoute(segments[i])
    ensures index == Owner(segments, position)
    ensures pos == position - Sum(Lengths(segments)[..index])
  {
    var length := Length(Multi(segments));
    LengthNonNegative(Multi(segments));
    var clamped := Clamp(0.0, position, length);
    LengthsNonNegative(segments);
    SumMonotone(Lengths(segments), 0, |segments|);
    assert Lengths(segments)[..|segments|] == Lengths(segments);
    ClampIdempotent(0.0, position, length);
    index := IndexOfSegmentAtSimplified(segments, clamped);
    pos := ReducedPosition(segments, position, index);
  }

  /** pointAt, as a function of the route. */
  function RoutePointAt(r: Route, position: real): Option<PointCh>
    requires ValidRoute(r)
  {
    match r
    case Single(edges) => S.PointAt(edges, position)
    case Multi(segments) =>
      var k := Owner(segments, position);
      RoutePointAt(segments[k], position - Sum(Lengths(segments)[..k]))
  }

  /** elevationAt, as a function of the route. */
  function RouteElevationAt(r: Route, position: real): Option<real>
    requires ValidRoute(r)
  {
    match r
    case Single(edges) => S.ElevationAt(edges, position)
    case Multi(segments) =>
      var k := Owner(segments, position);
      RouteElevationAt(segments[k], position - Sum(Lengths(segments)[..k]))
  }

  /** nodeClosestTo, as a function of the route. */
  function RouteNodeClosestTo(r: Route, position: real): int
    requires ValidRoute(r)
  {
    match r
    case Single(edges) => S.NodeClosestTo(edges, position)
    case Multi(segments) =>
      var k := Owner(segments, position);
      RouteNodeClosestTo(segments[k], position - Sum(Lengths(segments)[..k]))
  }

  method PointAt(r: Route, position: real) returns (p: Option<PointCh>)
    requires ValidRoute(r)
    ensures p == RoutePointAt(r, position)
    decreases r
  {
    match r
    case Single(edges) =>
      p := S.PointAt(edges, position);
    case Multi(segments) =>
      var index, pos := Locate(segments, position);
      p := PointAt(segments[index], pos);
  }

  method ElevationAt(r: Route, position: real) returns (y: Option<real>)
    requires ValidRoute(r)
    ensures y == RouteElevationAt(r, position)
    decreases r
  {
    match r
    case Single(edges) =>
      y := S.ElevationAt(edges, position);
    case Multi(segments) =>
      var index, pos := Locate(segments, position);
      y := ElevationAt(segments[index], pos);
  }

  method NodeClosestTo(r: Route, position: real) returns (node: int)
    requires ValidRoute(r)
    ensures node == RouteNodeClosestTo(r, position)
    decreases r
  {
    match r
    case Single(edges) =>
      node := S.NodeClosestTo(edges, position);
    case Multi(segments) =>
      var index, pos := Locate(segments, position);
      node := NodeClosestTo(segments[index], pos);
  }

  /** Every edge of the route, at any depth, has a positive length. */
  predicate PositiveRoute(r: Route)
  {
    match r
    case Single(edges) => S.PositiveLengths(edges)
    case Multi(segments) => forall i | 0 <= i < |segments| :: PositiveRoute(segments[i])
  }

  /** The first and the last edge, found by descending into the first or last
      segment. */
  function FirstEdge(r: Route): Edge
    requires ValidRoute(r)
  {
    match r
    case Single(edges) => edges[0]
    case Multi(segments) => FirstEdge(segments[0])
  }

  function LastEdge(r: Route): Edge
    requires ValidRoute(r)
  {
    match r
    case Single(edges) => edges[|edges| - 1]
    case Multi(segments) => LastEdge(segments[|segments| - 1])
  }

  /** A route of positive length edges has a positive length. */
  lemma {:induction false} PositiveRouteLength(r: Route)
    requires ValidRoute(r) && PositiveRoute(r)
    ensures RouteLength(r) > 0.0
  {
    match r
    case Single(edges) =>
      S.LengthIsLastPosition(edges);
      S.PositionEdgesMonotone(edges, 0, |edges|);
      S.PositionEdgesShape(edges, 0);
    case Multi(segments) =>
      PositiveLengthsOf(segments);
      SumMonotone(Lengths(segments), 0, |segments|);
      assert Lengths(segments)[..|segments|] == Lengths(segments);
      assert Lengths(segments)[..0] == [];
  }

  lemma {:induction false} PositiveLengthsOf(segments: seq<Route>)
    requires forall i | 0 <= i < |segments| :: ValidRoute(segments[i]) && PositiveRoute(segments[i])
    ensures NonNegative(Lengths(segments))
    ensures forall i | 0 <= i < |segments| :: Lengths(segments)[i] > 0.0
  {
    forall i | 0 <= i < |segments|
      ensures Lengths(segments)[i] > 0.0
    {
      PositiveRouteLength(segments[i]);
    }
  }

  /** With positive edge lengths, a route starts at its first edge's start
      and ends at its last edge's end, at any depth; positions beyond either
      end are clamped. */
  lemma RoutePointAtEnds(r: Route, position: real)
    requires ValidRoute(r) && PositiveRoute(r)
    ensures position <= 0.0 ==> RoutePointAt(r, position) == Some(FirstEdge(r).fromPoint)
    ensures position >= RouteLength(r) ==> RoutePointAt(r, position) == Some(LastEdge(r).toPoint)
  {
    if position <= 0.0 {
      RouteStart(r, position);
    }
    if position >= RouteLength(r) {
      RouteEnd(r, position);
    }
  }

  lemma {:induction false} RouteStart(r: Route, position: real)
    requires ValidRoute(r) && PositiveRoute(r) && position <= 0.0
    ensures RoutePointAt(r, position) == Some(FirstEdge(r).fromPoint)
  {
    match r
    case Single(edges) =>
      S.PointAtEnds(edges, position);
    case Multi(segments) =>
      OwnerAtStart(segments, position);
      RouteStart(segments[0], position);
  }

  /** Positions up to 0 are owned by the first segment, at their own value. */
  lemma OwnerAtStart(segments: seq<Route>, position: real)
    requires |segments| > 0 && forall i | 0 <= i < |segments| :: ValidRoute(segments[i])
    requires position <= 0.0
    ensures Owner(segments, position) == 0 && Sum(Lengths(segments)[..0]) == 0.0
  {
    var lens := Lengths(segments);
    LengthsNonNegative(segments);
    assert Clamped(segments, position) == 0.0;
    assert lens[..0] == [];
  }

  lemma {:induction false} RouteEnd(r: Route, position: real)
    requires ValidRoute(r) && PositiveRoute(r) && position >= RouteLength(r)
    ensures RoutePointAt(r, position) == Some(LastEdge(r).toPoint)
  {
    match r
    case Single(edges) =>
      S.PointAtEnds(edges, position);
    case Multi(segments) =>
      var n := |segments|;
      OwnerAtEnd(segments, position);
      RouteEnd(segments[n - 1], position - Sum(Lengths(segments)[..n - 1]));
  }

  /** With positive lengths, positions from the length on are owned by the
      last segment, and reach at least its length. */
  lemma OwnerAtEnd(segments: seq<Route>, position: real)
    requires |segments| > 0 && forall i | 0 <= i < |segments| :: ValidRoute(segments[i]) && PositiveRoute(segments[i])
    requires position >= Sum(Lengths(segments))
    ensures Owner(segments, position) == |segments| - 1
    ensures position - Sum(Lengths(segments)[..|segments| - 1]) >= RouteLength(segments[|segments| - 1])
  {
    var lens := Lengths(segments);
    var n := |segments|;
    var total := Sum(lens);
    assert Clamped(segments, position) == total;
    PositiveLengthsOf(segments);
    OwnerIndexAtTotal(lens);
    SumStep(lens, n - 1);
  }

  /** With positive lengths the total is reached only by the last one. */
  lemma OwnerIndexAtTotal(lens: seq<real>)
    requires |lens| > 0 && NonNegative(lens) && forall i | 0 <= i < |lens| :: lens[i] > 0.0
    ensures OwnerIndex(lens, Sum(lens)) == |lens| - 1
  {
    var k := OwnerIndex(lens, Sum(lens));
    OwnerIndexIsFirstReaching(lens, Sum(lens));
    assert lens[..|lens|] == lens;
    SumMonotone(lens, k + 1, |lens|);
  }

  /** A position strictly inside segment k is its own clamped position and
      is owned by segment k, to which pointAt, elevationAt and nodeClosestTo
      delegate with the offset from the segment's start. */
  lemma OwnsInside(segments: seq<Route>, position: real, k: int)
    requires |segments| > 0 && forall i | 0 <= i < |segments| :: ValidRoute(segments[i])
    requires 0 <= k < |segments|
    requires Sum(Lengths(segments)[..k]) < position < Sum(Lengths(segments)[..k + 1])
    ensures Clamped(segments, position) == position && Owner(segments, position) == k
  {
    var lens := Lengths(segments);
    LengthsNonNegative(segments);
    SumMonotone(lens, 0, k);
    SumMonotone(lens, k + 1, |segments|);
    assert lens[..|segments|] == lens;
    assert lens[..0] == [];
    assert Clamped(segments, position) == position;
    OwnerInside(lens, position, k);
  }

  // ---------------------------------------------------------------------
  // Closest point

  /** pointClosestTo, as a function of the route: the simple route's nearest
      candidate, or, for a multiple route, the nearest of its segments' points
      shifted by the lengths before them. None where an edge has length 0. */
  function RouteClosest(sqrt: SqrtFn, r: Route, point: PointCh): Option<RoutePoint>
    requires ValidRoute(r)
    decreases r, 2
  {
    match r
    case Single(edges) =>
      if S.PositiveLengths(edges) then Some(S.MinOf(S.Candidates(sqrt, edges, point, |edges|))) else None
    case Multi(segments) =>
      if AllFound(sqrt, segments, point, |segments|) then Some(S.MinOf(Shifted(sqrt, segments, point, |segments|)))
      else None
  }

  /** The first k segments each have a closest point. */
  predicate AllFound(sqrt: SqrtFn, segments: seq<Route>, point: PointCh, k: int)
    requires 0 <= k <= |segments| && forall i | 0 <= i < |segments| :: ValidRoute(segments[i])
    decreases segments, 0
  {
    forall i | 0 <= i < k :: RouteClosest(sqrt, segments[i], point).Some?
  }

  /** The closest points of the first k segments, shifted to positions of the
      whole route. */
  function Shifted(sqrt: SqrtFn, segments: seq<Route>, point: PointCh, k: int): (r: seq<RoutePoint>)
    requires 0 <= k <= |segments| && forall i | 0 <= i < |segments| :: ValidRoute(segments[i])
    requires AllFound(sqrt, segments, point, k)
    ensures |r| == k
    decreases segments, 1
  {
    seq(k, i requires 0 <= i < k =>
      WithPositionShiftedBy(RouteClosest(sqrt, segments[i], point).value, Sum(Lengths(segments)[..i])))
  }

  lemma ShiftedSnoc(sqrt: SqrtFn, segments: seq<Route>, point: PointCh, k: int)
    requires 0 <= k < |segments| && forall i | 0 <= i < |segments| :: ValidRoute(segments[i])
    requires AllFound(sqrt, segments, point, k + 1)
    ensures S.MinOf(Shifted(sqrt, segments, point, k + 1)) ==
      Min(S.MinOf(Shifted(sqrt, segments, point, k)),
          WithPositionShiftedBy(RouteClosest(sqrt, segments[k], point).value, Sum(Lengths(segments)[..k])))
  {
    var c := Shifted(sqrt, segments, point, k + 1);
    assert c[..k] == Shifted(sqrt, segments, point, k);
  }

  /** pointClosestTo: each segment's closest point shifted by the length so
      far, kept when strictly nearer. */
  method PointClosestTo(sqrt: SqrtFn, r: Route, point: PointCh) returns (closest: Option<RoutePoint>)
    requires ValidRoute(r)
    ensures closest == RouteClosest(sqrt, r, point)
    decreases r
  {
    match r
    case Single(edges) =>
      closest := S.PointClosestTo(sqrt, edges, point);
    case Multi(segments) =>
      var current := NONE;
      var length := 0.0;
      for i := 0 to |segments|
        invariant AllFound(sqrt, segments, point, i)
        invariant current == S.MinOf(Shifted(sqrt, segments, point, i))
        invariant length == Sum(Lengths(segments)[..i])
      {
        var temp := PointClosestTo(sqrt, segments[i], point);
        if temp.None? {
          return None;
        }
        ShiftedSnoc(sqrt, segments, point, i);
        current := Min(current, WithPositionShiftedBy(temp.value, length));
        var l := Length(segments[i]);
        SumStep(Lengths(segments), i);
        length := length + l;
      }
      closest := Some(current);
  }

  /** A closest point exists exactly when every edge has a positive length. */
  lemma {:induction false} ClosestFound(sqrt: SqrtFn, r: Route, point: PointCh)
    requires ValidRoute(r)
    ensures RouteClosest(sqrt, r, point).Some? <==> PositiveRoute(r)
  {
    match r
    case Single(_) =>
    case Multi(segments) =>
      forall i | 0 <= i < |segments|
        ensures RouteClosest(sqrt, segments[i], point).Some? <==> PositiveRoute(segments[i])
      {
        ClosestFound(sqrt, segments[i], point);
      }
  }

  /** The closest point lies on the route: it has a point, a position within
      [0, length] and a finite distance, the distance to that point. */
  ghost predicate OnRoute(sqrt: SqrtFn, m: RoutePoint, point: PointCh, length: real)
  {
    m.point.Some? && m.position.Some? && 0.0 <= m.position.value <= length &&
    m.distanceToReference.Finite? && m.distanceToReference.d == DistanceTo(sqrt, point, m.point.value)
  }

  lemma {:induction false} ClosestOnRoute(sqrt: SqrtFn, r: Route, point: PointCh)
    requires ValidRoute(r) && RouteClosest(sqrt, r, point).Some?
    ensures OnRoute(sqrt, RouteClosest(sqrt, r, point).value, point, RouteLength(r))
  {
    match r
    case Single(edges) =>
      S.PointClosestToIsNearest(sqrt, edges, point);
      var c := S.Candidates(sqrt, edges, point, |edges|);
      var j :| 0 <= j < |c| && S.EarliestNearest(c, j, S.MinOf(c));
    case Multi(segments) =>
      MinOfShiftedOnRoute(sqrt, segments, point);
  }

  lemma MinOfShiftedOnRoute(sqrt: SqrtFn, segments: seq<Route>, point: PointCh)
    requires |segments| > 0 && forall i | 0 <= i < |segments| :: ValidRoute(segments[i])
    requires AllFound(sqrt, segments, point, |segments|)
    ensures OnRoute(sqrt, S.MinOf(Shifted(sqrt, segments, point, |segments|)), point, Sum(Lengths(segments)))
    decreases segments
  {
    var c := Shifted(sqrt, segments, point, |segments|);
    ShiftedOnRoute(sqrt, segments, point);
    S.MinOfIsEarliestNearest(c);
    var j :| 0 <= j < |c| && S.EarliestNearest(c, j, S.MinOf(c));
  }

  /** Every shifted segment point lies within its segment's stretch of the
      whole route. */
  lemma ShiftedOnRoute(sqrt: SqrtFn, segments: seq<Route>, point: PointCh)
    requires |segments| > 0 && forall i | 0 <= i < |segments| :: ValidRoute(segments[i])
    requires AllFound(sqrt, segments, point, |segments|)
    ensures forall j | 0 <= j < |segments| :: OnRoute(sqrt, Shifted(sqrt, segments, point, |segments|)[j], point, Sum(Lengths(segments)))
  {
    var lens := Lengths(segments);
    LengthsNonNegative(segments);
    forall j | 0 <= j < |segments|
      ensures OnRoute(sqrt, Shifted(sqrt, segments, point, |segments|)[j], point, Sum(lens))
    {
      ClosestOnRoute(sqrt, segments[j], point);
      SegmentWithin(lens, j);
    }
  }

  /** Segment j's stretch [Sum(s[..j]), Sum(s[..j]) + s[j]] lies within
      [0, Sum(s)]. */
  lemma SegmentWithin(s: seq<real>, j: int)
    requires NonNegative(s) && 0 <= j < |s|
    ensures 0.0 <= Sum(s[..j]) && Sum(s[..j]) + s[j] <= Sum(s)
  {
    SumStep(s, j);
    SumMonotone(s, 0, j);
    SumMonotone(s, j + 1, |s|);
    assert s[..0] == [] && s[..|s|] == s;
  }

  /** For a multiple route the point found is the earliest of the nearest
      shifted segment points: no segment offers a nearer one, and the segments
      before it offer only farther ones. */
  lemma MultiClosestIsNearest(sqrt: SqrtFn, segments: seq<Route>, point: PointCh)
    requires |segments| > 0 && forall i | 0 <= i < |segments| :: ValidRoute(segments[i])
    requires RouteClosest(sqrt, Multi(segments), point).Some?
    ensures var c := Shifted(sqrt, segments, point, |segments|);
      RouteClosest(sqrt, Multi(segments), point) == Some(S.MinOf(c)) &&
      (forall k | 0 <= k < |c| :: c[k].distanceToReference.Finite?) &&
      exists j | 0 <= j < |c| :: S.EarliestNearest(c, j, S.MinOf(c))
  {
    ShiftedOnRoute(sqrt, segments, point);
    S.MinOfIsEarliestNearest(Shifted(sqrt, segments, point, |segments|));
  }

  // ---------------------------------------------------------------------
  // Flattened segment index

  /** The number of simple routes at the leaves of a route. */
  function LeafCount(r: Route): int
  {
    match r
    case Single(_) => 1
    case Multi(segments) => SumInt(LeafCounts(segments))
  }

  function LeafCounts(segments: seq<Route>): (counts: seq<int>)
    ensures |counts| == |segments|
  {
    seq(|segments|, i requires 0 <= i < |segments| => LeafCount(segments[i]))
  }

  function SumInt(s: seq<int>): int
  {
    if s == [] then 0 else SumInt(s[..|s| - 1]) + s[|s| - 1]
  }

  lemma SumIntStep(s: seq<int>, k: int)
    requires 0 <= k < |s|
    ensures SumInt(s[..k + 1]) == SumInt(s[..k]) + s[k]
    ensures SumInt(s[..|s|]) == SumInt(s)
  {
    assert s[..k + 1][..k] == s[..k];
    assert s[..|s|] == s;
  }

  /** indexOfSegmentAt: the index, among all leaves in order, of the simple
      route owning the position; every segment passed over adds its number of
      leaves, and the owner is asked with what remains of the clamped
      position. */
  function FlatIndex(r: Route, position: real): int
    requires ValidRoute(r)
  {
    match r
    case Single(_) => 0
    case Multi(segments) =>
      var k := Owner(segments, position);
      SumInt(LeafCounts(segments)[..k]) + FlatIndex(segments[k], Clamped(segments, position) - Sum(Lengths(segments)[..k]))
  }

  /** The flat index names a leaf: it lies in [0, LeafCount). */
  lemma {:induction false} FlatIndexInRange(r: Route, position: real)
    requires ValidRoute(r)
    ensures 0 <= FlatIndex(r, position) < LeafCount(r)
  {
    match r
    case Single(_) =>
    case Multi(segments) =>
      var k := Owner(segments, position);
      FlatIndexInRange(segments[k], Clamped(segments, position) - Sum(Lengths(segments)[..k]));
      LeafCountsPositive(segments);
      LeavesAround(LeafCounts(segments), k);
  }

  /** The leaves before segment k, then those of k, fit within all leaves. */
  lemma LeavesAround(counts: seq<int>, k: int)
    requires 0 <= k < |counts| && forall i | 0 <= i < |counts| :: counts[i] >= 1
    ensures 0 <= SumInt(counts[..k]) && SumInt(counts[..k]) + counts[k] <= SumInt(counts)
  {
    SumIntStep(counts, k);
    SumIntGrows(counts, k + 1, |counts|);
    SumIntGrows(counts, 0, k);
    assert counts[..|counts|] == counts;
    assert counts[..0] == [];
  }

  lemma {:induction false} LeafCountsPositive(segments: seq<Route>)
    requires forall i | 0 <= i < |segments| :: ValidRoute(segments[i])
    ensures forall i | 0 <= i < |segments| :: LeafCounts(segments)[i] >= 1
  {
    forall i | 0 <= i < |segments|
      ensures LeafCounts(segments)[i] >= 1
    {
      LeafCountPositive(segments[i]);
    }
  }

  /** Every valid route has at least one leaf. */
  lemma {:induction false} LeafCountPositive(r: Route)
    requires ValidRoute(r)
    ensures LeafCount(r) >= 1
  {
    match r
    case Single(_) =>
    case Multi(segments) =>
      LeafCountsPositive(segments);
      SumIntGrows(LeafCounts(segments), 0, |segments|);
      assert LeafCounts(segments)[..|segments|] == LeafCounts(segments);
      assert LeafCounts(segments)[..0] == [];
  }

  /** Prefix sums of counts of at least 1 grow by at least 1 per count. */
  lemma {:induction false} SumIntGrows(s: seq<int>, i: int, j: int)
    requires 0 <= i <= j <= |s| && forall k | 0 <= k < |s| :: s[k] >= 1
    ensures SumInt(s[..i]) + (j - i) <= SumInt(s[..j])
    decreases j - i
  {
    if i < j {
      SumIntGrows(s, i, j - 1);
      SumIntStep(s, j - 1);
    }
  }

  /** indexOfSegmentAt as written: each segment passed over adds
      indexOfSegmentAt(its length) + 1. */
  function FlatIndexAsWritten(r: Route, position: real): int
    requires ValidRoute(r)
  {
    match r
    case Single(_) => 0
    case Multi(segments) =>
      var k := Owner(segments, position);
      SumInt(seq(k, i requires 0 <= i < k => FlatIndexAsWritten(segments[i], RouteLength(segments[i])) + 1)) +
      FlatIndexAsWritten(segments[k], Clamped(segments, position) - Sum(Lengths(segments)[..k]))
  }

  /** With positive edge lengths the loop as written counts right: a segment
      of positive length puts its own length in its last leaf, so
      indexOfSegmentAt(its length) + 1 is its number of leaves. */
  lemma {:induction false} FlatIndexAsWrittenAgrees(r: Route, position: real)
    requires ValidRoute(r) && PositiveRoute(r)
    ensures FlatIndexAsWritten(r, position) == FlatIndex(r, position)
    decreases r
  {
    match r
    case Single(_) =>
    case Multi(segments) =>
      var k := Owner(segments, position);
      var passed := seq(k, i requires 0 <= i < k => FlatIndexAsWritten(segments[i], RouteLength(segments[i])) + 1);
      forall i | 0 <= i < k
        ensures passed[i] == LeafCounts(segments)[i]
      {
        FlatIndexAsWrittenAgrees(segments[i], RouteLength(segments[i]));
        FlatIndexPastEnd(segments[i], RouteLength(segments[i]));
      }
      assert passed == LeafCounts(segments)[..k];
      FlatIndexAsWrittenAgrees(segments[k], Clamped(segments, position) - Sum(Lengths(segments)[..k]));
  }

  /** With positive edge lengths, a position from the length on lies in the
      last leaf. */
  lemma {:induction false} FlatIndexPastEnd(r: Route, position: real)
    requires ValidRoute(r) && PositiveRoute(r) && position >= RouteLength(r)
    ensures FlatIndex(r, position) == LeafCount(r) - 1
    decreases r
  {
    match r
    case Single(_) =>
    case Multi(segments) =>
      var n := |segments|;
      var total := Sum(Lengths(segments));
      assert Clamped(segments, position) == total;
      OwnerAtEnd(segments, position);
      OwnerAtEnd(segments, total);
      FlatIndexPastEnd(segments[n - 1], total - Sum(Lengths(segments)[..n - 1]));
      SumIntStep(LeafCounts(segments), n - 1);
  }

  lemma FlatIndexOfOwner(segments: seq<Route>, position: real)
    requires ValidRoute(Multi(segments))
    ensures var k := Owner(segments, position);
      FlatIndex(Multi(segments), position) ==
      SumInt(LeafCounts(segments)[..k]) + FlatIndex(segments[k], Clamped(segments, position) - Sum(Lengths(segments)[..k]))
  {
  }

  /** indexOfSegmentAt: the loop over segments, adding the number of leaves of
      each segment passed over, then the owner's own index. */
  method IndexOfSegmentAt(r: Route, position: real) returns (index: int)
    requires ValidRoute(r)
    ensures index == FlatIndex(r, position)
    decreases r
  {
    match r
    case Single(_) =>
      index := 0;
    case Multi(segments) =>
      var length := Length(r);
      LengthNonNegative(r);
      var pos := Clamp(0.0, position, length);
      ghost var lens := Lengths(segments);
      ghost var owner := Owner(segments, position);
      index := 0;
      var i := 0;
      while i < |segments|
        invariant 0 <= i <= owner
        invariant OwnerIndex(lens[i..], pos) == owner - i
        invariant pos == Clamped(segments, position) - Sum(lens[..i])
        invariant pos <= Sum(lens) - Sum(lens[..i])
        invariant index == SumInt(LeafCounts(segments)[..i])
      {
        var l := Length(segments[i]);
        OwnerStep(lens, i, pos, owner);
        if l < pos {
          assert index + LeafCount(segments[i]) == SumInt(LeafCounts(segments)[..i + 1]) by {
            SumIntStep(LeafCounts(segments), i);
          }
          assert pos - l == Clamped(segments, position) - Sum(lens[..i + 1]) by {
            SumStep(lens, i);
          }
          index := index + LeafCount(segments[i]);
          pos := pos - l;
        } else {
          var inner := IndexOfSegmentAt(segments[i], pos);
          FlatIndexOfOwner(segments, position);
          index := index + inner;
          return;
        }
        i := i + 1;
      }
  }

  /** The leaves of an example: a multiple route whose first segment is itself
      a multiple route ending with a segment of length 0. */
  function ExampleEdge(length: real): (e: Edge)
    requires length >= 0.0
    ensures e.length == length
  {
    Edge(0, 1, Point(MIN_E, MIN_N), Point(MIN_E, MIN_N), length, Functions.Constant(None))
  }

  /** indexOfSegmentAt as written undercounts the leaves of a nested multiple
      route whose last segment has length 0: at position 7 of
      [[A(5), Z(0)], C(5)], inside C, the leaf index 2 of C is expected and
      1 (that of Z) is returned. */
  lemma IndexOfSegmentAtUndercounts()
    ensures var inner := Multi([Single([ExampleEdge(5.0)]), Single([ExampleEdge(0.0)])]);
      var r := Multi([inner, Single([ExampleEdge(5.0)])]);
      ValidRoute(r) && LeafCount(r) == 3 && Owner(r.segments, 7.0) == 1 &&
      FlatIndexAsWritten(r, 7.0) == 1 && FlatIndex(r, 7.0) == 2
  {
    var a, z, c := Single([ExampleEdge(5.0)]), Single([ExampleEdge(0.0)]), Single([ExampleEdge(5.0)]);
    var inner := Multi([a, z]);
    var r := Multi([inner, c]);
    assert S.TotalLength([ExampleEdge(5.0)]) == 5.0 && S.TotalLength([ExampleEdge(0.0)]) == 0.0;
    assert Lengths([a, z]) == [5.0, 0.0];
    assert Sum([5.0, 0.0]) == 5.0;
    assert Lengths([inner, c]) == [5.0, 5.0];
    assert Sum([5.0, 5.0]) == 10.0;
    assert Owner([inner, c], 7.0) == 1;
    assert Owner([a, z], 5.0) == 0;
    assert LeafCounts([a, z]) == [1, 1];
    assert SumInt([1, 1]) == 2;
    assert LeafCount(inner) == 2;
    assert LeafCounts([inner, c]) == [2, 1];
    assert SumInt([2, 1]) == 3;
    assert [5.0, 5.0][..1] == [5.0] && [2, 1][..1] == [2];
    assert FlatIndexAsWritten(inner, 5.0) == 0;
  }
}
