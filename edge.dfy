/** An edge of a route (ch.epfl.javelo.routing.Edge): its two node ids, their
    points, its length and its elevation profile. */
module Edge {
  import opened Wrappers
  import opened Math2
  import opened SwissBounds
  import opened PointCh
  import opened GraphNodes
  import opened GraphEdges
  import opened Functions
  import opened Graph

  datatype Edge = Edge(fromNodeId: int, toNodeId: int, fromPoint: PointCh, toPoint: PointCh, length: real, profile: Function)

  /** Edge.of: node ids from the arguments, points, length and profile from the
      graph. None where the graph's edgeProfile throws (a profiled edge of
      length 0). */
  function Of(g: Graph, edgeId: int, fromNodeId: int, toNodeId: int): (r: Option<Edge>)
    requires NodeOk(g, fromNodeId) && NodeOk(g, toNodeId)
    requires IsEdge(g.edges, edgeId) && ProfileReadable(g.edges, edgeId)
    ensures r.Some? <==> EdgeProfile(g, edgeId).Some?
    ensures r.Some? ==> (r.value.fromNodeId == fromNodeId && r.value.toNodeId == toNodeId
      && r.value.fromPoint == NodePoint(g, fromNodeId) && r.value.toPoint == NodePoint(g, toNodeId)
      && r.value.length == EdgeLength(g, edgeId) && r.value.profile == EdgeProfile(g, edgeId).value)
    ensures r.Some? ==> 0.0 <= r.value.length
  {
    match EdgeProfile(g, edgeId)
    case None => None
    case Some(profile) =>
      Some(Edge(fromNodeId, toNodeId, NodePoint(g, fromNodeId), NodePoint(g, toNodeId), EdgeLength(g, edgeId), profile))
  }

  /** pointAt: the point at the given fraction position / length of the way
      from fromPoint to toPoint. The PointCh constructor throws (None) outside
      the bounds, and always for an edge of length 0, where the fraction is
      NaN or infinite. */
  function PointAt(e: Edge, position: real): (r: Option<PointCh>)
    ensures e.length == 0.0 ==> r.None?
    ensures e.length != 0.0 ==>
      var x := position / e.length;
      r == Make(Interpolate(e.fromPoint.e, e.toPoint.e, x), Interpolate(e.fromPoint.n, e.toPoint.n, x))
  {
    if e.length == 0.0 then None
    else
      var percent := position / e.length;
      var eNew := (e.toPoint.e - e.fromPoint.e) * percent + e.fromPoint.e;
      var nNew := (e.toPoint.n - e.fromPoint.n) * percent + e.fromPoint.n;
      assert eNew == Interpolate(e.fromPoint.e, e.toPoint.e, percent);
      assert nNew == Interpolate(e.fromPoint.n, e.toPoint.n, percent);
      Make(eNew, nNew)
  }

  /** On an edge of positive length every position from 0 to the length gives a
      point, the start at 0 and the end at the length. */
  lemma PointAtEnds(e: Edge, position: real)
    requires e.length > 0.0
    ensures PointAt(e, 0.0) == Some(e.fromPoint)
    ensures PointAt(e, e.length) == Some(e.toPoint)
    ensures 0.0 <= position <= e.length ==> PointAt(e, position).Some?
  {
    assert 0.0 / e.length == 0.0;
    assert e.length / e.length == 1.0;
    if 0.0 <= position <= e.length {
      PointAtWithin(e, position);
    }
  }

  /** Every position on the edge gives a point within the bounds. */
  lemma PointAtWithin(e: Edge, position: real)
    requires e.length > 0.0 && 0.0 <= position <= e.length
    ensures PointAt(e, position).Some?
  {
    FractionInUnit(position, e.length);
    ContainsInterpolated(e.fromPoint.e, e.fromPoint.n, e.toPoint.e, e.toPoint.n, position / e.length);
  }

  lemma FractionInUnit(x: real, l: real)
    requires l > 0.0 && 0.0 <= x <= l
    ensures 0.0 <= x / l <= 1.0
  {
    var q := x / l;
    assert q * l == x;
    if q > 1.0 {
      LinearStrict(l, 1.0, q, l, q * l);
    }
    if q < 0.0 {
      LinearStrict(l, q, 0.0, q * l, 0.0);
    }
  }

  /** elevationAt: the profile at the position. */
  function ElevationAt(e: Edge, position: real): (r: Option<real>)
    ensures e.profile.Constant? ==> r == e.profile.y
    ensures e.profile.Sampled? ==> r.Some?
  {
    Apply(e.profile, position)
  }

  /** positionClosestTo: the signed, unclamped length of the projection of
      fromPoint -> point onto fromPoint -> toPoint; NaN (None) when the two end
      points coincide. */
  function PositionClosestTo(sqrt: SqrtFn, e: Edge, point: PointCh): Option<real>
  {
    ProjectionLength(sqrt, e.fromPoint.e, e.fromPoint.n, e.toPoint.e, e.toPoint.n, point.e, point.n)
  }

  /** With a square root exact at the squared distance between the end points,
      the start projects to 0, and the projection is NaN exactly when the end
      points coincide. */
  lemma PositionClosestToEnds(sqrt: SqrtFn, e: Edge)
    requires ExactAt(sqrt, SquaredDistanceTo(e.fromPoint, e.toPoint))
    ensures PositionClosestTo(sqrt, e, e.fromPoint).None? <==> e.fromPoint == e.toPoint
    ensures PositionClosestTo(sqrt, e, e.fromPoint).Some? ==> PositionClosestTo(sqrt, e, e.fromPoint).value == 0.0
  {
    var a, b := e.fromPoint, e.toPoint;
    ProjectionLengthEnds(sqrt, a.e, a.n, b.e, b.n);
  }
}
