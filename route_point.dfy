/** The point of a route closest to a reference point
    (ch.epfl.javelo.routing.RoutePoint): the point, its position along the
    route and its distance to the reference. */
module RoutePoint {
  import opened Wrappers
  import opened PointCh

  /** A distance that may be +infinity (the distance of NONE). */
  datatype Distance = Finite(d: real) | Infinite

  /** `a <= b` on doubles, +infinity included. */
  predicate AtMost(a: Distance, b: Distance)
  {
    b.Infinite? || (a.Finite? && a.d <= b.d)
  }

  /** A null point is None, a NaN position is None. */
  datatype RoutePoint = RoutePoint(point: Option<PointCh>, position: Option<real>, distanceToReference: Distance)

  /** NONE: no point, a NaN position and an infinite distance. */
  const NONE: RoutePoint := RoutePoint(None, None, Infinite)

  /** withPositionShiftedBy: the position moved by the difference (NaN stays
      NaN), the point and the distance kept. */
  function WithPositionShiftedBy(p: RoutePoint, positionDifference: real): (r: RoutePoint)
    ensures r.point == p.point && r.distanceToReference == p.distanceToReference
    ensures p.position.None? <==> r.position.None?
    ensures p.position.Some? ==> r.position.value - p.position.value == positionDifference
  {
    match p.position
    case None => p
    case Some(position) => RoutePoint(p.point, Some(position + positionDifference), p.distanceToReference)
  }

  /** Two shifts make one shift by their sum, and a shift by 0 changes nothing. */
  lemma ShiftsAdd(p: RoutePoint, a: real, b: real)
    ensures WithPositionShiftedBy(WithPositionShiftedBy(p, a), b) == WithPositionShiftedBy(p, a + b)
    ensures WithPositionShiftedBy(p, 0.0) == p
  {
  }

  /** min(that): this point unless that one is strictly closer; ties keep this. */
  function Min(p: RoutePoint, that: RoutePoint): (r: RoutePoint)
    ensures r == p || r == that
    ensures r == p <==> AtMost(p.distanceToReference, that.distanceToReference) || p == that
    ensures AtMost(r.distanceToReference, p.distanceToReference) && AtMost(r.distanceToReference, that.distanceToReference)
  {
    if AtMost(p.distanceToReference, that.distanceToReference) then p else that
  }

  /** min(point, position, distance): this point unless the described one is
      strictly closer, in which case a new point is built from the arguments. */
  function MinWith(p: RoutePoint, thatPoint: Option<PointCh>, thatPosition: Option<real>, thatDistance: Distance): (r: RoutePoint)
    ensures var that := RoutePoint(thatPoint, thatPosition, thatDistance);
      r == Min(p, that)
  {
    if AtMost(p.distanceToReference, thatDistance) then p else RoutePoint(thatPoint, thatPosition, thatDistance)
  }

  /** NONE is the identity of min on points at a finite distance, from both
      sides, and anything at a finite distance beats it. */
  lemma NoneMinIdentity(x: RoutePoint)
    requires x.distanceToReference.Finite?
    ensures Min(NONE, x) == x
    ensures Min(x, NONE) == x
  {
  }

  /** min is associative: folding it over a list does not depend on grouping. */
  lemma MinAssociative(a: RoutePoint, b: RoutePoint, c: RoutePoint)
    ensures Min(Min(a, b), c) == Min(a, Min(b, c))
  {
  }

  /** The order on distances is total and transitive. */
  lemma AtMostTotal(a: Distance, b: Distance, c: Distance)
    ensures AtMost(a, b) || AtMost(b, a)
    ensures AtMost(a, b) && AtMost(b, c) ==> AtMost(a, c)
    ensures AtMost(a, a)
  {
  }
}
