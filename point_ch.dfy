/** A point in the Swiss coordinate system (ch.epfl.javelo.projection.PointCh):
    east and north coordinates in metres, always within SwissBounds. */
module PointCh {
  import opened Wrappers
  import opened Math2
  import opened SwissBounds

  datatype Point = Point(e: real, n: real)

  /** The record's compact constructor rejects points outside the bounds, so
      every PointCh value satisfies ContainsEN. */
  type PointCh = p: Point | ContainsEN(p.e, p.n) witness Point(MIN_E, MIN_N)

  /** new PointCh(e, n): None stands for the IllegalArgumentException thrown
      outside the bounds. */
  function Make(e: real, n: real): (r: Option<PointCh>)
    ensures r.Some? <==> ContainsEN(e, n)
    ensures r.Some? ==> r.value.e == e && r.value.n == n
  {
    if ContainsEN(e, n) then Some(Point(e, n)) else None
  }

  /** squaredDistanceTo: the squared norm of the vector from p to that. */
  function SquaredDistanceTo(p: PointCh, that: PointCh): (r: real)
    ensures r >= 0.0
    ensures p == that ==> r == 0.0
  {
    SquaredNorm(that.e - p.e, that.n - p.n)
  }

  /** distanceTo: the norm of the vector from p to that. */
  function DistanceTo(sqrt: SqrtFn, p: PointCh, that: PointCh): (r: real)
    ensures r >= 0.0
  {
    Norm(sqrt, that.e - p.e, that.n - p.n)
  }

  /** The squared distance does not depend on the direction. */
  lemma SquaredDistanceSymmetric(p: PointCh, q: PointCh)
    ensures SquaredDistanceTo(p, q) == SquaredDistanceTo(q, p)
  {
    NegatedSquare(q.e - p.e);
    NegatedSquare(q.n - p.n);
    assert p.e - q.e == -(q.e - p.e) && p.n - q.n == -(q.n - p.n);
  }

  lemma NegatedSquare(x: real)
    ensures (-x) * (-x) == x * x
  {
  }

  /** The distance is symmetric, and with an exact square root it squares to the
      squared distance. */
  lemma DistanceToSquared(sqrt: SqrtFn, p: PointCh, q: PointCh)
    requires IsExactSqrt(sqrt)
    ensures DistanceTo(sqrt, p, q) * DistanceTo(sqrt, p, q) == SquaredDistanceTo(p, q)
    ensures DistanceTo(sqrt, p, q) == DistanceTo(sqrt, q, p)
  {
    NormSquared(sqrt, q.e - p.e, q.n - p.n);
    SquaredDistanceSymmetric(p, q);
  }
}
