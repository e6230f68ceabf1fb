/** The rectangle of Swiss coordinates, in metres, within which JaVelo's
    points lie (ch.epfl.javelo.projection.SwissBounds). */
module SwissBounds {
  import opened Math2

  const MIN_E: real := 2485000.0
  const MAX_E: real := 2834000.0
  const MIN_N: real := 1075000.0
  const MAX_N: real := 1296000.0
  const WIDTH: real := MAX_E - MIN_E
  const HEIGHT: real := MAX_N - MIN_N

  /** containsEN: the closed rectangle [MIN_E, MAX_E] x [MIN_N, MAX_N]. */
  predicate ContainsEN(e: real, n: real)
  {
    e <= MAX_E && MIN_E <= e && n <= MAX_N && MIN_N <= n
  }

  /** The bounds span 349 km by 221 km and contain their four corners. */
  lemma BoundsShape()
    ensures WIDTH == 349000.0 && HEIGHT == 221000.0
    ensures ContainsEN(MIN_E, MIN_N) && ContainsEN(MAX_E, MAX_N)
    ensures ContainsEN(MIN_E, MAX_N) && ContainsEN(MAX_E, MIN_N)
  {
  }

  /** Any point interpolated between two points of the rectangle, with a factor
      in [0, 1], lies in the rectangle: it is convex. */
  lemma ContainsInterpolated(e0: real, n0: real, e1: real, n1: real, x: real)
    requires ContainsEN(e0, n0) && ContainsEN(e1, n1) && 0.0 <= x <= 1.0
    ensures ContainsEN(Interpolate(e0, e1, x), Interpolate(n0, n1, x))
  {
  }
}
