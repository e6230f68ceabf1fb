/** Integer and real helpers of ch.epfl.javelo.Math2. Doubles are exact reals here. */
module Math2 {
  import opened Wrappers
  import opened Bits

  /** Math.sqrt is JDK code outside this model: the square root is a parameter of
      every operation that needs it, known only to be non-negative. */
  type SqrtFn = f: real -> real | forall x :: f(x) >= 0.0 witness (x: real) => 0.0

  /** What the JDK's square root promises on exact reals. */
  ghost predicate IsExactSqrt(sqrt: SqrtFn)
  {
    forall x :: x >= 0.0 ==> sqrt(x) * sqrt(x) == x
  }

  /** The square root is exact at x. */
  ghost predicate ExactAt(sqrt: SqrtFn, x: real)
  {
    sqrt(x) * sqrt(x) == x
  }

  /** Java's `/` on ints: the quotient truncated towards zero. */
  function JavaDiv(n: Int32, d: Int32): (q: Int32)
    requires d > 0
    ensures n >= 0 ==> q * d <= n < q * d + d
    ensures n < 0 ==> q * d - d < n <= q * d
  {
    var m: int := if n >= 0 then n as int else -(n as int);
    DivNonNegative(m, d);
    if n >= 0 then m / d else -(m / d)
  }

  /** ceilDiv: `(x + y - 1) / y` in int arithmetic, for x >= 0 and y > 0;
      other arguments raise IllegalArgumentException. While x + y - 1 fits
      an int the result is the least q with q * y >= x, the ceiling of x / y;
      beyond that the sum wraps to a negative int and the result is at most
      0, too small for x. */
  function CeilDiv(x: Int32, y: Int32): (q: Int32)
    requires x >= 0 && y > 0
    ensures x + y - 1 < TWO31 ==> q >= 0 && q * y >= x && (q == 0 || (q - 1) * y < x)
    ensures x + y - 1 >= TWO31 ==> q <= 0 && q * y < x
  {
    var q := JavaDiv(Wrap(x + y - 1), y);
    CeilDivIsLeast(x, y, q);
    CeilDivWraps(x, y, q);
    q
  }

  /** Without overflow the expression is the least multiple count. */
  lemma CeilDivIsLeast(x: Int32, y: Int32, q: Int32)
    requires x >= 0 && y > 0 && q == JavaDiv(Wrap(x + y - 1), y)
    ensures x + y - 1 < TWO31 ==> q >= 0 && q * y >= x && (q == 0 || (q - 1) * y < x)
  {
    if x + y - 1 < TWO31 {
      WrapInRange(x + y - 1);
      var r := (x + y - 1) % y;
      assert x + y - 1 == q * y + r && 0 <= r < y;
      assert q * y > x - 1;
      assert (q - 1) * y == q * y - y;
    }
  }

  /** With overflow the sum wraps to x + y - 1 - 2^32 < 0, and the truncated
      quotient is 0 or negative, so q * y falls short of x. */
  lemma CeilDivWraps(x: Int32, y: Int32, q: Int32)
    requires x >= 0 && y > 0 && q == JavaDiv(Wrap(x + y - 1), y)
    ensures x + y - 1 >= TWO31 ==> q <= 0 && q * y < x
  {
    var s := x + y - 1;
    if s >= TWO31 {
      assert s % TWO32 == s by {
        DivModUnique(s, TWO32, 0, s);
      }
      assert Wrap(s) == s - TWO32 < 0;
    }
  }

  /** ceilDiv(2^31 - 1, 2) is -2^30, not 2^30: the sum 2^31 wraps to -2^31. */
  lemma CeilDivOverflowExample()
    ensures CeilDiv(0x7fff_ffff, 2) == -0x4000_0000
  {
    assert 0x8000_0000 % TWO32 == 0x8000_0000 by {
      DivModUnique(0x8000_0000, TWO32, 0, 0x8000_0000);
    }
    assert Wrap(0x8000_0000) == -0x8000_0000;
  }

  /** The Java cast (int) of a double: rounds towards zero and saturates at the
      int bounds. */
  function TruncateToInt(x: real): (r: Int32)
    ensures 0.0 <= x < 2147483647.0 ==> r as real <= x < r as real + 1.0
    ensures -2147483648.0 < x <= 0.0 ==> r as real - 1.0 < x <= r as real
    ensures x >= 2147483647.0 ==> r == 0x7fff_ffff
    ensures x <= -2147483648.0 ==> r == -0x8000_0000
  {
    if x >= 2147483647.0 then 0x7fff_ffff
    else if x <= -2147483648.0 then -0x8000_0000
    else if x >= 0.0 then x.Floor
    else -((-x).Floor)
  }

  /** The cast preserves order. */
  lemma TruncateMonotone(a: real, b: real)
    requires a <= b
    ensures TruncateToInt(a) <= TruncateToInt(b)
  {
  }

  /** clamp over ints: min <= max is required (IllegalArgumentException otherwise);
      the result lies in [min, max], is v itself inside the interval and the nearer
      bound outside it. */
  function ClampInt(min: int, v: int, max: int): (r: int)
    requires min <= max
    ensures min <= r <= max
    ensures min <= v <= max ==> r == v
    ensures v < min ==> r == min
    ensures v > max ==> r == max
  {
    if min <= v && v <= max then v else if v < min then min else max
  }

  /** clamp over doubles, with the same contract as the int version. */
  function Clamp(min: real, v: real, max: real): (r: real)
    requires min <= max
    ensures min <= r <= max
    ensures min <= v <= max ==> r == v
    ensures v < min ==> r == min
    ensures v > max ==> r == max
  {
    if min <= v && v <= max then v else if v < min then min else max
  }

  /** Clamping twice is clamping once. */
  lemma ClampIdempotent(min: real, v: real, max: real)
    requires min <= max
    ensures Clamp(min, Clamp(min, v, max), max) == Clamp(min, v, max)
  {
  }

  /** interpolate: the line through (0, y0) and (1, y1) evaluated at x
      (Math.fma is exact on reals). */
  function Interpolate(y0: real, y1: real, x: real): (r: real)
    ensures x == 0.0 ==> r == y0
    ensures x == 1.0 ==> r == y1
    ensures 0.0 <= x <= 1.0 && y0 <= y1 ==> y0 <= r <= y1
    ensures 0.0 <= x <= 1.0 && y1 <= y0 ==> y1 <= r <= y0
  {
    var r := (y1 - y0) * x + y0;
    InterpolateBetween(y0, y1, x, r);
    r
  }

  lemma InterpolateBetween(y0: real, y1: real, x: real, r: real)
    requires r == (y1 - y0) * x + y0
    ensures 0.0 <= x <= 1.0 && y0 <= y1 ==> y0 <= r <= y1
    ensures 0.0 <= x <= 1.0 && y1 <= y0 ==> y1 <= r <= y0
  {
    if 0.0 <= x <= 1.0 {
      if y0 <= y1 {
        MulBounds(y1 - y0, x);
      } else {
        MulBounds(y0 - y1, x);
        assert (y1 - y0) * x == -((y0 - y1) * x);
      }
    }
  }

  /** 0 <= d * x <= d for d >= 0 and x in [0, 1]. */
  lemma MulBounds(d: real, x: real)
    requires d >= 0.0 && 0.0 <= x <= 1.0
    ensures 0.0 <= d * x <= d
  {
    assert d * x <= d * 1.0 by { assert d * (1.0 - x) >= 0.0; }
  }

  /** Between two interpolation parameters the interpolated value moves strictly
      towards y1 when y0 != y1. */
  lemma InterpolateStrictlyMonotone(y0: real, y1: real, x: real, x': real)
    requires x < x'
    ensures y0 < y1 ==> Interpolate(y0, y1, x) < Interpolate(y0, y1, x')
    ensures y1 < y0 ==> Interpolate(y0, y1, x) > Interpolate(y0, y1, x')
  {
    LinearStrict(y1 - y0, x, x', Interpolate(y0, y1, x) - y0, Interpolate(y0, y1, x') - y0);
  }

  lemma LinearStrict(k: real, x: real, x': real, a: real, b: real)
    requires x < x' && a == k * x && b == k * x'
    ensures k > 0.0 ==> a < b
    ensures k < 0.0 ==> a > b
  {
    var d := x' - x;
    assert b == a + k * d;
    if k > 0.0 {
      assert k * d > 0.0;
    } else if k < 0.0 {
      assert (-k) * d > 0.0;
      assert k * d == -((-k) * d);
    }
  }

  /** dotProduct of the vectors (uX, uY) and (vX, vY). */
  function DotProduct(uX: real, uY: real, vX: real, vY: real): real
  {
    uX * vX + uY * vY
  }

  lemma DotProductSymmetric(uX: real, uY: real, vX: real, vY: real)
    ensures DotProduct(uX, uY, vX, vY) == DotProduct(vX, vY, uX, uY)
  {
  }

  /** squaredNorm: the dot product of a vector with itself; never negative, zero
      for the zero vector and at least the square of each component. */
  function SquaredNorm(uX: real, uY: real): (r: real)
    ensures r >= 0.0
    ensures uX == 0.0 && uY == 0.0 ==> r == 0.0
    ensures r >= uX * uX && r >= uY * uY
  {
    SquareNonNegative(uX);
    SquareNonNegative(uY);
    DotProduct(uX, uY, uX, uY)
  }

  lemma SquareNonNegative(u: real)
    ensures u * u >= 0.0
  {
    if u < 0.0 {
      var v := -u;
      assert v * v >= 0.0;
      assert u * u == v * v;
    }
  }

  /** The squared norm vanishes only at the zero vector. */
  lemma SquaredNormZeroOnlyAtOrigin(uX: real, uY: real)
    requires SquaredNorm(uX, uY) == 0.0
    ensures uX == 0.0 && uY == 0.0
  {
    var pX, pY := uX * uX, uY * uY;
    SquareNonNegative(uX);
    SquareNonNegative(uY);
    if uX != 0.0 {
      SquarePositive(uX, pX);
    }
    if uY != 0.0 {
      SquarePositive(uY, pY);
    }
  }

  lemma SquarePositive(u: real, p: real)
    requires u != 0.0 && p == u * u
    ensures p > 0.0
  {
    if u > 0.0 {
      LinearStrict(u, 0.0, u, 0.0, p);
    } else {
      LinearStrict(u, u, 0.0, p, 0.0);
    }
  }

  /** norm: the square root of the squared norm. */
  function Norm(sqrt: SqrtFn, uX: real, uY: real): (r: real)
    ensures r >= 0.0
  {
    sqrt(SquaredNorm(uX, uY))
  }

  /** With an exact square root, the norm squares back to the squared norm. */
  lemma NormSquared(sqrt: SqrtFn, uX: real, uY: real)
    requires IsExactSqrt(sqrt)
    ensures Norm(sqrt, uX, uY) * Norm(sqrt, uX, uY) == SquaredNorm(uX, uY)
  {
  }

  /** projectionLength: the signed length of the projection of A->P onto A->B,
      i.e. their dot product divided by |A->B|. When that norm is 0 the division
      is 0/0 (A == B makes the dot product 0 too), NaN in Java: None here. */
  function ProjectionLength(sqrt: SqrtFn, aX: real, aY: real, bX: real, bY: real, pX: real, pY: real): (r: Option<real>)
    ensures r.Some? <==> Norm(sqrt, bX - aX, bY - aY) != 0.0
  {
    var d := Norm(sqrt, bX - aX, bY - aY);
    if d == 0.0 then None else Some(DotProduct(pX - aX, pY - aY, bX - aX, bY - aY) / d)
  }

  /** The projection length times |A->B| is the dot product of A->P and A->B. */
  lemma ProjectionTimesNorm(sqrt: SqrtFn, aX: real, aY: real, bX: real, bY: real, pX: real, pY: real)
    ensures var r := ProjectionLength(sqrt, aX, aY, bX, bY, pX, pY);
      r.Some? ==> r.value * Norm(sqrt, bX - aX, bY - aY) == DotProduct(pX - aX, pY - aY, bX - aX, bY - aY)
  {
    var d := Norm(sqrt, bX - aX, bY - aY);
    if d != 0.0 {
      DivTimesBack(DotProduct(pX - aX, pY - aY, bX - aX, bY - aY), d);
    }
  }

  lemma DivTimesBack(x: real, d: real)
    requires d != 0.0
    ensures (x / d) * d == x
  {
  }

  /** With a square root exact at |A->B|^2 the projection is undefined exactly
      when A == B;
      A itself projects to 0 and B to the length |A->B|. */
  lemma ProjectionLengthEnds(sqrt: SqrtFn, aX: real, aY: real, bX: real, bY: real)
    requires ExactAt(sqrt, SquaredNorm(bX - aX, bY - aY))
    ensures ProjectionLength(sqrt, aX, aY, bX, bY, aX, aY).None? <==> aX == bX && aY == bY
    ensures ProjectionLength(sqrt, aX, aY, bX, bY, aX, aY).Some? ==>
      ProjectionLength(sqrt, aX, aY, bX, bY, aX, aY).value == 0.0
    ensures ProjectionLength(sqrt, aX, aY, bX, bY, bX, bY).Some? ==>
      ProjectionLength(sqrt, aX, aY, bX, bY, bX, bY).value == Norm(sqrt, bX - aX, bY - aY)
  {
    var d := Norm(sqrt, bX - aX, bY - aY);
    if d == 0.0 {
      SquaredNormZeroOnlyAtOrigin(bX - aX, bY - aY);
    } else {
      var s := SquaredNorm(bX - aX, bY - aY);
      assert DotProduct(bX - aX, bY - aY, bX - aX, bY - aY) == s;
      SquareOverRoot(s, d);
    }
  }

  lemma SquareOverRoot(s: real, d: real)
    requires d != 0.0 && d * d == s
    ensures s / d == d
  {
  }
}
