/** The real functions of ch.epfl.javelo.Functions: a constant, and the linear
    interpolation of evenly spaced samples. A NaN value is None. */
module Functions {
  import opened Wrappers
  import opened Bits
  import opened Math2

  /** A DoubleUnaryOperator built by `constant` or `sampled`. */
  datatype Func =
    | Constant(y: Option<real>)
    | Sampled(samples: seq<real>, xMax: real)

  /** `sampled` refuses fewer than two samples and a non-positive xMax; a Java
      array holds fewer than 2^31 elements. */
  predicate ValidFunc(f: Func)
  {
    f.Sampled? ==> 1 < |f.samples| < TWO31 && f.xMax > 0.0
  }

  type Function = f: Func | ValidFunc(f) witness Constant(None)

  /** Distance between two consecutive samples. */
  function Gap(samples: seq<real>, xMax: real): (gap: real)
    requires 1 < |samples| && xMax > 0.0
    ensures gap > 0.0
  {
    xMax / (|samples| - 1) as real
  }

  /** Sampled.applyAsDouble: clamp the argument to [0, xMax], find the sample
      interval holding it and interpolate between its two ends; xMax itself
      gives the last sample. */
  function ApplySampled(samples: seq<real>, xMax: real, operand: real): real
    requires 1 < |samples| < TWO31 && xMax > 0.0
  {
    var x := Clamp(0.0, operand, xMax);
    var gap := Gap(samples, xMax);
    var start := TruncateToInt(x / gap);
    var moduloX := x * (1.0 / gap) - start as real;
    if x == xMax then samples[|samples| - 1]
    else
      StartInRange(samples, xMax, x, gap, start);
      Interpolate(samples[start], samples[start + 1], moduloX)
  }

  /** Below xMax the interval index is a valid left end. */
  lemma StartInRange(samples: seq<real>, xMax: real, x: real, gap: real, start: int)
    requires 1 < |samples| < TWO31 && xMax > 0.0 && 0.0 <= x < xMax
    requires gap == Gap(samples, xMax) && start == TruncateToInt(x / gap)
    ensures 0 <= start < |samples| - 1
  {
    var n1 := (|samples| - 1) as real;
    assert gap * n1 == xMax;
    QuotientBelow(x, gap, n1);
  }

  /** x < gap * m with gap > 0 gives 0 <= x / gap < m for x >= 0. */
  lemma QuotientBelow(x: real, gap: real, m: real)
    requires gap > 0.0 && 0.0 <= x < gap * m
    ensures 0.0 <= x / gap < m
  {
    var q := x / gap;
    assert q * gap == x;
    if q < 0.0 {
      LinearStrict(gap, q, 0.0, q * gap, 0.0);
    }
    if q >= m {
      if q > m {
        LinearStrict(gap, m, q, m * gap, q * gap);
      }
    }
  }

  /** applyAsDouble of either kind; the constant ignores its argument. */
  function Apply(f: Function, x: real): Option<real>
  {
    match f
    case Constant(y) => y
    case Sampled(samples, xMax) => Some(ApplySampled(samples, xMax, x))
  }

  /** `constant(y)` returns y for every argument. */
  lemma ConstantEverywhere(y: Option<real>, x: real, x': real)
    ensures Apply(Constant(y), x) == y
    ensures Apply(Constant(y), x) == Apply(Constant(y), x')
  {
  }

  /** Arguments are clamped: below 0 the first sample, from xMax on the last. */
  lemma SampledClamps(f: Function, x: real)
    requires f.Sampled?
    ensures x <= 0.0 ==> Apply(f, x) == Some(f.samples[0])
    ensures x >= f.xMax ==> Apply(f, x) == Some(f.samples[|f.samples| - 1])
  {
    if x <= 0.0 {
      var gap := Gap(f.samples, f.xMax);
      assert 0.0 / gap == 0.0;
    }
  }

  /** Where x / gap lies in [k, k + 1], i.e. on the k-th interval between
      sample points, the function is the linear interpolation of samples k and
      k + 1 at the fractional part x / gap - k, so it stays between them. */
  lemma SampledBetween(f: Function, k: int, x: real)
    requires f.Sampled? && 0 <= k < |f.samples| - 1
    requires k as real <= x / Gap(f.samples, f.xMax) <= (k + 1) as real
    ensures Apply(f, x) == Some(Interpolate(f.samples[k], f.samples[k + 1], x / Gap(f.samples, f.xMax) - k as real))
    ensures x / Gap(f.samples, f.xMax) == k as real ==> Apply(f, x) == Some(f.samples[k])
    ensures f.samples[k] <= f.samples[k + 1] ==> f.samples[k] <= Apply(f, x).value <= f.samples[k + 1]
    ensures f.samples[k + 1] <= f.samples[k] ==> f.samples[k + 1] <= Apply(f, x).value <= f.samples[k]
  {
    var samples, xMax := f.samples, f.xMax;
    var gap := Gap(samples, xMax);
    var n1 := (|samples| - 1) as real;
    var q := x / gap;
    QuotientRange(x, gap, xMax, n1, (k + 1) as real);
    if x == xMax {
      assert q - k as real == 1.0;
      SampledClamps(f, x);
    } else if q < (k + 1) as real {
      ApplyInside(samples, xMax, x, k);
    } else {
      ApplyInside(samples, xMax, x, k + 1);
    }
  }

  /** Samples all within [lo, hi] make a function that stays within it. */
  lemma SampledWithin(f: Function, x: real, lo: real, hi: real)
    requires f.Sampled? && forall i | 0 <= i < |f.samples| :: lo <= f.samples[i] <= hi
    ensures lo <= Apply(f, x).value <= hi
  {
    var c := Clamp(0.0, x, f.xMax);
    ApplyClamped(f, x);
    if c < f.xMax {
      var k := IntervalOf(f.samples, f.xMax, c);
      SampledBetween(f, k, c);
    }
  }

  /** The function only sees its argument clamped to [0, xMax]. */
  lemma ApplyClamped(f: Function, x: real)
    requires f.Sampled?
    ensures Apply(f, x) == Apply(f, Clamp(0.0, x, f.xMax))
  {
  }

  /** Below xMax an argument lies on the k-th interval between sample points
      for some valid left end k. */
  lemma IntervalOf(samples: seq<real>, xMax: real, x: real) returns (k: int)
    requires 1 < |samples| < TWO31 && xMax > 0.0 && 0.0 <= x < xMax
    ensures 0 <= k < |samples| - 1
    ensures k as real <= x / Gap(samples, xMax) <= (k + 1) as real
  {
    var gap := Gap(samples, xMax);
    var n1 := (|samples| - 1) as real;
    assert gap * n1 == xMax;
    QuotientBelow(x, gap, n1);
    k := TruncateToInt(x / gap);
    StartInRange(samples, xMax, x, gap, k);
  }

  /** With gap = xMax / n1 and 0 <= x / gap <= m <= n1, x lies in [0, xMax]
      and equals xMax exactly when x / gap == n1. */
  lemma QuotientRange(x: real, gap: real, xMax: real, n1: real, m: real)
    requires gap > 0.0 && n1 > 0.0 && gap == xMax / n1 && 0.0 <= x / gap <= m <= n1
    ensures 0.0 <= x <= xMax
    ensures x == xMax <==> x / gap == n1
  {
    var q := x / gap;
    assert q * gap == x;
    assert n1 * gap == xMax;
    MulRealLe(0.0, gap, q);
    MulRealLe(q, gap, n1);
    if x == xMax {
      DivideUnique(x, gap, q, n1);
    }
  }

  /** Below xMax, with i the truncated quotient x / gap, the value is the
      interpolation between samples i and i + 1 at the fractional part. */
  lemma ApplyInside(samples: seq<real>, xMax: real, x: real, i: int)
    requires 1 < |samples| < TWO31 && xMax > 0.0 && 0.0 <= x < xMax
    requires i as real <= x / Gap(samples, xMax) < (i + 1) as real
    ensures 0 <= i < |samples| - 1
    ensures ApplySampled(samples, xMax, x) == Interpolate(samples[i], samples[i + 1], x / Gap(samples, xMax) - i as real)
  {
    var gap := Gap(samples, xMax);
    var n1 := (|samples| - 1) as real;
    assert gap * n1 == xMax;
    QuotientBelow(x, gap, n1);
    assert TruncateToInt(x / gap) == i;
    MulInverse(x, gap);
  }

  /** Multiplying by the inverse is dividing (Math.fma is exact on reals). */
  lemma MulInverse(x: real, gap: real)
    requires gap > 0.0
    ensures x * (1.0 / gap) == x / gap
  {
    var r := 1.0 / gap;
    assert r * gap == 1.0;
    assert (x * r) * gap == x * (r * gap);
    assert (x / gap) * gap == x;
    DivideUnique(x, gap, x * r, x / gap);
  }

  /** Sample k is reached at k * gap. */
  lemma SampledAtSamplePoints(f: Function, k: int)
    requires f.Sampled? && 0 <= k < |f.samples|
    ensures Apply(f, k as real * Gap(f.samples, f.xMax)) == Some(f.samples[k])
  {
    if k < |f.samples| - 1 {
      SampledAtInnerPoint(f, k);
    } else {
      GapTimesCount(f.samples, f.xMax);
      SampledClamps(f, k as real * Gap(f.samples, f.xMax));
    }
  }

  lemma SampledAtInnerPoint(f: Function, k: int)
    requires f.Sampled? && 0 <= k < |f.samples| - 1
    ensures Apply(f, k as real * Gap(f.samples, f.xMax)) == Some(f.samples[k])
  {
    QuotientOfMultiple(k as real, Gap(f.samples, f.xMax));
    SampledBetween(f, k, k as real * Gap(f.samples, f.xMax));
  }

  /** The n - 1 gaps add up to xMax. */
  lemma GapTimesCount(samples: seq<real>, xMax: real)
    requires 1 < |samples| && xMax > 0.0
    ensures (|samples| - 1) as real * Gap(samples, xMax) == xMax
  {
  }

  lemma QuotientOfMultiple(k: real, gap: real)
    requires gap > 0.0
    ensures (k * gap) / gap == k
  {
    var x := k * gap;
    assert (x / gap) * gap == x;
    DivideUnique(x, gap, x / gap, k);
  }

  /** a * c <= b * c for a <= b and c > 0 (all names for products kept apart
      from the solver's nonlinear reasoning). */
  lemma MulRealLe(a: real, c: real, b: real)
    requires a <= b && c > 0.0
    ensures a * c <= b * c
  {
    assert b * c - a * c == (b - a) * c;
  }

  /** 0 <= d <= gap gives a parameter t = d / gap in [0, 1]. */
  lemma UnitParameter(d: real, gap: real, t: real)
    requires gap > 0.0 && t * gap == d
    ensures 0.0 <= d <= gap ==> 0.0 <= t <= 1.0
  {
    if 0.0 <= d <= gap {
      if t < 0.0 {
        LinearStrict(gap, t, 0.0, t * gap, 0.0);
      }
      if t > 1.0 {
        LinearStrict(gap, 1.0, t, gap, t * gap);
      }
    }
  }

  /** Division by a positive number has a unique result. */
  lemma DivideUnique(x: real, gap: real, q: real, q': real)
    requires gap > 0.0 && q * gap == x && q' * gap == x
    ensures q == q'
  {
    if q < q' {
      LinearStrict(gap, q, q', q * gap, q' * gap);
    } else if q' < q {
      LinearStrict(gap, q', q, q' * gap, q * gap);
    }
  }
}
