/** The elevation profile of a route (ch.epfl.javelo.routing.ElevationProfile):
    evenly spaced elevation samples over a length, with their minimum,
    maximum, total ascent and total descent computed once by the constructor. */
module ElevationProfile {
  import opened Wrappers
  import opened Bits
  import Functions

  /** The immutable fields of a profile; the summary statistics keep only the
      minimum and the maximum. */
  datatype ElevationProfile = ElevationProfile(
    length: real, elevationSamples: seq<real>,
    minElevation: real, maxElevation: real, totalAscent: real, totalDescent: real)

  /** What the constructor accepts: a positive length and at least two samples
      (of a Java array, so fewer than 2^31). */
  predicate Accepts(length: real, samples: seq<real>)
  {
    length > 0.0 && 2 <= |samples| < TWO31
  }

  // ---------------------------------------------------------------------
  // Specification of the statistics

  /** The smallest sample. */
  function SeqMin(s: seq<real>): real
    requires |s| > 0
  {
    if |s| == 1 then s[0] else Min(SeqMin(s[..|s| - 1]), s[|s| - 1])
  }

  /** The largest sample. */
  function SeqMax(s: seq<real>): real
    requires |s| > 0
  {
    if |s| == 1 then s[0] else Max(SeqMax(s[..|s| - 1]), s[|s| - 1])
  }

  function Min(a: real, b: real): real { if b < a then b else a }
  function Max(a: real, b: real): real { if b > a then b else a }

  /** The sum of the positive differences of consecutive samples. */
  function Ascent(s: seq<real>): real
  {
    if |s| < 2 then 0.0
    else
      var d := s[|s| - 1] - s[|s| - 2];
      Ascent(s[..|s| - 1]) + (if d > 0.0 then d else 0.0)
  }

  /** The sum of the magnitudes of the negative differences of consecutive
      samples. */
  function Descent(s: seq<real>): real
  {
    if |s| < 2 then 0.0
    else
      var d := s[|s| - 1] - s[|s| - 2];
      Descent(s[..|s| - 1]) + (if d < 0.0 then -d else 0.0)
  }

  /** The profile the constructor builds from acceptable arguments. */
  function Profile(length: real, samples: seq<real>): (p: ElevationProfile)
    requires Accepts(length, samples)
  {
    ElevationProfile(length, samples, SeqMin(samples), SeqMax(samples), Ascent(samples), Descent(samples))
  }

  /** A profile as the constructor leaves it. */
  predicate Valid(p: ElevationProfile)
  {
    Accepts(p.length, p.elevationSamples) && p == Profile(p.length, p.elevationSamples)
  }

  // ---------------------------------------------------------------------
  // Constructor

  /** The constructor: None where checkArgument throws; otherwise the samples
      (a copy: a value here) and the statistics accumulated by two loops, one
      feeding each sample to the running minimum and maximum, the other
      adding up the rises and the falls between consecutive samples. */
  method New(length: real, elevationSamples: seq<real>) returns (p: Option<ElevationProfile>)
    ensures p.None? <==> !Accepts(length, elevationSamples)
    ensures p.Some? ==> p.value == Profile(length, elevationSamples) && Valid(p.value)
  {
    if !Accepts(length, elevationSamples) {
      return None;
    }
    var s := elevationSamples;
    // the summary statistics: no sample seen is None, i.e. +/- infinity
    var min: Option<real> := None;
    var max: Option<real> := None;
    for i := 0 to |s|
      invariant i == 0 ==> min.None? && max.None?
      invariant i > 0 ==> min == Some(SeqMin(s[..i])) && max == Some(SeqMax(s[..i]))
    {
      assert s[..i + 1][..i] == s[..i];
      min := Some(if min.None? || s[i] < min.value then s[i] else min.value);
      max := Some(if max.None? || s[i] > max.value then s[i] else max.value);
    }
    var asc := 0.0;
    var dsc := 0.0;
    for i := 0 to |s| - 1
      invariant asc == Ascent(s[..i + 1]) && dsc == Descent(s[..i + 1])
    {
      assert s[..i + 2][..i + 1] == s[..i + 1];
      if s[i + 1] - s[i] > 0.0 {
        asc := asc + (s[i + 1] - s[i]);
      }
      if s[i + 1] - s[i] < 0.0 {
        dsc := dsc - (s[i + 1] - s[i]);
      }
    }
    assert s[..|s|] == s;
    p := Some(ElevationProfile(length, s, min.value, max.value, asc, dsc));
  }

  // ---------------------------------------------------------------------
  // Accessors and what the statistics mean

  /** totalElevation: the spread between the highest and the lowest sample,
      never negative. */
  function TotalElevation(p: ElevationProfile): (r: real)
    requires Valid(p)
    ensures r >= 0.0
    ensures forall i | 0 <= i < |p.elevationSamples| ::
      p.elevationSamples[i] - p.minElevation <= r && p.maxElevation - p.elevationSamples[i] <= r
  {
    MinIsSmallest(p.elevationSamples);
    MaxIsLargest(p.elevationSamples);
    p.maxElevation - p.minElevation
  }

  /** The minimum is one of the samples and no sample is below it. */
  lemma {:induction false} MinIsSmallest(s: seq<real>)
    requires |s| > 0
    ensures forall i | 0 <= i < |s| :: SeqMin(s) <= s[i]
    ensures exists i | 0 <= i < |s| :: SeqMin(s) == s[i]
  {
    if |s| > 1 {
      var t := s[..|s| - 1];
      MinIsSmallest(t);
      var j :| 0 <= j < |t| && SeqMin(t) == t[j];
      assert forall i | 0 <= i < |t| :: t[i] == s[i];
      if SeqMin(s) != s[|s| - 1] {
        assert SeqMin(s) == s[j];
      }
    } else {
      assert SeqMin(s) == s[0];
    }
  }

  /** The maximum is one of the samples and no sample is above it. */
  lemma {:induction false} MaxIsLargest(s: seq<real>)
    requires |s| > 0
    ensures forall i | 0 <= i < |s| :: s[i] <= SeqMax(s)
    ensures exists i | 0 <= i < |s| :: SeqMax(s) == s[i]
  {
    if |s| > 1 {
      var t := s[..|s| - 1];
      MaxIsLargest(t);
      var j :| 0 <= j < |t| && SeqMax(t) == t[j];
      assert forall i | 0 <= i < |t| :: t[i] == s[i];
      if SeqMax(s) != s[|s| - 1] {
        assert SeqMax(s) == s[j];
      }
    } else {
      assert SeqMax(s) == s[0];
    }
  }

  /** Ascent and descent are never negative, and the ascent minus the descent
      is the rise from the first sample to the last. */
  lemma {:induction false} AscentMinusDescent(s: seq<real>)
    requires |s| > 0
    ensures Ascent(s) >= 0.0 && Descent(s) >= 0.0
    ensures Ascent(s) - Descent(s) == s[|s| - 1] - s[0]
  {
    if |s| > 1 {
      var t := s[..|s| - 1];
      AscentMinusDescent(t);
      assert t[0] == s[0] && t[|t| - 1] == s[|s| - 2];
    }
  }

  /** On samples that never go down there is no descent, and the ascent is
      the whole rise. */
  lemma {:induction false} NonDecreasingHasNoDescent(s: seq<real>)
    requires |s| > 0
    requires forall i | 0 < i < |s| :: s[i - 1] <= s[i]
    ensures Descent(s) == 0.0 && Ascent(s) == s[|s| - 1] - s[0]
  {
    if |s| > 1 {
      var t := s[..|s| - 1];
      assert forall i | 0 <= i < |t| :: t[i] == s[i];
      NonDecreasingHasNoDescent(t);
      AscentMinusDescent(s);
    }
  }

  /** A profile's statistics, as the constructor promises them. */
  lemma ValidStatistics(p: ElevationProfile)
    requires Valid(p)
    ensures p.minElevation <= p.maxElevation
    ensures forall i | 0 <= i < |p.elevationSamples| ::
      p.minElevation <= p.elevationSamples[i] <= p.maxElevation
    ensures p.totalAscent >= 0.0 && p.totalDescent >= 0.0
    ensures p.totalAscent - p.totalDescent ==
      p.elevationSamples[|p.elevationSamples| - 1] - p.elevationSamples[0]
  {
    MinIsSmallest(p.elevationSamples);
    MaxIsLargest(p.elevationSamples);
    AscentMinusDescent(p.elevationSamples);
  }

  /** elevationAt: the samples as a sampled function over [0, length]; the
      first sample for negative positions, the last from the length on. */
  function ElevationAt(p: ElevationProfile, position: real): (r: real)
    requires Valid(p)
    ensures position <= 0.0 ==> r == p.elevationSamples[0]
    ensures position >= p.length ==> r == p.elevationSamples[|p.elevationSamples| - 1]
    ensures p.minElevation <= r <= p.maxElevation
  {
    var f: Functions.Function := Functions.Sampled(p.elevationSamples, p.length);
    Functions.SampledClamps(f, position);
    ElevationWithinSamples(p, position);
    Functions.Apply(f, position).value
  }

  /** The interpolated elevation never leaves [minElevation, maxElevation]. */
  lemma ElevationWithinSamples(p: ElevationProfile, position: real)
    requires Valid(p)
    ensures var f: Functions.Function := Functions.Sampled(p.elevationSamples, p.length);
      p.minElevation <= Functions.Apply(f, position).value <= p.maxElevation
  {
    var s := p.elevationSamples;
    var f: Functions.Function := Functions.Sampled(s, p.length);
    ValidStatistics(p);
    Functions.SampledWithin(f, position, p.minElevation, p.maxElevation);
  }
}
