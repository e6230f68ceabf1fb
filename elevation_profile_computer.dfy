/** The elevation profile of a route
    (ch.epfl.javelo.routing.ElevationProfileComputer): the route's elevation
    sampled at evenly spaced positions, NaN samples (None here) repaired. A
    leading run of NaN takes the first known sample, a trailing run the last
    one, an interior run the linear interpolation between its two known
    neighbours, and a route without any known sample is flat at 0. */
module ElevationProfileComputer {
  import opened Wrappers
  import opened Math2
  import opened Bits
  import Functions
  import R = Routes
  import EP = ElevationProfile

  // ---------------------------------------------------------------------
  // Sampling

  /** Math.ceil on a (non-NaN) double. */
  function Ceil(x: real): (c: int)
    ensures x <= c as real < x + 1.0
  {
    if x.Floor as real == x then x.Floor else x.Floor + 1
  }

  /** nbSamples: one sample more than the number of steps of at most
      maxStepLength that cover the length. */
  function SampleCount(length: real, maxStepLength: real): int
    requires maxStepLength > 0.0
  {
    Ceil(length / maxStepLength) + 1
  }

  /** A positive length gives at least two samples, and their spacing is
      positive and never more than maxStepLength. */
  lemma SpacingAtMost(length: real, maxStepLength: real)
    requires length > 0.0 && maxStepLength > 0.0
    ensures SampleCount(length, maxStepLength) >= 2
    ensures 0.0 < length / (SampleCount(length, maxStepLength) - 1) as real <= maxStepLength
  {
    var q := length / maxStepLength;
    assert q * maxStepLength == length;
    if q <= 0.0 {
      Functions.MulRealLe(q, maxStepLength, 0.0);
    }
    assert q > 0.0;
    var n := SampleCount(length, maxStepLength);
    var c := (n - 1) as real;
    assert c >= q && c >= 1.0;
    var g := length / c;
    assert g * c == length;
    Functions.MulRealLe(q, maxStepLength, c);
    assert length <= c * maxStepLength;
    if g > maxStepLength {
      LinearStrict(c, maxStepLength, g, c * maxStepLength, c * g);
    }
    if g <= 0.0 {
      Functions.MulRealLe(g, c, 0.0);
    }
  }

  /** The position of sample i, i * gap. */
  function SamplePosition(i: int, gap: real): real
  {
    i as real * gap
  }

  /** The raw samples: the elevation at i * gap, NaN as None. */
  function Samples(elevationAt: real -> Option<real>, nbSamples: nat, gap: real): (s: seq<Option<real>>)
    ensures |s| == nbSamples
  {
    seq(nbSamples, i requires 0 <= i < nbSamples => elevationAt(SamplePosition(i, gap)))
  }

  /** The elevation along a route, as a function of the position. */
  function RouteElevation(route: R.Route): real -> Option<real>
    requires R.ValidRoute(route)
  {
    x => R.RouteElevationAt(route, x)
  }

  /** The indexes of the NaN samples, in increasing order: nanIndex as the
      sampling loop leaves it. */
  function NanIndexes(s: seq<Option<real>>): (n: seq<int>)
    ensures |n| <= |s| && forall t | 0 <= t < |n| :: 0 <= n[t] < |s|
  {
    if s == [] then [] else NanIndexes(s[..|s| - 1]) + (if s[|s| - 1].None? then [|s| - 1] else [])
  }

  /** The list holds exactly the NaN indexes, each once and in increasing
      order; it is as long as the samples exactly when all are NaN. */
  lemma {:induction false} NanIndexesSpec(s: seq<Option<real>>)
    ensures var n := NanIndexes(s);
      && |n| <= |s|
      && (forall t | 0 <= t < |n| :: 0 <= n[t] < |s| && s[n[t]].None?)
      && (forall t, u | 0 <= t < u < |n| :: n[t] < n[u])
      && (|n| == |s| <==> forall k | 0 <= k < |s| :: s[k].None?)
  {
    if s != [] {
      var t := s[..|s| - 1];
      NanIndexesSpec(t);
      assert forall k | 0 <= k < |t| :: t[k] == s[k];
    }
  }

  /** Every NaN index is in the list. */
  lemma {:induction false} NanIndexesComplete(s: seq<Option<real>>)
    ensures forall k | 0 <= k < |s| && s[k].None? :: k in NanIndexes(s)
  {
    if s != [] {
      var t := s[..|s| - 1];
      NanIndexesComplete(t);
      assert forall k | 0 <= k < |t| :: t[k] == s[k];
    }
  }

  /** n lists the NaN indexes of s: each listed index is a NaN sample, the
      list is increasing, and it holds every NaN index. */
  ghost predicate NanList(s: seq<Option<real>>, n: seq<int>)
  {
    && (forall t | 0 <= t < |n| :: 0 <= n[t] < |s| && s[n[t]].None?)
    && (forall t, u | 0 <= t < u < |n| :: n[t] < n[u])
    && (set t | 0 <= t < |n| :: n[t]) == (set k | 0 <= k < |s| && s[k].None?)
  }

  /** nanIndex, as the sampling loop builds it, is such a list. */
  lemma NanIndexesList(s: seq<Option<real>>)
    ensures NanList(s, NanIndexes(s))
  {
    var n := NanIndexes(s);
    NanIndexesSpec(s);
    NanIndexesComplete(s);
    var listed := set t | 0 <= t < |n| :: n[t];
    var nan := set k | 0 <= k < |s| && s[k].None?;
    forall x | x in nan
      ensures x in listed
    {
      var t :| 0 <= t < |n| && n[t] == x;
    }
    assert listed == nan;
  }

  /** Between two consecutive NaN indexes (or before the first, or after the
      last) every sample is known. */
  lemma KnownBetween(s: seq<Option<real>>, n: seq<int>, t: int, k: int)
    requires NanList(s, n)
    requires 0 <= k < |s| && -1 <= t < |n|
    requires t >= 0 ==> n[t] < k
    requires t + 1 < |n| ==> k < n[t + 1]
    ensures s[k].Some?
  {
    var nan := set k' | 0 <= k' < |s| && s[k'].None?;
    assert s[k].None? ==> k in nan;
  }

  /** The samples after Arrays.fill(a, from, to, v): v in [from, to), the
      rest unchanged. */
  function Filled(s: seq<Option<real>>, from: int, to: int, v: Option<real>): (r: seq<Option<real>>)
    ensures |r| == |s|
  {
    seq(|s|, k requires 0 <= k < |s| => if from <= k < to then v else s[k])
  }

  /** Arrays.fill(a, from, to, v). */
  method Fill(a: array<Option<real>>, from: int, to: int, v: Option<real>)
    requires 0 <= from <= to <= a.Length
    modifies a
    ensures a[..] == Filled(old(a[..]), from, to, v)
  {
    for k := from to to
      invariant forall j | 0 <= j < a.Length :: a[j] == if from <= j < k then v else old(a[j])
    {
      a[k] := v;
    }
  }

  /** The sampling loop: sample i is the elevation at i * gap, and every NaN
      index is appended to nanIndex. */
  method Sample(elevationAt: real -> Option<real>, nbSamples: nat, gap: real) returns (samples: array<Option<real>>, nanIndex: seq<int>)
    ensures fresh(samples)
    ensures samples[..] == Samples(elevationAt, nbSamples, gap)
    ensures nanIndex == NanIndexes(samples[..])
  {
    samples := new Option<real>[nbSamples](_ => Some(0.0));
    nanIndex := [];
    ghost var want := Samples(elevationAt, nbSamples, gap);
    for i := 0 to nbSamples
      invariant samples[..i] == want[..i]
      invariant nanIndex == NanIndexes(want[..i])
    {
      var y := elevationAt(i as real * gap);
      assert SamplePosition(i, gap) == i as real * gap;
      samples[i] := y;
      assert want[..i + 1] == want[..i] + [y];
      NanIndexesSnoc(want[..i], y);
      if y.None? {
        nanIndex := nanIndex + [i];
      }
    }
    assert samples[..] == samples[..nbSamples];
    assert want == want[..nbSamples];
  }

  lemma NanIndexesSnoc(s: seq<Option<real>>, y: Option<real>)
    ensures NanIndexes(s + [y]) == NanIndexes(s) + (if y.None? then [|s|] else [])
  {
    assert (s + [y])[..|s|] == s;
  }

  // ---------------------------------------------------------------------
  // What the repair computes

  /** The first known sample at or after i, or |s| if there is none. */
  function NextKnown(s: seq<Option<real>>, i: int): (j: int)
    requires 0 <= i <= |s|
    ensures i <= j <= |s| && (j < |s| ==> s[j].Some?)
    ensures forall k | i <= k < j :: s[k].None?
    decreases |s| - i
  {
    if i == |s| then |s| else if s[i].Some? then i else NextKnown(s, i + 1)
  }

  /** The last known sample at or before i, or -1 if there is none. */
  function PrevKnown(s: seq<Option<real>>, i: int): (j: int)
    requires -1 <= i < |s|
    ensures -1 <= j <= i && (j >= 0 ==> s[j].Some?)
    ensures forall k | j < k <= i :: s[k].None?
    decreases i + 1
  {
    if i == -1 then -1 else if s[i].Some? then i else PrevKnown(s, i - 1)
  }

  /** Sample i after the repair: known samples are kept; a NaN between two
      known samples a and b is interpolated at (i - a) / (b - a); one with
      known samples on one side only takes the nearest of them; one with no
      known sample at all is 0. */
  function RepairedAt(s: seq<Option<real>>, i: int): real
    requires 0 <= i < |s|
  {
    if s[i].Some? then s[i].value
    else
      var a := PrevKnown(s, i);
      var b := NextKnown(s, i);
      if a < 0 && b == |s| then 0.0
      else if a < 0 then s[b].value
      else if b == |s| then s[a].value
      else Interpolate(s[a].value, s[b].value, (i - a) as real / (b - a) as real)
  }

  function Repaired(s: seq<Option<real>>): (r: seq<real>)
    ensures |r| == |s|
    ensures forall i | 0 <= i < |s| && s[i].Some? :: r[i] == s[i].value
  {
    seq(|s|, i requires 0 <= i < |s| => RepairedAt(s, i))
  }

  /** The doubles of samples none of which is NaN. */
  function Values(s: seq<Option<real>>): (r: seq<real>)
    requires forall i | 0 <= i < |s| :: s[i].Some?
    ensures |r| == |s| && forall i | 0 <= i < |s| :: s[i] == Some(r[i])
  {
    seq(|s|, i requires 0 <= i < |s| => s[i].value)
  }

  /** Without NaN the samples are returned unchanged. */
  lemma NoNanUnchanged(s: seq<Option<real>>)
    requires forall i | 0 <= i < |s| :: s[i].Some?
    ensures Repaired(s) == Values(s)
  {
  }

  /** Without any known sample every sample becomes 0. */
  lemma AllNanIsFlat(s: seq<Option<real>>)
    requires forall i | 0 <= i < |s| :: s[i].None?
    ensures forall i | 0 <= i < |s| :: Repaired(s)[i] == 0.0
  {
    forall i | 0 <= i < |s|
      ensures Repaired(s)[i] == 0.0
    {
      var a, b := PrevKnown(s, i), NextKnown(s, i);
    }
  }

  /** A leading run of NaN takes the first known sample. */
  lemma LeadingTakesFirstKnown(s: seq<Option<real>>, first: int, i: int)
    requires 0 <= first < |s| && s[first].Some?
    requires forall k | 0 <= k < first :: s[k].None?
    requires 0 <= i <= first
    ensures Repaired(s)[i] == s[first].value
  {
    if i < first {
      var a, b := PrevKnown(s, i), NextKnown(s, i);
      assert b == first;
    }
  }

  /** A trailing run of NaN takes the last known sample. */
  lemma TrailingTakesLastKnown(s: seq<Option<real>>, last: int, i: int)
    requires 0 <= last < |s| && s[last].Some?
    requires forall k | last < k < |s| :: s[k].None?
    requires last <= i < |s|
    ensures Repaired(s)[i] == s[last].value
  {
    if i > last {
      var a, b := PrevKnown(s, i), NextKnown(s, i);
      assert a == last;
    }
  }

  /** A repaired NaN with known samples on both sides lies between them:
      interpolation never overshoots. */
  lemma InteriorBetweenNeighbours(s: seq<Option<real>>, i: int)
    requires 0 <= i < |s| && s[i].None?
    requires PrevKnown(s, i) >= 0 && NextKnown(s, i) < |s|
    ensures var y0, y1 := s[PrevKnown(s, i)].value, s[NextKnown(s, i)].value;
      (y0 <= y1 ==> y0 <= Repaired(s)[i] <= y1) && (y1 <= y0 ==> y1 <= Repaired(s)[i] <= y0)
  {
    var a, b := PrevKnown(s, i), NextKnown(s, i);
    assert a < i < b;
    Fraction(a, i, b);
    assert Repaired(s)[i] == Interpolate(s[a].value, s[b].value, (i - a) as real / (b - a) as real);
  }

  /** The interpolation parameter of a NaN between its neighbours is in [0, 1]. */
  lemma Fraction(a: int, i: int, b: int)
    requires a < i < b
    ensures 0.0 <= (i - a) as real / (b - a) as real <= 1.0
  {
    var d := (b - a) as real;
    var t := (i - a) as real / d;
    DivTimes((i - a) as real, d);
    Functions.UnitParameter((i - a) as real, d, t);
  }

  lemma DivTimes(x: real, d: real)
    requires d > 0.0
    ensures (x / d) * d == x
  {
  }

  /** Once repaired nothing is NaN, so repairing again changes nothing. */
  lemma RepairIdempotent(s: seq<Option<real>>)
    ensures var r := Repaired(s);
      Repaired(seq(|r|, i requires 0 <= i < |r| => Some(r[i]))) == r
  {
  }

  // ---------------------------------------------------------------------
  // The repair, step by step. orig is the array as sampled, n its NaN list;
  // the list still to repair is always a slice n[lo..hi] of it.

  /** The samples with the NaN in [n[lo], n[hi - 1]] still pending and every
      other sample repaired. */
  ghost function PartlyRepaired(orig: seq<Option<real>>, n: seq<int>, lo: int, hi: int): (r: seq<Option<real>>)
    requires 0 <= lo <= hi <= |n|
    ensures |r| == |orig|
  {
    seq(|orig|, k requires 0 <= k < |orig| =>
      if lo < hi && n[lo] <= k <= n[hi - 1] then orig[k] else Some(RepairedAt(orig, k)))
  }

  /** The repair's progress: the array is orig with n[lo..hi] still pending. */
  ghost predicate Repairing(orig: seq<Option<real>>, n: seq<int>, cur: seq<Option<real>>, lo: int, hi: int)
  {
    0 <= lo <= hi <= |n| && cur == PartlyRepaired(orig, n, lo, hi)
  }

  /** The first pending NaN has a known predecessor. */
  ghost predicate KnownBefore(orig: seq<Option<real>>, n: seq<int>, lo: int, hi: int)
    requires 0 <= lo <= hi <= |n|
  {
    lo < hi ==> 0 < n[lo] <= |orig| && orig[n[lo] - 1].Some?
  }

  /** The first pending NaN has a known predecessor and the last a known
      successor. */
  ghost predicate Bracketed(orig: seq<Option<real>>, n: seq<int>, lo: int, hi: int)
    requires 0 <= lo <= hi <= |n|
  {
    KnownBefore(orig, n, lo, hi) && (lo < hi ==> 0 <= n[hi - 1] + 1 < |orig| && orig[n[hi - 1] + 1].Some?)
  }

  /** Known samples are never changed by the repair. */
  lemma KnownKept(orig: seq<Option<real>>, n: seq<int>, cur: seq<Option<real>>, lo: int, hi: int, k: int)
    requires Repairing(orig, n, cur, lo, hi) && 0 <= k < |orig| && orig[k].Some?
    ensures cur[k] == orig[k]
  {
  }

  // The leading run

  /** The leading run: while the list starts with consecutive indexes from 0
      remove them, then fill that run with the first known sample. */
  method RepairLeading(samples: array<Option<real>>, nanIndex: seq<int>) returns (rest: seq<int>, ghost lo: int)
    requires NanList(samples[..], nanIndex) && 0 < |nanIndex| < samples.Length
    modifies samples
    ensures Repairing(old(samples[..]), nanIndex, samples[..], lo, |nanIndex|) && rest == nanIndex[lo..]
    ensures KnownBefore(old(samples[..]), nanIndex, lo, |nanIndex|)
  {
    ghost var orig := samples[..];
    ghost var n := nanIndex;
    rest := nanIndex;
    lo := 0;
    if rest[0] == 0 {
      var temp;
      rest, temp := RemoveLeadingRun(rest);
      lo := |n| - |rest|;
      LeadingRunEnds(orig, n, lo);
      Fill(samples, 0, temp + 1, samples[temp + 1]);
      LeadingRepaired(orig, n, samples[..], lo);
    } else {
      UntouchedRepairing(orig, n);
    }
  }

  /** The leading do-while on the list alone: removes the first index and,
      while the new first index is one more than the one removed, that one
      too. */
  method RemoveLeadingRun(nanIndex: seq<int>) returns (rest: seq<int>, temp: int)
    requires nanIndex != []
    ensures |rest| < |nanIndex| && rest == nanIndex[|nanIndex| - |rest|..]
    ensures temp == nanIndex[|nanIndex| - |rest| - 1]
    ensures forall t | 0 <= t < |nanIndex| - |rest| :: nanIndex[t] == nanIndex[0] + t
    ensures rest != [] ==> rest[0] != temp + 1
  {
    temp := nanIndex[0];
    rest := nanIndex[1..];
    while rest != [] && rest[0] == temp + 1
      invariant |rest| < |nanIndex| && rest == nanIndex[|nanIndex| - |rest|..]
      invariant temp == nanIndex[|nanIndex| - |rest| - 1]
      invariant forall t | 0 <= t < |nanIndex| - |rest| :: nanIndex[t] == nanIndex[0] + t
      decreases |rest|
    {
      temp := rest[0];
      rest := rest[1..];
    }
  }

  /** The leading run [0, lo) ends before a known sample, the first one. */
  lemma LeadingRunEnds(orig: seq<Option<real>>, n: seq<int>, lo: int)
    requires NanList(orig, n) && 0 < lo <= |n| < |orig|
    requires forall t | 0 <= t < lo :: n[t] == t
    requires lo < |n| ==> n[lo] != lo
    ensures orig[lo].Some? && (lo < |n| ==> lo < n[lo])
    ensures forall j | 0 <= j < lo :: orig[j].None?
  {
    if lo < |n| {
      assert n[lo - 1] < n[lo];
    }
    KnownBetween(orig, n, lo - 1, lo);
    forall j | 0 <= j < lo
      ensures orig[j].None?
    {
      assert n[j] == j;
    }
  }

  /** After the leading fill the list n[lo..] is what remains to repair. */
  lemma LeadingRepaired(orig: seq<Option<real>>, n: seq<int>, cur: seq<Option<real>>, lo: int)
    requires NanList(orig, n) && 0 < lo <= |n| && lo < |orig| && orig[lo].Some? && n[lo - 1] == lo - 1
    requires lo < |n| ==> lo < n[lo]
    requires forall j | 0 <= j < lo :: orig[j].None?
    requires cur == Filled(orig, 0, lo, orig[lo])
    ensures Repairing(orig, n, cur, lo, |n|) && KnownBefore(orig, n, lo, |n|)
  {
    forall k | 0 <= k < |orig|
      ensures cur[k] == PartlyRepaired(orig, n, lo, |n|)[k]
    {
      LeadingRepairedAt(orig, n, lo, k);
    }
    if lo < |n| && n[lo] - 1 > lo {
      KnownBetween(orig, n, lo - 1, n[lo] - 1);
    }
  }

  lemma LeadingRepairedAt(orig: seq<Option<real>>, n: seq<int>, lo: int, k: int)
    requires NanList(orig, n) && 0 < lo <= |n| && lo < |orig| && orig[lo].Some? && n[lo - 1] == lo - 1
    requires lo < |n| ==> lo < n[lo]
    requires forall j | 0 <= j < lo :: orig[j].None?
    requires 0 <= k < |orig|
    ensures Filled(orig, 0, lo, orig[lo])[k] == PartlyRepaired(orig, n, lo, |n|)[k]
  {
    if k < lo {
      LeadingTakesFirstKnown(orig, lo, k);
    } else if !(lo < |n| && n[lo] <= k <= n[|n| - 1]) {
      if lo < |n| && k > n[|n| - 1] {
        KnownBetween(orig, n, |n| - 1, k);
      } else {
        KnownBetween(orig, n, lo - 1, k);
      }
    }
  }

  /** Without a leading run, the whole list is pending. */
  lemma UntouchedRepairing(orig: seq<Option<real>>, n: seq<int>)
    requires NanList(orig, n) && 0 < |n| && n[0] != 0
    ensures Repairing(orig, n, orig, 0, |n|) && KnownBefore(orig, n, 0, |n|)
  {
    forall k | 0 <= k < |orig|
      ensures orig[k] == PartlyRepaired(orig, n, 0, |n|)[k]
    {
      if k < n[0] {
        KnownBetween(orig, n, -1, k);
      } else if k > n[|n| - 1] {
        KnownBetween(orig, n, |n| - 1, k);
      }
    }
    KnownBetween(orig, n, -1, n[0] - 1);
  }

  // The trailing run

  /** The trailing run: while the list ends with consecutive indexes up to the
      last sample remove them, then fill that run with the last known
      sample. */
  method RepairTrailing(samples: array<Option<real>>, ghost orig: seq<Option<real>>, ghost n: seq<int>,
                        nanIndex: seq<int>, ghost lo: int)
    returns (rest: seq<int>, ghost hi: int)
    requires NanList(orig, n) && |n| < |orig|
    requires Repairing(orig, n, samples[..], lo, |n|) && KnownBefore(orig, n, lo, |n|)
    requires nanIndex == n[lo..]
    modifies samples
    ensures lo <= hi && Repairing(orig, n, samples[..], lo, hi) && rest == n[lo..hi]
    ensures Bracketed(orig, n, lo, hi)
  {
    rest := nanIndex;
    hi := |n|;
    if rest != [] && rest[|rest| - 1] == samples.Length - 1 {
      var temp;
      rest, temp := RemoveTrailingRun(rest);
      hi := lo + |rest|;
      TrailingRunInList(n, lo, rest, temp);
      TrailingRunStarts(orig, n, lo, hi);
      KnownKept(orig, n, samples[..], lo, |n|, temp - 1);
      ghost var before := samples[..];
      Fill(samples, temp, samples.Length, samples[temp - 1]);
      TrailingRepaired(orig, n, samples[..], lo, hi);
    } else {
      NoTrailingRun(orig, n, lo);
    }
  }

  /** The trailing do-while on the list alone: removes the last index and,
      while the new last index is one less than the one removed, that one
      too. */
  method RemoveTrailingRun(nanIndex: seq<int>) returns (rest: seq<int>, temp: int)
    requires nanIndex != []
    ensures |rest| < |nanIndex| && rest == nanIndex[..|rest|] && temp == nanIndex[|rest|]
    ensures forall t | |rest| <= t < |nanIndex| :: nanIndex[t] == temp + (t - |rest|)
    ensures rest != [] ==> rest[|rest| - 1] != temp - 1
  {
    temp := nanIndex[|nanIndex| - 1];
    rest := nanIndex[..|nanIndex| - 1];
    while rest != [] && rest[|rest| - 1] == temp - 1
      invariant |rest| < |nanIndex| && rest == nanIndex[..|rest|] && temp == nanIndex[|rest|]
      invariant forall t | |rest| <= t < |nanIndex| :: nanIndex[t] == temp + (t - |rest|)
      decreases |rest|
    {
      temp := rest[|rest| - 1];
      rest := rest[..|rest| - 1];
    }
  }

  /** What RemoveTrailingRun says of the pending list n[lo..], said of n. */
  lemma TrailingRunInList(n: seq<int>, lo: int, rest: seq<int>, temp: int)
    requires 0 <= lo <= |n| && |rest| < |n| - lo
    requires rest == n[lo..][..|rest|] && temp == n[lo..][|rest|]
    requires forall t | |rest| <= t < |n| - lo :: n[lo..][t] == temp + (t - |rest|)
    ensures rest == n[lo..lo + |rest|] && temp == n[lo + |rest|]
    ensures forall t | lo + |rest| <= t < |n| :: n[t] == temp + (t - (lo + |rest|))
  {
    assert forall t | lo + |rest| <= t < |n| :: n[t] == n[lo..][t - lo];
  }

  /** The trailing run [n[hi], |orig|) starts after a known sample, the last
      one. */
  lemma TrailingRunStarts(orig: seq<Option<real>>, n: seq<int>, lo: int, hi: int)
    requires NanList(orig, n) && 0 <= lo <= hi < |n| < |orig| && KnownBefore(orig, n, lo, |n|)
    requires lo < hi ==> n[hi - 1] != n[hi] - 1
    requires forall t | hi <= t < |n| :: n[t] == n[hi] + (t - hi)
    requires n[|n| - 1] == |orig| - 1
    ensures 0 < n[hi] && orig[n[hi] - 1].Some?
    ensures lo < hi ==> n[hi - 1] < n[hi] - 1
    ensures forall j | n[hi] <= j < |orig| :: orig[j].None?
  {
    forall j | n[hi] <= j < |orig|
      ensures orig[j].None?
    {
      assert n[hi + (j - n[hi])] == j;
    }
    if lo < hi {
      assert n[lo] <= n[hi - 1] < n[hi];
      KnownBetween(orig, n, hi - 1, n[hi] - 1);
    }
  }

  /** After the trailing fill the list n[lo..hi] is what remains to repair. */
  lemma TrailingRepaired(orig: seq<Option<real>>, n: seq<int>, cur: seq<Option<real>>, lo: int, hi: int)
    requires NanList(orig, n) && 0 <= lo <= hi < |n| && KnownBefore(orig, n, lo, |n|)
    requires 0 < n[hi] && orig[n[hi] - 1].Some?
    requires lo < hi ==> n[hi - 1] < n[hi] - 1
    requires forall j | n[hi] <= j < |orig| :: orig[j].None?
    requires cur == Filled(PartlyRepaired(orig, n, lo, |n|), n[hi], |orig|, orig[n[hi] - 1])
    ensures Repairing(orig, n, cur, lo, hi) && Bracketed(orig, n, lo, hi)
  {
    forall k | 0 <= k < |orig|
      ensures cur[k] == PartlyRepaired(orig, n, lo, hi)[k]
    {
      TrailingRepairedAt(orig, n, lo, hi, k);
    }
    if lo < hi {
      KnownBetween(orig, n, hi - 1, n[hi - 1] + 1);
    }
  }

  lemma TrailingRepairedAt(orig: seq<Option<real>>, n: seq<int>, lo: int, hi: int, k: int)
    requires NanList(orig, n) && 0 <= lo <= hi < |n|
    requires 0 < n[hi] && orig[n[hi] - 1].Some?
    requires lo < hi ==> n[hi - 1] < n[hi] - 1
    requires forall j | n[hi] <= j < |orig| :: orig[j].None?
    requires 0 <= k < |orig|
    ensures Filled(PartlyRepaired(orig, n, lo, |n|), n[hi], |orig|, orig[n[hi] - 1])[k] == PartlyRepaired(orig, n, lo, hi)[k]
  {
    if k >= n[hi] {
      TrailingTakesLastKnown(orig, n[hi] - 1, k);
    } else if !(lo < hi && n[lo] <= k <= n[hi - 1]) && n[lo] <= k {
      KnownBetween(orig, n, hi - 1, k);
    }
  }

  /** Without a trailing run the last pending NaN has a known successor. */
  lemma NoTrailingRun(orig: seq<Option<real>>, n: seq<int>, lo: int)
    requires NanList(orig, n) && 0 <= lo <= |n| && KnownBefore(orig, n, lo, |n|)
    requires lo < |n| ==> n[|n| - 1] != |orig| - 1
    ensures Bracketed(orig, n, lo, |n|)
  {
    if lo < |n| {
      KnownBetween(orig, n, |n| - 1, n[|n| - 1] + 1);
    }
  }

  // The interior runs

  /** The interior runs, one at a time, until the list is empty. */
  method RepairInterior(samples: array<Option<real>>, ghost orig: seq<Option<real>>, ghost n: seq<int>,
                        nanIndex: seq<int>, ghost lo: int, ghost hi: int)
    requires NanList(orig, n) && Repairing(orig, n, samples[..], lo, hi) && Bracketed(orig, n, lo, hi)
    requires nanIndex == n[lo..hi]
    modifies samples
    ensures Repairing(orig, n, samples[..], hi, hi)
  {
    var rest := nanIndex;
    ghost var l := lo;
    while rest != []
      invariant Repairing(orig, n, samples[..], l, hi) && Bracketed(orig, n, l, hi)
      invariant rest == n[l..hi]
      decreases |rest|
    {
      rest, l := RepairRun(samples, orig, n, rest, l, hi);
    }
  }

  /** One interior run: from the first pending index i, take the consecutive
      indexes up to id, then fill (i - 1, id + 1) with the interpolation
      between its two known ends. */
  method RepairRun(samples: array<Option<real>>, ghost orig: seq<Option<real>>, ghost n: seq<int>,
                   nanIndex: seq<int>, ghost lo: int, ghost hi: int)
    returns (rest: seq<int>, ghost lo': int)
    requires NanList(orig, n) && lo < hi && Repairing(orig, n, samples[..], lo, hi) && Bracketed(orig, n, lo, hi)
    requires nanIndex == n[lo..hi]
    modifies samples
    ensures lo < lo' <= hi && rest == n[lo'..hi]
    ensures Repairing(orig, n, samples[..], lo', hi) && Bracketed(orig, n, lo', hi)
  {
    ghost var before := samples[..];
    var start := nanIndex[0] - 1;
    var run, id, nbGap := TakeRun(nanIndex);
    RunBounds(orig, n, before, lo, hi, run, start, nbGap);
    InterpolateRun(samples, start, id + 1, nbGap);
    rest := run[1..];
    lo' := hi - |run| + 1;
    RunStep(orig, n, before, samples[..], lo, hi, run, lo', start, nbGap);
  }

  /** The samples y0 before the run and y1 after it, and the run interpolated
      between them. */
  method InterpolateRun(samples: array<Option<real>>, start: int, end: int, nbGap: int)
    requires 0 <= start && 0 < nbGap && end == start + nbGap && end < samples.Length
    requires samples[start].Some? && samples[start + nbGap].Some?
    modifies samples
    ensures samples[..] ==
      Interpolated(old(samples[..]), start, nbGap, old(samples[start]).value, old(samples[start + nbGap]).value)
  {
    var y0 := samples[start].value;
    var y1 := samples[end].value;
    FillInterpolated(samples, start, nbGap, y0, y1);
  }

  /** What TakeRun found at the head of the pending list n[lo..hi]: run is
      what is left once the consecutive indexes before its first element are
      dropped, start the sample before them and start + nbGap the sample after
      run[0]. */
  ghost predicate RunTaken(n: seq<int>, lo: int, hi: int, run: seq<int>, start: int, nbGap: int)
    requires 0 <= lo < hi <= |n|
  {
    && 0 < |run| <= |n[lo..hi]| && run == n[lo..hi][|n[lo..hi]| - |run|..]
    && start == n[lo..hi][0] - 1 && nbGap == run[0] - n[lo..hi][0] + 2
    && (forall t | 0 <= t <= |n[lo..hi]| - |run| :: n[lo..hi][t] == n[lo..hi][0] + t)
    && (|run| > 1 ==> run[1] != run[0] + 1)
  }

  /** The samples bracketing the run TakeRun found are inside the array and
      known. */
  lemma RunBounds(orig: seq<Option<real>>, n: seq<int>, before: seq<Option<real>>, lo: int, hi: int,
                  run: seq<int>, start: int, nbGap: int)
    requires NanList(orig, n) && lo < hi && Repairing(orig, n, before, lo, hi) && Bracketed(orig, n, lo, hi)
    requires 0 < |run| <= |n[lo..hi]| && run == n[lo..hi][|n[lo..hi]| - |run|..]
    requires start == n[lo..hi][0] - 1 && nbGap == run[0] - n[lo..hi][0] + 2
    requires forall t | 0 <= t <= |n[lo..hi]| - |run| :: n[lo..hi][t] == n[lo..hi][0] + t
    requires |run| > 1 ==> run[1] != run[0] + 1
    ensures RunTaken(n, lo, hi, run, start, nbGap)
    ensures 0 <= start && 0 < nbGap && start + nbGap < |before|
    ensures before[start].Some? && before[start + nbGap].Some?
  {
    RunFacts(orig, n, before, lo, hi, run);
  }

  /** One interior run interpolated: the repair has advanced past it. */
  lemma RunStep(orig: seq<Option<real>>, n: seq<int>, before: seq<Option<real>>, cur: seq<Option<real>>,
                lo: int, hi: int, run: seq<int>, lo': int, start: int, nbGap: int)
    requires NanList(orig, n) && lo < hi && Repairing(orig, n, before, lo, hi) && Bracketed(orig, n, lo, hi)
    requires RunTaken(n, lo, hi, run, start, nbGap) && 0 <= start && 0 < nbGap && start + nbGap < |before|
    requires before[start].Some? && before[start + nbGap].Some?
    requires cur == Interpolated(before, start, nbGap, before[start].value, before[start + nbGap].value)
    requires lo' == hi - |run| + 1
    ensures lo < lo' <= hi && run[1..] == n[lo'..hi]
    ensures Repairing(orig, n, cur, lo', hi) && Bracketed(orig, n, lo', hi)
  {
    RunFacts(orig, n, before, lo, hi, run);
    RunRepaired(orig, n, before, cur, lo, lo' - 1, hi, start, nbGap, before[start].value, before[start + nbGap].value);
  }

  /** The inner loop of the interior phase on the list alone: while the
      second index follows the current end id of the run, drop the first.
      nbGap counts the gaps from the sample before the run to the one after
      it. */
  method TakeRun(nanIndex: seq<int>) returns (rest: seq<int>, id: int, nbGap: int)
    requires nanIndex != []
    ensures 0 < |rest| <= |nanIndex| && rest == nanIndex[|nanIndex| - |rest|..]
    ensures id == rest[0] && nbGap == id - nanIndex[0] + 2
    ensures forall t | 0 <= t <= |nanIndex| - |rest| :: nanIndex[t] == nanIndex[0] + t
    ensures |rest| > 1 ==> rest[1] != id + 1
  {
    rest := nanIndex;
    id := nanIndex[0];
    nbGap := 2;
    if |rest| > 1 {
      while rest[1] == id + 1
        invariant 1 < |rest| <= |nanIndex| && rest == nanIndex[|nanIndex| - |rest|..]
        invariant id == rest[0] && nbGap == id - nanIndex[0] + 2
        invariant forall t | 0 <= t <= |nanIndex| - |rest| :: nanIndex[t] == nanIndex[0] + t
        decreases |rest|
      {
        id := id + 1;
        nbGap := nbGap + 1;
        rest := rest[1..];
        if |rest| == 1 {
          break;
        }
      }
    }
  }

  /** What the run TakeRun finds in the pending list n[lo..hi] is: a run
      n[lo..lo'] of consecutive NaN between two known samples. */
  lemma RunFacts(orig: seq<Option<real>>, n: seq<int>, before: seq<Option<real>>, lo: int, hi: int, rest: seq<int>)
    requires NanList(orig, n) && lo < hi && Repairing(orig, n, before, lo, hi) && Bracketed(orig, n, lo, hi)
    requires 0 < |rest| <= hi - lo && rest == n[lo..hi][hi - lo - |rest|..]
    requires forall t | 0 <= t <= hi - lo - |rest| :: n[lo..hi][t] == n[lo..hi][0] + t
    requires |rest| > 1 ==> rest[1] != rest[0] + 1
    ensures var lo' := hi - |rest|;
      && rest == n[lo'..hi] && rest[0] == n[lo'] && n[lo..hi][0] == n[lo]
      && 0 < n[lo] && orig[n[lo] - 1].Some? && before[n[lo] - 1] == orig[n[lo] - 1]
      && n[lo'] + 1 < |orig| && orig[n[lo'] + 1].Some? && before[n[lo'] + 1] == orig[n[lo'] + 1]
      && (forall j | n[lo] <= j <= n[lo'] :: orig[j].None?)
      && (lo' + 1 < hi ==> n[lo'] + 1 < n[lo' + 1])
  {
    var lo' := hi - |rest|;
    RunInList(n, lo, hi, rest);
    RunEnds(orig, n, lo, lo', hi);
    KnownKept(orig, n, before, lo, hi, n[lo] - 1);
    KnownKept(orig, n, before, lo, hi, n[lo'] + 1);
  }

  /** What TakeRun says of the pending list n[lo..hi], said of n. */
  lemma RunInList(n: seq<int>, lo: int, hi: int, rest: seq<int>)
    requires 0 <= lo < hi <= |n| && 0 < |rest| <= hi - lo
    requires rest == n[lo..hi][hi - lo - |rest|..]
    requires forall t | 0 <= t <= hi - lo - |rest| :: n[lo..hi][t] == n[lo..hi][0] + t
    ensures rest == n[hi - |rest|..hi] && rest[0] == n[hi - |rest|]
    ensures forall t | lo <= t <= hi - |rest| :: n[t] == n[lo] + (t - lo)
  {
    assert forall t | lo <= t <= hi - |rest| :: n[t] == n[lo..hi][t - lo];
  }

  /** A run n[lo..lo'] of consecutive NaN indexes ends before a known
      sample. */
  lemma RunEnds(orig: seq<Option<real>>, n: seq<int>, lo: int, lo': int, hi: int)
    requires NanList(orig, n) && 0 <= lo <= lo' < hi <= |n|
    requires forall t | lo <= t <= lo' :: n[t] == n[lo] + (t - lo)
    requires 0 <= n[hi - 1] + 1 < |orig| && orig[n[hi - 1] + 1].Some?
    requires lo' + 1 < hi ==> n[lo' + 1] != n[lo'] + 1
    ensures n[lo'] + 1 < |orig| && orig[n[lo'] + 1].Some?
    ensures lo' + 1 < hi ==> n[lo'] + 1 < n[lo' + 1]
    ensures forall j | n[lo] <= j <= n[lo'] :: orig[j].None?
  {
    if lo' + 1 < hi {
      assert n[lo'] < n[lo' + 1];
      KnownBetween(orig, n, lo', n[lo'] + 1);
    }
    forall j | n[lo] <= j <= n[lo']
      ensures orig[j].None?
    {
      assert n[lo + (j - n[lo])] == j;
    }
  }

  /** The filling loop of the interior phase: samples start + 1 to
      start + nbGap - 1 take the interpolation between y0 and y1 at
      j / nbGap. */
  method FillInterpolated(samples: array<Option<real>>, start: int, nbGap: int, y0: real, y1: real)
    requires 0 <= start && 0 < nbGap && start + nbGap <= samples.Length
    modifies samples
    ensures samples[..] == Interpolated(old(samples[..]), start, nbGap, y0, y1)
  {
    for j := 1 to nbGap
      invariant forall k | 0 <= k < samples.Length ::
        samples[k] == if start < k < start + j then Some(Interpolate(y0, y1, (k - start) as real / nbGap as real)) else old(samples[k])
    {
      samples[start + j] := Some(Interpolate(y0, y1, j as real / nbGap as real));
    }
  }

  /** The samples after the filling loop of one interior run. */
  function Interpolated(s: seq<Option<real>>, start: int, nbGap: int, y0: real, y1: real): (r: seq<Option<real>>)
    requires 0 < nbGap
    ensures |r| == |s|
  {
    seq(|s|, k requires 0 <= k < |s| =>
      if start < k < start + nbGap then Some(Interpolate(y0, y1, (k - start) as real / nbGap as real)) else s[k])
  }

  /** After the run n[lo..last] is interpolated, n[last + 1..hi] is what
      remains to repair. */
  lemma RunRepaired(orig: seq<Option<real>>, n: seq<int>, before: seq<Option<real>>, cur: seq<Option<real>>,
                    lo: int, last: int, hi: int, start: int, nbGap: int, y0: real, y1: real)
    requires NanList(orig, n) && 0 <= lo <= last < hi <= |n| && Bracketed(orig, n, lo, hi)
    requires n[last] + 1 < |orig| && orig[n[last] + 1].Some?
    requires forall j | n[lo] <= j <= n[last] :: orig[j].None?
    requires last + 1 < hi ==> n[last] + 1 < n[last + 1]
    requires start == n[lo] - 1 && nbGap == n[last] + 1 - start
    requires y0 == orig[start].value && y1 == orig[n[last] + 1].value
    requires before == PartlyRepaired(orig, n, lo, hi)
    requires cur == Interpolated(before, start, nbGap, y0, y1)
    ensures Repairing(orig, n, cur, last + 1, hi) && Bracketed(orig, n, last + 1, hi)
  {
    forall k | 0 <= k < |orig|
      ensures cur[k] == PartlyRepaired(orig, n, last + 1, hi)[k]
    {
      RunRepairedAt(orig, n, lo, last, hi, k);
    }
    RunBracketed(orig, n, lo, last, hi);
  }

  lemma RunRepairedAt(orig: seq<Option<real>>, n: seq<int>, lo: int, last: int, hi: int, k: int)
    requires NanList(orig, n) && 0 <= lo <= last < hi <= |n| && Bracketed(orig, n, lo, hi)
    requires n[last] + 1 < |orig| && orig[n[last] + 1].Some?
    requires forall j | n[lo] <= j <= n[last] :: orig[j].None?
    requires last + 1 < hi ==> n[last] + 1 < n[last + 1]
    requires 0 <= k < |orig|
    ensures var start, end := n[lo] - 1, n[last] + 1;
      Interpolated(PartlyRepaired(orig, n, lo, hi), start, end - start, orig[start].value, orig[end].value)[k] ==
      PartlyRepaired(orig, n, last + 1, hi)[k]
  {
    var start, end := n[lo] - 1, n[last] + 1;
    if start < k < end {
      var a, b := PrevKnown(orig, k), NextKnown(orig, k);
      assert a == start && b == end;
      assert !(last + 1 < hi && n[last + 1] <= k);
    } else if k <= start {
      assert !(last + 1 < hi && n[last + 1] <= k);
    } else if last + 1 < hi && k < n[last + 1] {
      KnownBetween(orig, n, last, k);
    } else if last + 1 == hi {
      assert n[hi - 1] < k;
    }
  }

  /** After a run the next pending NaN still has a known predecessor. */
  lemma RunBracketed(orig: seq<Option<real>>, n: seq<int>, lo: int, last: int, hi: int)
    requires NanList(orig, n) && 0 <= lo <= last < hi <= |n| && Bracketed(orig, n, lo, hi)
    requires n[last] + 1 < |orig| && orig[n[last] + 1].Some?
    requires last + 1 < hi ==> n[last] + 1 < n[last + 1]
    ensures Bracketed(orig, n, last + 1, hi)
  {
    if last + 1 < hi && n[last + 1] - 1 > n[last] + 1 {
      KnownBetween(orig, n, last, n[last + 1] - 1);
    }
  }

  // ---------------------------------------------------------------------
  // elevationProfile

  /** Whether elevationProfile returns a profile rather than throwing: the
      step must be positive (checkArgument), the cast count plus one must not
      overflow an int (a negative array size otherwise), and the route must
      have a positive length (the profile constructor rejects a zero one). */
  predicate Computes(route: R.Route, maxStepLength: real)
  {
    var length := R.RouteLength(route);
    maxStepLength > 0.0 && length > 0.0 && Ceil(length / maxStepLength) < TWO31 - 1
  }

  /** The profile elevationProfile returns: the route's elevation sampled
      SampleCount times at the spacing length / (SampleCount - 1), every NaN
      repaired as RepairedAt says. */
  function ComputedProfile(route: R.Route, maxStepLength: real): (p: Option<EP.ElevationProfile>)
    requires R.ValidRoute(route)
    ensures p.Some? <==> Computes(route, maxStepLength)
    ensures p.Some? ==> EP.Valid(p.value) && p.value.length == R.RouteLength(route)
  {
    if !Computes(route, maxStepLength) then None
    else
      var length := R.RouteLength(route);
      var nbSamples := SampleCount(length, maxStepLength);
      SpacingAtMost(length, maxStepLength);
      var gap := length / (nbSamples - 1) as real;
      Some(SampledProfile(RouteElevation(route), length, nbSamples, gap))
  }

  /** The profile of nbSamples samples of elevationAt spaced by gap, every
      NaN repaired. */
  function SampledProfile(elevationAt: real -> Option<real>, length: real, nbSamples: int, gap: real): (p: EP.ElevationProfile)
    requires length > 0.0 && 2 <= nbSamples < TWO31
    ensures EP.Valid(p) && p.length == length && |p.elevationSamples| == nbSamples
  {
    EP.Profile(length, Repaired(Samples(elevationAt, nbSamples, gap)))
  }

  /** elevationProfile(route, maxStepLength): None where it throws. */
  method ElevationProfileOf(route: R.Route, maxStepLength: real) returns (p: Option<EP.ElevationProfile>)
    requires R.ValidRoute(route)
    ensures p == ComputedProfile(route, maxStepLength)
  {
    if !(maxStepLength > 0.0) {
      return None;
    }
    var length := R.Length(route);
    R.LengthNonNegative(route);
    if Ceil(length / maxStepLength) >= TWO31 - 1 {
      return None;
    }
    var nbSamples := Ceil(length / maxStepLength) + 1;
    if length == 0.0 {
      return None;
    }
    SpacingAtMost(length, maxStepLength);
    var gap := length / (nbSamples - 1) as real;
    p := ProfileOfSamples(RouteElevation(route), length, nbSamples, gap);
    ComputedProfileIs(route, maxStepLength, length, nbSamples, gap);
  }

  /** The profile specified for a route that computes one, in terms of the
      values elevationProfile computes on the way. */
  lemma ComputedProfileIs(route: R.Route, maxStepLength: real, length: real, nbSamples: int, gap: real)
    requires R.ValidRoute(route) && maxStepLength > 0.0 && length == R.RouteLength(route) && length > 0.0
    requires Ceil(length / maxStepLength) < TWO31 - 1 && nbSamples == Ceil(length / maxStepLength) + 1
    requires gap == length / (nbSamples - 1) as real
    ensures 2 <= nbSamples < TWO31
    ensures ComputedProfile(route, maxStepLength) == Some(SampledProfile(RouteElevation(route), length, nbSamples, gap))
  {
    SpacingAtMost(length, maxStepLength);
  }

  /** From the sampling loop to the call of the profile constructor. */
  method ProfileOfSamples(elevationAt: real -> Option<real>, length: real, nbSamples: int, gap: real)
    returns (p: Option<EP.ElevationProfile>)
    requires length > 0.0 && 2 <= nbSamples < TWO31
    ensures p == Some(SampledProfile(elevationAt, length, nbSamples, gap))
  {
    var samples, nanIndex := Sample(elevationAt, nbSamples, gap);
    RepairSamples(samples, nanIndex);
    p := EP.New(length, Values(samples[..]));
  }

  /** Everything elevationProfile does between sampling and building the
      profile: no NaN leaves the samples as they are, all NaN makes them 0,
      and otherwise the leading, trailing and interior runs are repaired in
      turn. */
  method RepairSamples(samples: array<Option<real>>, nanIndex: seq<int>)
    requires nanIndex == NanIndexes(samples[..])
    modifies samples
    ensures forall k | 0 <= k < samples.Length :: samples[k].Some?
    ensures Values(samples[..]) == Repaired(old(samples[..]))
  {
    ghost var raw := samples[..];
    NanIndexesSpec(raw);
    NanIndexesList(raw);
    if nanIndex == [] {
      forall k | 0 <= k < |raw|
        ensures raw[k].Some?
      {
        KnownBetween(raw, nanIndex, -1, k);
      }
      NoNanUnchanged(raw);
    } else if |nanIndex| == samples.Length {
      Fill(samples, 0, samples.Length, Some(0.0));
      AllNanIsFlat(raw);
      assert Values(samples[..]) == Repaired(raw);
    } else {
      RepairRuns(samples, nanIndex);
    }
  }

  /** The three phases of the repair, when some but not all samples are NaN. */
  method RepairRuns(samples: array<Option<real>>, nanIndex: seq<int>)
    requires NanList(samples[..], nanIndex) && 0 < |nanIndex| < samples.Length
    modifies samples
    ensures forall k | 0 <= k < samples.Length :: samples[k].Some?
    ensures Values(samples[..]) == Repaired(old(samples[..]))
  {
    ghost var raw := samples[..];
    var rest, lo := RepairLeading(samples, nanIndex);
    ghost var hi;
    rest, hi := RepairTrailing(samples, raw, nanIndex, rest, lo);
    RepairInterior(samples, raw, nanIndex, rest, lo, hi);
    AllRepaired(raw, nanIndex, samples[..], hi);
  }

  /** Once nothing is pending, every sample is known and the samples are the
      repaired ones. */
  lemma AllRepaired(orig: seq<Option<real>>, n: seq<int>, cur: seq<Option<real>>, hi: int)
    requires Repairing(orig, n, cur, hi, hi)
    ensures forall k | 0 <= k < |cur| :: cur[k].Some?
    ensures Values(cur) == Repaired(orig)
  {
  }
}
