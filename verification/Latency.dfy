/**
 Server latency snapshots over 65 power-of-two buckets: the conservation and percentile check, and
 the difference of two snapshots of one growing observer.
 */
module Latency {
  import opened Wrappers
  import opened Buckets
  import opened Samples
  import opened Quantiles
  import opened Reconstruction

  datatype Snapshot = Snapshot(
    buckets: seq<int>, count: int, sum: int, min: Option<int>, max: Option<int>, saturated: bool,
    p50: Option<Interval>, p95: Option<Interval>, p99: Option<Interval>)

  datatype Summary = Summary(count: int, sum: int, p50: Option<Interval>, p95: Option<Interval>, p99: Option<Interval>)

  /** The samples' own count and percentiles. */
  ghost predicate Summarizes(xs: seq<int>, s: Summary) {
    && s.count == |xs| && s.sum == Sum(xs)
    && IsPercentile(PowerOfTwo, xs, 50, s.p50) && IsPercentile(PowerOfTwo, xs, 95, s.p95)
    && IsPercentile(PowerOfTwo, xs, 99, s.p99)
  }

  /** The observer recorded these samples without saturating. */
  ghost predicate Recorded(h: Snapshot, xs: seq<int>) {
    && !h.saturated && Tallies(PowerOfTwo, xs, h.buckets)
    && Summarizes(xs, Summary(h.count, h.sum, h.p50, h.p95, h.p99))
    && h.count <= U64 && h.sum <= U64
    && (if xs == [] then h.min == None && h.max == None
        else h.min.Some? && h.max.Some? && h.min.value in xs && h.max.value in xs
             && forall x | x in xs :: h.min.value <= x <= h.max.value)
  }

  ghost predicate Percentiles(h: Snapshot, xs: seq<int>) {
    && IsPercentile(PowerOfTwo, xs, 50, h.p50) && IsPercentile(PowerOfTwo, xs, 95, h.p95)
    && IsPercentile(PowerOfTwo, xs, 99, h.p99)
  }

  /** Some samples have these bucket counts and percentiles. */
  ghost predicate Placeable(h: Snapshot) {
    exists xs :: Tallies(PowerOfTwo, xs, h.buckets) && h.count == |xs| && Percentiles(h, xs)
  }

  /** The extrema bound the mean. */
  ghost predicate MeanBounded(h: Snapshot) {
    if h.count == 0 then h.min == None && h.max == None && h.sum == 0
    else h.min.Some? && h.max.Some? && 0 <= h.min.value <= h.max.value <= U64
         && h.min.value * h.count <= h.sum <= h.max.value * h.count
  }

  /** What the check asks: counts and percentiles some samples have, and extrema that bound the mean. */
  ghost predicate Accepted(h: Snapshot) {
    !h.saturated && h.count <= U64 && 0 <= h.sum <= U64 && Placeable(h) && MeanBounded(h)
  }

  /** Counters in range that conserve the population. */
  ghost predicate Conserved(h: Snapshot) {
    && !h.saturated && |h.buckets| == 65 && 0 <= h.count <= U64 && 0 <= h.sum <= U64
    && (forall i | 0 <= i < 65 :: 0 <= h.buckets[i] <= U64) && Sum(h.buckets) == h.count
  }

  /** Accepts exactly the unsaturated snapshots whose counts and percentiles some samples have and
      whose extrema bound the mean. */
  method LatencyCheck(h: Snapshot) returns (accepted: bool)
    ensures accepted <==> Accepted(h)
  {
    var conserved := CheckCounts(h);
    if !conserved {
      NotPlaceable(h);
      return false;
    }
    if h.count != 0 {
      if h.min.None? || h.max.None? || !(0 <= h.min.value <= h.max.value <= U64)
         || !(h.min.value * h.count <= h.sum <= h.max.value * h.count) {
        return false;
      }
    } else if h.min != None || h.max != None || h.sum != 0 {
      return false;
    }
    accepted := CheckPercentiles(h);
  }

  method CheckCounts(h: Snapshot) returns (ok: bool)
    ensures ok <==> Conserved(h)
  {
    var total := Total(h.buckets);
    ok := |h.buckets| == 65 && !h.saturated && 0 <= h.count <= U64 && 0 <= h.sum <= U64
          && (forall i | 0 <= i < |h.buckets| :: 0 <= h.buckets[i] <= U64) && total == h.count;
  }

  method CheckPercentiles(h: Snapshot) returns (ok: bool)
    requires Conserved(h)
    ensures ok <==> Placeable(h)
  {
    var q50 := Percentile(PowerOfTwo, h.buckets, 50);
    var q95 := Percentile(PowerOfTwo, h.buckets, 95);
    var q99 := Percentile(PowerOfTwo, h.buckets, 99);
    ok := h.p50 == q50 && h.p95 == q95 && h.p99 == q99;
    ghost var xs := Inhabit(h.buckets);
    TallySize(PowerOfTwo, xs, h.buckets);
  }

  lemma NotPlaceable(h: Snapshot)
    requires !Conserved(h)
    ensures !(!h.saturated && h.count <= U64 && 0 <= h.sum <= U64 && Placeable(h))
  {
    forall xs | Tallies(PowerOfTwo, xs, h.buckets) && h.count == |xs| && h.count <= U64
      ensures Sum(h.buckets) == h.count && forall i | 0 <= i < 65 :: 0 <= h.buckets[i] <= U64
    {
      TallySize(PowerOfTwo, xs, h.buckets);
      SumNonNegative(h.buckets);
    }
  }

  /** Samples with given counts: every sample at its bucket's lower bound. */
  lemma Inhabit(buckets: seq<int>) returns (xs: seq<int>)
    requires |buckets| == 65 && forall i | 0 <= i < 65 :: buckets[i] >= 0
    ensures Tallies(PowerOfTwo, xs, buckets)
  {
    var bs := Spread(buckets, 65);
    xs := seq(|bs|, k requires 0 <= k < |bs| => Lower(PowerOfTwo, bs[k]));
    SpreadOccupancy(buckets);
    forall i | 0 <= i < 65 ensures buckets[i] == Within(xs, Lower(PowerOfTwo, i), Upper(PowerOfTwo, i)) {
      LowerWithin(bs, xs, i);
    }
    Ends(PowerOfTwo);
    forall k | 0 <= k < |xs| ensures 0 <= xs[k] <= U64 {
      Ascending(PowerOfTwo, bs[k], 64);
      Adjacent(PowerOfTwo, bs[k]);
    }
  }

  lemma {:induction false} LowerWithin(bs: seq<nat>, xs: seq<int>, i: nat)
    requires |bs| == |xs| && forall k | 0 <= k < |xs| :: xs[k] == Lower(PowerOfTwo, bs[k])
    ensures Within(xs, Lower(PowerOfTwo, i), Upper(PowerOfTwo, i)) == Occurs(bs, i)
  {
    if xs != [] {
      LowerWithin(bs[1..], xs[1..], i);
      Adjacent(PowerOfTwo, bs[0]);
      Adjacent(PowerOfTwo, i);
      if Holds(PowerOfTwo, i, xs[0]) { OnlyBucket(PowerOfTwo, i, bs[0], xs[0]); }
    }
  }

  lemma {:induction false} MeanBounds(xs: seq<int>, lo: int, hi: int)
    requires forall x | x in xs :: lo <= x <= hi
    ensures lo * |xs| <= Sum(xs) <= hi * |xs|
  {
    if xs != [] {
      var rest := xs[1..];
      assert forall x | x in rest :: x in xs;
      MeanBounds(rest, lo, hi);
      OneMore(lo, |rest|);
      OneMore(hi, |rest|);
      assert xs[0] in xs;
    }
  }

  lemma OneMore(a: int, n: nat)
    ensures a * (n + 1) == a * n + a
  {
  }

  /** Every snapshot an observer can record is accepted. */
  lemma RecordedAccepted(h: Snapshot, xs: seq<int>)
    requires Recorded(h, xs)
    ensures Accepted(h)
  {
    if xs != [] {
      MeanBounds(xs, h.min.value, h.max.value);
      MeanBounds(xs, 0, U64);
    }
  }

  // ----- what the check leaves open

  function RawOf(h: Snapshot): Raw {
    Raw(h.count, h.sum, h.min, h.max, true, h.buckets)
  }

  /** The extrema lie in the outermost occupied buckets and the sum between what those force. */
  ghost predicate Tight(h: Snapshot) {
    h.count > 0 ==> exists first: nat, last: nat ::
      Bounded(PowerOfTwo, RawOf(h), first, last) && SumPossible(PowerOfTwo, RawOf(h), first, last)
  }

  lemma SamePercentile(s: Scheme, xs: seq<int>, ys: seq<int>, buckets: seq<int>, percentile: nat, q: Option<Interval>)
    requires 1 <= percentile <= 100 && Tallies(s, xs, buckets) && Tallies(s, ys, buckets)
             && IsPercentile(s, xs, percentile, q)
    requires forall k | 0 <= k < |buckets| :: buckets[k] >= 0
    ensures IsPercentile(s, ys, percentile, q)
  {
    TallySize(s, xs, buckets);
    TallySize(s, ys, buckets);
    if xs != [] {
      var v: nat :| v <= U64 && IsQuantile(xs, percentile, v) && q == Some(BucketAround(s, v));
      QuantileIsNearestRank(xs, percentile, v);
      RankReached(s, xs, buckets, Rank(|xs|, percentile), v);
      FoundIsPercentile(s, ys, buckets, percentile, BucketOf(s, v));
    }
  }

  /** A recorded snapshot meets the conditions and is tight. */
  lemma RecordedTight(h: Snapshot, xs: seq<int>)
    requires Recorded(h, xs)
    ensures Accepted(h) && Tight(h)
  {
    RecordedAccepted(h, xs);
    if xs != [] {
      var first, last := GenuineBounded(PowerOfTwo, RawOf(h), xs);
    }
  }

  /** A tight snapshot that meets the conditions was recorded from some samples. */
  lemma TightRecorded(h: Snapshot) returns (xs: seq<int>)
    requires Accepted(h) && Tight(h)
    ensures Recorded(h, xs)
  {
    var ys :| Tallies(PowerOfTwo, ys, h.buckets) && h.count == |ys| && Percentiles(h, ys);
    xs := PlacedRecorded(h, ys);
  }

  lemma PlacedRecorded(h: Snapshot, ys: seq<int>) returns (xs: seq<int>)
    requires Tallies(PowerOfTwo, ys, h.buckets) && h.count == |ys| && Percentiles(h, ys) && Tight(h)
    requires !h.saturated && h.count <= U64 && h.sum <= U64
    requires h.count == 0 ==> h.min == None && h.max == None && h.sum == 0
    ensures Recorded(h, xs)
  {
    TallySize(PowerOfTwo, ys, h.buckets);
    if h.count == 0 {
      xs := ys;
    } else {
      xs := TightRealized(h);
    }
    SamePercentiles(h, ys, xs);
    RecordedFrom(h, xs);
  }

  lemma RecordedFrom(h: Snapshot, xs: seq<int>)
    requires !h.saturated && h.count <= U64 && h.sum <= U64 && h.count == |xs| && h.sum == Sum(xs)
    requires Tallies(PowerOfTwo, xs, h.buckets) && Percentiles(h, xs)
    requires if xs == [] then h.min == None && h.max == None
             else h.min.Some? && h.max.Some? && IsMin(xs, h.min.value) && IsMax(xs, h.max.value)
    ensures Recorded(h, xs)
  {
  }

  lemma TightRealized(h: Snapshot) returns (xs: seq<int>)
    requires h.count > 0 && Tight(h) && Counted(PowerOfTwo, RawOf(h))
    ensures |xs| == h.count && Sum(xs) == h.sum && Tallies(PowerOfTwo, xs, h.buckets)
    ensures h.min.Some? && h.max.Some? && IsMin(xs, h.min.value) && IsMax(xs, h.max.value)
  {
    var first: nat, last: nat :|
      Bounded(PowerOfTwo, RawOf(h), first, last) && SumPossible(PowerOfTwo, RawOf(h), first, last);
    xs := Realize(PowerOfTwo, RawOf(h), first, last);
  }

  lemma SamePercentiles(h: Snapshot, xs: seq<int>, ys: seq<int>)
    requires Tallies(PowerOfTwo, xs, h.buckets) && Tallies(PowerOfTwo, ys, h.buckets) && Percentiles(h, xs)
    requires forall k | 0 <= k < |h.buckets| :: h.buckets[k] >= 0
    ensures Percentiles(h, ys)
  {
    SamePercentile(PowerOfTwo, xs, ys, h.buckets, 50, h.p50);
    SamePercentile(PowerOfTwo, xs, ys, h.buckets, 95, h.p95);
    SamePercentile(PowerOfTwo, xs, ys, h.buckets, 99, h.p99);
  }

  /** Snapshots that some samples produce are exactly the accepted ones that are tight. */
  lemma LatencyExact(h: Snapshot)
    ensures (exists xs :: Recorded(h, xs)) <==> Accepted(h) && Tight(h)
  {
    if xs :| Recorded(h, xs) {
      RecordedTight(h, xs);
    }
    if Accepted(h) && Tight(h) {
      var xs := TightRecorded(h);
    }
  }

  /** One sample counted in the bucket of zero, reported with any other minimum, maximum and sum, is accepted. */
  lemma LooseExtrema(sample: nat) returns (h: Snapshot)
    requires 0 < sample <= U64
    ensures Accepted(h) && h.min == h.max == Some(sample) && h.sum == sample && !exists xs :: Recorded(h, xs)
  {
    var zero: nat, one: nat := 0, 1;
    var slot := BucketOf(PowerOfTwo, zero);
    var q := Some(Interval(Lower(PowerOfTwo, slot), Upper(PowerOfTwo, slot)));
    var buckets := seq(65, i => if i == slot then one else 0);
    h := Snapshot(buckets, one, sample, Some(sample), Some(sample), false, q, q, q);
    RepeatedTallies(PowerOfTwo, one, zero, slot, buckets);
    RepeatedPercentile(PowerOfTwo, one, zero, 50);
    RepeatedPercentile(PowerOfTwo, one, zero, 95);
    RepeatedPercentile(PowerOfTwo, one, zero, 99);
    ZeroBucket(slot);
    assert !Tight(h) by {
      forall first: nat, last: nat | Bounded(PowerOfTwo, RawOf(h), first, last) ensures first == slot {}
    }
    LatencyExact(h);
  }

  lemma ZeroBucket(slot: nat)
    requires slot == BucketOf(PowerOfTwo, 0)
    ensures slot == 0 && Upper(PowerOfTwo, slot) == 0
  {
    OnlyBucket(PowerOfTwo, slot, 0, 0);
  }

  // ----- the difference of two snapshots

  /** The second snapshot adds the samples `ys` to those of the first. */
  ghost predicate Grew(before: Snapshot, after: Snapshot, xs: seq<int>, ys: seq<int>) {
    Recorded(before, xs) && Recorded(after, xs + ys)
  }

  /** Bucket, count and sum differences with their percentiles, or nothing if a counter regressed. */
  method Delta(before: Snapshot, after: Snapshot) returns (r: Option<Summary>)
    requires |before.buckets| == |after.buckets| == 65
    ensures forall xs, ys | Grew(before, after, xs, ys) :: r.Some? && Summarizes(ys, r.value)
  {
    var buckets: seq<int> := [];
    for i := 0 to 65
      invariant |buckets| == i && forall j | 0 <= j < i :: buckets[j] == after.buckets[j] - before.buckets[j]
    {
      buckets := buckets + [after.buckets[i] - before.buckets[i]];
    }
    forall xs, ys | Grew(before, after, xs, ys)
      ensures Tallies(PowerOfTwo, ys, buckets) && 0 <= after.sum - before.sum == Sum(ys)
      ensures after.count - before.count == |ys| == Sum(buckets)
      ensures forall i | 0 <= i < 65 :: 0 <= buckets[i] <= U64
    {
      Between(before, after, xs, ys, buckets);
    }
    r := Quantify(buckets, after.count - before.count, after.sum - before.sum);
    forall xs, ys | Grew(before, after, xs, ys) ensures r.Some? && Summarizes(ys, r.value) {
      assert after.sum - before.sum <= U64 && after.count - before.count <= U64 by {
        if xs != [] { MeanBounds(xs, 0, U64); }
      }
    }
  }

  method Quantify(buckets: seq<int>, count: int, sum: int) returns (r: Option<Summary>)
    requires |buckets| == 65
    ensures r.Some? <==>
              && 0 <= count <= U64 && 0 <= sum <= U64 && count == Sum(buckets)
              && forall i | 0 <= i < 65 :: 0 <= buckets[i] <= U64
    ensures r.Some? ==> forall ys | Tallies(PowerOfTwo, ys, buckets) && count == |ys| && sum == Sum(ys) ::
              Summarizes(ys, r.value)
  {
    var total := Total(buckets);
    if !(forall i | 0 <= i < 65 :: 0 <= buckets[i] <= U64)
       || !(0 <= count <= U64) || !(0 <= sum <= U64) || count != total
    {
      return None;
    }
    var p50 := Percentile(PowerOfTwo, buckets, 50);
    var p95 := Percentile(PowerOfTwo, buckets, 95);
    var p99 := Percentile(PowerOfTwo, buckets, 99);
    return Some(Summary(count, sum, p50, p95, p99));
  }

  lemma Between(before: Snapshot, after: Snapshot, xs: seq<int>, ys: seq<int>, buckets: seq<int>)
    requires Recorded(before, xs) && Recorded(after, xs + ys)
    requires |buckets| == 65 && forall j | 0 <= j < 65 :: buckets[j] == after.buckets[j] - before.buckets[j]
    ensures Tallies(PowerOfTwo, ys, buckets) && after.sum - before.sum == Sum(ys) >= 0
            && after.count - before.count == |ys| == Sum(buckets)
    ensures forall i | 0 <= i < 65 :: 0 <= buckets[i] <= U64
  {
    TallyDifference(before.buckets, after.buckets, xs, ys, buckets);
    TallySize(PowerOfTwo, ys, buckets);
    SumAppend(xs, ys);
    assert forall k | 0 <= k < |ys| :: ys[k] in ys;
    SumNonNegative(ys);
    SumNonNegative(buckets);
  }

  lemma TallyDifference(a: seq<int>, b: seq<int>, xs: seq<int>, ys: seq<int>, buckets: seq<int>)
    requires Tallies(PowerOfTwo, xs, a) && Tallies(PowerOfTwo, xs + ys, b)
    requires |buckets| == 65 && forall j | 0 <= j < 65 :: buckets[j] == b[j] - a[j]
    ensures Tallies(PowerOfTwo, ys, buckets)
  {
    forall y | y in ys ensures 0 <= y <= U64 { assert y in xs + ys; }
    forall i | 0 <= i < 65 ensures buckets[i] == Within(ys, Lower(PowerOfTwo, i), Upper(PowerOfTwo, i)) {
      WithinAppend(xs, ys, Lower(PowerOfTwo, i), Upper(PowerOfTwo, i));
    }
  }

  lemma {:induction false} WithinAppend(xs: seq<int>, ys: seq<int>, lo: int, hi: int)
    ensures Within(xs + ys, lo, hi) == Within(xs, lo, hi) + Within(ys, lo, hi)
  {
    if xs == [] {
      assert xs + ys == ys;
    } else {
      assert (xs + ys)[1..] == xs[1..] + ys;
      WithinAppend(xs[1..], ys, lo, hi);
    }
  }
}
