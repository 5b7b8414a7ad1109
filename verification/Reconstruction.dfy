/**
 The samples behind aggregates: which bucket counts, extrema and sums some collection of samples has,
 in either bucket scheme.
 */
module Reconstruction {
  import opened Wrappers
  import opened Counting
  import opened Buckets
  import opened Samples
  import opened Quantiles

  datatype Raw = Raw(count: int, sum: int, min: Option<int>, max: Option<int>, valid: bool, buckets: seq<int>)

  /** Counts for every bucket of the scheme that add up. */
  ghost predicate Counted(s: Scheme, r: Raw) {
    |r.buckets| == s.Size() && (forall i | 0 <= i < |r.buckets| :: r.buckets[i] >= 0) && Sum(r.buckets) == r.count
  }

  predicate Uint(x: int) {
    0 <= x <= U64
  }

  function ClipLow(s: Scheme, i: nat, minimum: int): int { Max(Lower(s, i), minimum) }

  function ClipHigh(s: Scheme, i: nat, maximum: int): int { Min(Upper(s, i), maximum) }

  /** The clipped lower and upper bounds as functions of the bucket. */
  function Lows(s: Scheme, minimum: int): nat -> int { (i: nat) => ClipLow(s, i, minimum) }

  function Highs(s: Scheme, maximum: int): nat -> int { (i: nat) => ClipHigh(s, i, maximum) }

  ghost predicate IsMin(xs: seq<int>, m: int) {
    m in xs && forall x | x in xs :: m <= x
  }

  ghost predicate IsMax(xs: seq<int>, m: int) {
    m in xs && forall x | x in xs :: x <= m
  }

  // ----- conditions on the aggregates

  ghost predicate FirstUsed(buckets: seq<int>, i: nat) {
    i < |buckets| && buckets[i] != 0 && forall j | 0 <= j < i :: buckets[j] == 0
  }

  ghost predicate LastUsed(buckets: seq<int>, i: nat) {
    i < |buckets| && buckets[i] != 0 && forall j | i < j < |buckets| :: buckets[j] == 0
  }

  /** The extrema lie in the outermost occupied buckets. */
  ghost predicate Bounded(s: Scheme, r: Raw, first: nat, last: nat) {
    && r.min.Some? && r.max.Some? && Uint(r.min.value) && Uint(r.max.value) && r.min.value <= r.max.value
    && FirstUsed(r.buckets, first) && LastUsed(r.buckets, last)
    && Holds(s, first, r.min.value) && Holds(s, last, r.max.value)
  }

  ghost function LeastSum(s: Scheme, r: Raw, last: nat): int
    requires r.min.Some? && r.max.Some?
  {
    Weighted(r.buckets, Lows(s, r.min.value), |r.buckets|)
    + if r.count == 1 then 0 else r.max.value - ClipLow(s, last, r.min.value)
  }

  ghost function GreatestSum(s: Scheme, r: Raw, first: nat): int
    requires r.min.Some? && r.max.Some?
  {
    Weighted(r.buckets, Highs(s, r.max.value), |r.buckets|)
    - if r.count == 1 then 0 else ClipHigh(s, first, r.max.value) - r.min.value
  }

  ghost predicate SumPossible(s: Scheme, r: Raw, first: nat, last: nat)
    requires r.min.Some? && r.max.Some?
  {
    && (r.count == 1 ==> r.min.value == r.max.value == r.sum)
    && LeastSum(s, r, last) <= r.sum <= GreatestSum(s, r, first)
  }

  // ----- samples and their buckets

  ghost predicate Placed(s: Scheme, bs: seq<nat>, xs: seq<int>) {
    |bs| == |xs| && forall k | 0 <= k < |xs| :: bs[k] < s.Size() && Holds(s, bs[k], xs[k])
  }

  lemma {:induction false} PlacedWithin(s: Scheme, bs: seq<nat>, xs: seq<int>, i: nat)
    requires Placed(s, bs, xs)
    ensures Within(xs, Lower(s, i), Upper(s, i)) == Occurs(bs, i)
  {
    if xs != [] {
      PlacedWithin(s, bs[1..], xs[1..], i);
      if Holds(s, i, xs[0]) { OnlyBucket(s, i, bs[0], xs[0]); }
    }
  }

  function SlotsOf(s: Scheme, xs: seq<int>): (bs: seq<nat>)
    requires forall x | x in xs :: 0 <= x <= U64
    ensures Placed(s, bs, xs)
  {
    seq(|xs|, k requires 0 <= k < |xs| => assert xs[k] in xs; BucketOf(s, xs[k]))
  }

  lemma PlacedOccupancy(s: Scheme, bs: seq<nat>, xs: seq<int>, buckets: seq<int>)
    requires Placed(s, bs, xs) && |buckets| == s.Size() && forall x | x in xs :: 0 <= x <= U64
    ensures Tallies(s, xs, buckets) <==> Occupancy(bs, buckets)
  {
    forall i: nat ensures Within(xs, Lower(s, i), Upper(s, i)) == Occurs(bs, i) {
      PlacedWithin(s, bs, xs, i);
    }
  }

  // ----- samples always meet them

  lemma OuterBuckets(s: Scheme, r: Raw, bs: seq<nat>, xs: seq<int>, kmin: nat, kmax: nat)
    requires Placed(s, bs, xs) && Occupancy(bs, r.buckets) && |r.buckets| == s.Size()
    requires kmin < |xs| && IsMin(xs, xs[kmin]) && kmax < |xs| && IsMax(xs, xs[kmax])
    ensures FirstUsed(r.buckets, bs[kmin]) && LastUsed(r.buckets, bs[kmax])
  {
    OccursSome(bs, bs[kmin]);
    OccursSome(bs, bs[kmax]);
    forall j | 0 <= j < s.Size() && r.buckets[j] != 0 ensures bs[kmin] <= j <= bs[kmax] {
      OccursSome(bs, j);
      var k :| 0 <= k < |bs| && bs[k] == j;
      assert xs[k] in xs;
      if j < bs[kmin] { Ascending(s, j, bs[kmin]); }
      if j > bs[kmax] { Ascending(s, bs[kmax], j); }
    }
  }

  lemma AtLeast(bs: seq<nat>, xs: seq<int>, counts: seq<int>, f: nat -> int, k: nat)
    requires Occupancy(bs, counts) && |bs| == |xs| && k < |xs| && forall j | 0 <= j < |xs| :: f(bs[j]) <= xs[j]
    ensures Weighted(counts, f, |counts|) <= Weighted(counts, f, |counts|) + xs[k] - f(bs[k]) <= Sum(xs)
  {
    Replaced(bs, counts, f, k, xs[k]);
    SumOrdered(Values(bs, f)[k := xs[k]], xs);
  }

  lemma AtMost(bs: seq<nat>, xs: seq<int>, counts: seq<int>, f: nat -> int, k: nat)
    requires Occupancy(bs, counts) && |bs| == |xs| && k < |xs| && forall j | 0 <= j < |xs| :: xs[j] <= f(bs[j])
    ensures Sum(xs) <= Weighted(counts, f, |counts|) - (f(bs[k]) - xs[k]) <= Weighted(counts, f, |counts|)
  {
    Replaced(bs, counts, f, k, xs[k]);
    SumOrdered(xs, Values(bs, f)[k := xs[k]]);
  }

  lemma Clipped(s: Scheme, i: nat, x: int, minimum: int, maximum: int)
    requires Holds(s, i, x) && minimum <= x <= maximum
    ensures Lows(s, minimum)(i) <= x <= Highs(s, maximum)(i)
  {
  }

  lemma GenuineSum(s: Scheme, r: Raw, bs: seq<nat>, xs: seq<int>, kmin: nat, kmax: nat)
    requires Placed(s, bs, xs) && Occupancy(bs, r.buckets) && r.count == |xs| && r.sum == Sum(xs)
    requires r.min.Some? && r.max.Some?
    requires kmin < |xs| && xs[kmin] == r.min.value && kmax < |xs| && xs[kmax] == r.max.value
    requires forall k | 0 <= k < |xs| :: r.min.value <= xs[k] <= r.max.value
    ensures SumPossible(s, r, bs[kmin], bs[kmax])
  {
    var lo, hi := Lows(s, r.min.value), Highs(s, r.max.value);
    forall j | 0 <= j < |xs| ensures lo(bs[j]) <= xs[j] <= hi(bs[j]) {
      Clipped(s, bs[j], xs[j], r.min.value, r.max.value);
    }
    AtLeast(bs, xs, r.buckets, lo, kmax);
    AtMost(bs, xs, r.buckets, hi, kmin);
    if |xs| == 1 { SingleSum(xs); }
  }

  lemma SingleSum(xs: seq<int>)
    requires |xs| == 1
    ensures Sum(xs) == xs[0]
  {
    assert xs[1..] == [];
  }

  lemma GenuineBounded(s: Scheme, r: Raw, xs: seq<int>) returns (first: nat, last: nat)
    requires xs != [] && r.count == |xs| && r.sum == Sum(xs) && Tallies(s, xs, r.buckets)
    requires r.min.Some? && r.max.Some? && IsMin(xs, r.min.value) && IsMax(xs, r.max.value)
    ensures Bounded(s, r, first, last) && SumPossible(s, r, first, last)
  {
    var bs := SlotsOf(s, xs);
    PlacedOccupancy(s, bs, xs, r.buckets);
    var kmin :| 0 <= kmin < |xs| && xs[kmin] == r.min.value;
    var kmax :| 0 <= kmax < |xs| && xs[kmax] == r.max.value;
    OuterBuckets(s, r, bs, xs, kmin, kmax);
    assert forall k | 0 <= k < |xs| :: xs[k] in xs;
    GenuineSum(s, r, bs, xs, kmin, kmax);
    return bs[kmin], bs[kmax];
  }

  // ----- aggregates that meet them come from samples

  lemma ClipNonempty(s: Scheme, r: Raw, first: nat, last: nat, i: nat)
    requires Bounded(s, r, first, last) && i < |r.buckets| && r.buckets[i] != 0
    ensures ClipLow(s, i, r.min.value) <= ClipHigh(s, i, r.max.value)
  {
    assert first <= i <= last;
    Ascending(s, first, i);
    Ascending(s, i, last);
    Adjacent(s, i);
  }

  /** With the extrema in the outermost buckets, the test for a clipped-away bucket cannot fail. */
  lemma NeverClipped(s: Scheme, r: Raw, first: nat, last: nat)
    requires Bounded(s, r, first, last)
    ensures forall i | 0 <= i < |r.buckets| && r.buckets[i] != 0 :: Lows(s, r.min.value)(i) <= Highs(s, r.max.value)(i)
  {
    forall i | 0 <= i < |r.buckets| && r.buckets[i] != 0 ensures Lows(s, r.min.value)(i) <= Highs(s, r.max.value)(i) {
      ClipNonempty(s, r, first, last, i);
    }
  }

  /** Samples for an accepted report: one at each extremum, the rest spread to reach the sum. */
  lemma Realize(s: Scheme, r: Raw, first: nat, last: nat) returns (xs: seq<int>)
    requires Counted(s, r) && r.count > 0 && Bounded(s, r, first, last) && SumPossible(s, r, first, last)
    ensures |xs| == r.count && Sum(xs) == r.sum && Tallies(s, xs, r.buckets)
    ensures IsMin(xs, r.min.value) && IsMax(xs, r.max.value)
  {
    var bs := Spread(r.buckets, |r.buckets|);
    SpreadOccupancy(r.buckets);
    SpreadEntries(r.buckets, |r.buckets|);
    SpreadEnds(s, r, first, last);
    if r.count == 1 {
      xs := [r.sum];
      SingleSum(xs);
    } else {
      xs := RealizeMany(s, r, first, last, bs);
    }
    PlacedOccupancy(s, bs, xs, r.buckets);
  }

  lemma SpreadEnds(s: Scheme, r: Raw, first: nat, last: nat)
    requires Counted(s, r) && r.count > 0 && FirstUsed(r.buckets, first) && LastUsed(r.buckets, last)
    ensures var bs := Spread(r.buckets, |r.buckets|); |bs| == r.count && bs[0] == first && bs[|bs| - 1] == last
  {
    var bs := Spread(r.buckets, |r.buckets|);
    SpreadOccupancy(r.buckets);
    SpreadEntries(r.buckets, |r.buckets|);
    OccursSome(bs, first);
    OccursSome(bs, last);
  }

  lemma Replaced(bs: seq<nat>, counts: seq<int>, f: nat -> int, k: nat, x: int)
    requires Occupancy(bs, counts) && k < |bs|
    ensures Sum(Values(bs, f)[k := x]) == Weighted(counts, f, |counts|) + x - f(bs[k])
  {
    Grouping(bs, counts, f);
    SumUpdate(Values(bs, f), k, x);
  }

  lemma ClipsMeet(s: Scheme, r: Raw, first: nat, last: nat, bs: seq<nat>, lows: seq<int>, highs: seq<int>)
    requires |bs| > 1 && |r.buckets| == s.Size() && Bounded(s, r, first, last)
    requires bs[0] == first && bs[|bs| - 1] == last
    requires forall k | 0 <= k < |bs| :: bs[k] < |r.buckets| && r.buckets[bs[k]] != 0
    requires lows == Values(bs, Lows(s, r.min.value))[|bs| - 1 := r.max.value]
    requires highs == Values(bs, Highs(s, r.max.value))[0 := r.min.value]
    ensures forall k | 0 <= k < |bs| :: lows[k] <= highs[k]
  {
    forall k | 0 <= k < |bs| ensures lows[k] <= highs[k] {
      ClipNonempty(s, r, first, last, bs[k]);
    }
  }

  lemma RealizeMany(s: Scheme, r: Raw, first: nat, last: nat, bs: seq<nat>) returns (xs: seq<int>)
    requires |r.buckets| == s.Size() && Occupancy(bs, r.buckets) && r.count == |bs| > 1
    requires Bounded(s, r, first, last) && SumPossible(s, r, first, last)
    requires bs[0] == first && bs[|bs| - 1] == last
    requires forall k | 0 <= k < |bs| :: bs[k] < |r.buckets| && r.buckets[bs[k]] != 0
    ensures Sum(xs) == r.sum && Placed(s, bs, xs) && (forall x | x in xs :: 0 <= x <= U64)
    ensures IsMin(xs, r.min.value) && IsMax(xs, r.max.value)
  {
    var n := |bs|;
    var minimum, maximum := r.min.value, r.max.value;
    var lo, hi := Lows(s, minimum), Highs(s, maximum);
    Replaced(bs, r.buckets, lo, n - 1, maximum);
    Replaced(bs, r.buckets, hi, 0, minimum);
    var lows := Values(bs, lo)[n - 1 := maximum];
    var highs := Values(bs, hi)[0 := minimum];
    ClipsMeet(s, r, first, last, bs, lows, highs);
    xs := Choose(lows, highs, r.sum);
    ChosenFit(s, bs, lows, highs, xs, minimum, maximum);
  }

  lemma ChosenFit(s: Scheme, bs: seq<nat>, lows: seq<int>, highs: seq<int>, xs: seq<int>, minimum: int, maximum: int)
    requires |bs| == |lows| == |highs| == |xs| > 1 && Uint(minimum) && Uint(maximum) && minimum <= maximum
    requires forall k | 0 <= k < |bs| :: bs[k] < s.Size()
    requires lows == Values(bs, Lows(s, minimum))[|bs| - 1 := maximum]
             && highs == Values(bs, Highs(s, maximum))[0 := minimum]
    requires forall k | 0 <= k < |xs| :: lows[k] <= xs[k] <= highs[k]
    requires Holds(s, bs[0], minimum) && Holds(s, bs[|bs| - 1], maximum)
    ensures Placed(s, bs, xs) && IsMin(xs, minimum) && IsMax(xs, maximum) && forall x | x in xs :: 0 <= x <= U64
  {
    assert xs[0] == minimum && xs[|xs| - 1] == maximum;
    forall k | 0 <= k < |xs| ensures minimum <= xs[k] <= maximum && Holds(s, bs[k], xs[k]) {
      if 0 < k < |xs| - 1 {
        assert ClipLow(s, bs[k], minimum) <= xs[k] <= ClipHigh(s, bs[k], maximum);
      }
    }
  }

  /** Samples with this count, sum, extrema and occupancy. */
  ghost predicate Fits(s: Scheme, r: Raw, xs: seq<int>) {
    && xs != [] && r.count == |xs| && r.sum == Sum(xs) && Tallies(s, xs, r.buckets)
    && r.min.Some? && r.max.Some? && IsMin(xs, r.min.value) && IsMax(xs, r.max.value)
  }

  // ----- equal samples

  function Repeated(count: nat, sample: int): seq<int> {
    seq(count, _ => sample)
  }

  lemma {:induction false} RepeatedWithin(count: nat, sample: int, lo: int, hi: int)
    ensures Within(Repeated(count, sample), lo, hi) == if lo <= sample <= hi then count else 0
  {
    if count > 0 {
      assert Repeated(count, sample)[1..] == Repeated(count - 1, sample);
      RepeatedWithin(count - 1, sample, lo, hi);
    }
  }

  lemma RepeatedTallies(s: Scheme, count: nat, sample: nat, slot: nat, buckets: seq<int>)
    requires sample <= U64 && slot == BucketOf(s, sample)
    requires |buckets| == s.Size() && forall i | 0 <= i < s.Size() :: buckets[i] == if i == slot then count else 0
    ensures Tallies(s, Repeated(count, sample), buckets)
  {
    forall i | 0 <= i < s.Size()
      ensures buckets[i] == Within(Repeated(count, sample), Lower(s, i), Upper(s, i))
    {
      RepeatedWithin(count, sample, Lower(s, i), Upper(s, i));
      if Holds(s, i, sample) { OnlyBucket(s, i, slot, sample); }
    }
  }

  lemma RepeatedPercentile(s: Scheme, count: nat, sample: nat, percentile: nat)
    requires count > 0 && sample <= U64 && 1 <= percentile <= 100
    ensures IsPercentile(s, Repeated(count, sample), percentile,
                         Some(Interval(Lower(s, BucketOf(s, sample)), Upper(s, BucketOf(s, sample)))))
  {
    var xs := Repeated(count, sample);
    RepeatedWithin(count, sample, 0, sample - 1);
    RepeatedWithin(count, sample, 0, sample);
    assert xs[0] == sample;
    PercentageBounds(percentile, count);
    assert IsQuantile(xs, percentile, sample) && BucketAround(s, sample).lower == Lower(s, BucketOf(s, sample));
  }

  lemma PercentageBounds(percentile: nat, count: nat)
    requires count > 0 && 1 <= percentile <= 100
    ensures 0 < percentile * count <= 100 * count
  {
  }
}
