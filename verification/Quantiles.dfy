/** Percentiles read off bucket counts, for either bucket scheme. */
module Quantiles {
  import opened Wrappers
  import opened Buckets
  import opened Samples

  datatype Interval = Interval(lower: int, upper: int)

  /** `buckets` counts the 64-bit samples `xs` by bucket. */
  ghost predicate Tallies(s: Scheme, xs: seq<int>, buckets: seq<int>) {
    && |buckets| == s.Size() && (forall x | x in xs :: 0 <= x <= U64)
    && (forall i | 0 <= i < |buckets| :: buckets[i] == Within(xs, Lower(s, i), Upper(s, i)))
  }

  function Rank(count: nat, percentile: nat): nat {
    (count * percentile + 99) / 100
  }

  /** The rank is the least number of samples that makes up the percentage. */
  lemma RankLeast(count: nat, percentile: nat, k: int)
    ensures k >= Rank(count, percentile) <==> 100 * k >= percentile * count
  {
    var n := count * percentile;
    assert n == percentile * count;
    assert 100 * Rank(count, percentile) <= n + 99 < 100 * Rank(count, percentile) + 100;
  }

  lemma RankInRange(count: nat, percentile: nat)
    requires count > 0 && 1 <= percentile <= 100
    ensures 1 <= Rank(count, percentile) <= count
  {
    RankLeast(count, percentile, 0);
    RankLeast(count, percentile, count);
    assert percentile * count >= 1;
    assert percentile * count <= 100 * count;
  }

  /** The buckets up to `i` hold exactly the samples up to its upper bound. */
  lemma {:induction false} Cumulative(s: Scheme, xs: seq<int>, buckets: seq<int>, i: nat)
    requires Tallies(s, xs, buckets) && i < |buckets|
    ensures Sum(buckets[..i + 1]) == Within(xs, 0, Upper(s, i))
  {
    Ends(s);
    Adjacent(s, i);
    SumLast(buckets[..i + 1]);
    assert buckets[..i + 1][..i] == buckets[..i];
    if i > 0 {
      Cumulative(s, xs, buckets, i - 1);
      Adjacent(s, i - 1);
      WithinSplit(xs, 0, Upper(s, i - 1), Upper(s, i));
    }
  }

  lemma TallySize(s: Scheme, xs: seq<int>, buckets: seq<int>)
    requires Tallies(s, xs, buckets)
    ensures Sum(buckets) == |xs|
  {
    Ends(s);
    Cumulative(s, xs, buckets, |buckets| - 1);
    assert buckets[..|buckets| - 1 + 1] == buckets;
    WithinAll(xs, 0, U64);
  }

  /** The first bucket at which the running count reaches the rank. */
  ghost predicate Reaches(buckets: seq<int>, rank: nat, i: nat) {
    i < |buckets| && Sum(buckets[..i]) < rank <= Sum(buckets[..i + 1])
  }

  /** The cumulative scan shared by every percentile check. */
  method Scan(buckets: seq<int>, rank: nat) returns (found: Option<nat>)
    requires rank > 0
    ensures found.Some? ==> Reaches(buckets, rank, found.value)
    ensures found.None? ==> forall i | 0 <= i <= |buckets| :: Sum(buckets[..i]) < rank
  {
    var cumulative := 0;
    assert buckets[..0] == [];
    for i := 0 to |buckets|
      invariant cumulative == Sum(buckets[..i])
      invariant forall j | 0 <= j <= i :: Sum(buckets[..j]) < rank
    {
      SumLast(buckets[..i + 1]);
      assert buckets[..i + 1][..i] == buckets[..i];
      cumulative := cumulative + buckets[i];
      if cumulative >= rank {
        return Some(i);
      }
    }
    return None;
  }

  /** Whatever the samples behind the counts, the sample of that rank lies in the bucket found. */
  lemma ReachedHoldsRank(s: Scheme, xs: seq<int>, buckets: seq<int>, rank: nat, i: nat, v: int)
    requires Tallies(s, xs, buckets) && Reaches(buckets, rank, i) && NearestRank(xs, rank, v)
    ensures Holds(s, i, v)
  {
    Ends(s);
    Adjacent(s, i);
    Cumulative(s, xs, buckets, i);
    assert 0 <= v by { assert v in xs; }
    if v > Upper(s, i) { WithinMonotone(xs, Upper(s, i), v - 1); }
    if i > 0 {
      Cumulative(s, xs, buckets, i - 1);
      Adjacent(s, i - 1);
      if v <= Upper(s, i - 1) { WithinMonotone(xs, v, Upper(s, i - 1)); }
    }
  }

  /** The nearest-rank sample's bucket is where the scan stops. */
  lemma RankReached(s: Scheme, xs: seq<int>, buckets: seq<int>, rank: nat, v: nat)
    requires Tallies(s, xs, buckets) && NearestRank(xs, rank, v) && v <= U64
    ensures Reaches(buckets, rank, BucketOf(s, v))
  {
    var i := BucketOf(s, v);
    Ends(s);
    RankWithin(s, xs, buckets, rank, v, i);
    RankBeyond(s, xs, buckets, rank, v, i);
  }

  lemma RankWithin(s: Scheme, xs: seq<int>, buckets: seq<int>, rank: nat, v: nat, i: nat)
    requires Tallies(s, xs, buckets) && NearestRank(xs, rank, v) && i < |buckets| && Holds(s, i, v)
    ensures rank <= Sum(buckets[..i + 1])
  {
    Cumulative(s, xs, buckets, i);
    WithinMonotone(xs, v, Upper(s, i));
  }

  lemma RankBeyond(s: Scheme, xs: seq<int>, buckets: seq<int>, rank: nat, v: nat, i: nat)
    requires Tallies(s, xs, buckets) && NearestRank(xs, rank, v) && i < |buckets| && Holds(s, i, v)
    ensures Sum(buckets[..i]) < rank
  {
    if i > 0 {
      Cumulative(s, xs, buckets, i - 1);
      Adjacent(s, i - 1);
      WithinMonotone(xs, Upper(s, i - 1), v - 1);
    } else {
      assert buckets[..0] == [];
      assert rank > Within(xs, 0, v - 1) >= 0;
    }
  }

  lemma ReachesOnce(buckets: seq<int>, rank: nat, i: nat, j: nat)
    requires Reaches(buckets, rank, i) && Reaches(buckets, rank, j)
    requires forall k | 0 <= k < |buckets| :: buckets[k] >= 0
    ensures i == j
  {
    if i < j { PrefixMonotone(buckets, i + 1, j); }
    if j < i { PrefixMonotone(buckets, j + 1, i); }
  }

  /** The least sample that at least this percentage of the samples do not exceed. */
  ghost predicate IsQuantile(xs: seq<int>, percentile: nat, v: int) {
    v in xs && 100 * Within(xs, 0, v - 1) < percentile * |xs| <= 100 * Within(xs, 0, v)
  }

  /** The interval reported for a percentile: the bucket of that sample, none for an empty population. */
  ghost predicate IsPercentile(s: Scheme, xs: seq<int>, percentile: nat, reported: Option<Interval>) {
    if xs == [] then reported == None
    else exists v: nat :: v <= U64 && IsQuantile(xs, percentile, v) && reported == Some(BucketAround(s, v))
  }

  ghost function BucketAround(s: Scheme, v: nat): Interval
    requires v <= U64
  {
    Interval(Lower(s, BucketOf(s, v)), Upper(s, BucketOf(s, v)))
  }

  /** The sample of the computed rank is the least one that covers the percentage. */
  lemma QuantileIsNearestRank(xs: seq<int>, percentile: nat, v: int)
    ensures IsQuantile(xs, percentile, v) <==> NearestRank(xs, Rank(|xs|, percentile), v)
  {
    RankLeast(|xs|, percentile, Within(xs, 0, v - 1));
    RankLeast(|xs|, percentile, Within(xs, 0, v));
  }

  /** The interval computed from the counts is the bucket of the nearest-rank sample. */
  method Percentile(s: Scheme, buckets: seq<int>, percentile: nat) returns (r: Option<Interval>)
    requires 1 <= percentile <= 100 && |buckets| == s.Size() && forall k | 0 <= k < |buckets| :: buckets[k] >= 0
    ensures forall xs | Tallies(s, xs, buckets) :: IsPercentile(s, xs, percentile, r)
    ensures forall xs, q | Tallies(s, xs, buckets) && IsPercentile(s, xs, percentile, q) :: q == r
  {
    var total := Total(buckets);
    SumNonNegative(buckets);
    r := None;
    if total > 0 {
      RankInRange(total, percentile);
      var found := Scan(buckets, Rank(total, percentile));
      assert buckets[..|buckets|] == buckets;
      var i := found.value;
      r := Some(Interval(Lower(s, i), Upper(s, i)));
      forall xs | Tallies(s, xs, buckets)
        ensures IsPercentile(s, xs, percentile, r) && forall q | IsPercentile(s, xs, percentile, q) :: q == r
      {
        TallySize(s, xs, buckets);
        FoundIsPercentile(s, xs, buckets, percentile, i);
      }
    } else {
      forall xs | Tallies(s, xs, buckets) ensures xs == [] { TallySize(s, xs, buckets); }
    }
  }

  method Total(buckets: seq<int>) returns (total: int)
    ensures total == Sum(buckets)
  {
    total := 0;
    assert buckets[..0] == [];
    for i := 0 to |buckets|
      invariant total == Sum(buckets[..i])
    {
      SumLast(buckets[..i + 1]);
      assert buckets[..i + 1][..i] == buckets[..i];
      total := total + buckets[i];
    }
    assert buckets[..|buckets|] == buckets;
  }

  lemma FoundIsPercentile(s: Scheme, xs: seq<int>, buckets: seq<int>, percentile: nat, i: nat)
    requires 1 <= percentile <= 100 && Tallies(s, xs, buckets) && xs != []
    requires Reaches(buckets, Rank(|xs|, percentile), i) && forall k | 0 <= k < |buckets| :: buckets[k] >= 0
    ensures forall q :: IsPercentile(s, xs, percentile, q) <==> q == Some(Interval(Lower(s, i), Upper(s, i)))
  {
    var rank := Rank(|xs|, percentile);
    RankInRange(|xs|, percentile);
    WithinAll(xs, 0, U64);
    var v := RankExists(xs, rank, U64);
    QuantileIsNearestRank(xs, percentile, v);
    RankReached(s, xs, buckets, rank, v);
    ReachesOnce(buckets, rank, i, BucketOf(s, v));
    forall u: nat | u <= U64 && IsQuantile(xs, percentile, u) ensures BucketOf(s, u) == i {
      QuantileIsNearestRank(xs, percentile, u);
      RankReached(s, xs, buckets, rank, u);
      ReachesOnce(buckets, rank, i, BucketOf(s, u));
    }
  }
}
