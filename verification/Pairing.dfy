/**
 Exactly when two latency tallies can come from calls in which every containing sample is at least
 the one it contains.
 */
module Pairing {
  import opened Buckets
  import opened Samples
  import opened Quantiles
  import opened Reconstruction
  import opened Containment

  ghost predicate Realizable(t: Tally) {
    exists xs :: Describes(t, xs)
  }

  /** Samples of both tallies that pair up with every containing one at least its partner. */
  ghost predicate Contains(a: Tally, b: Tally, xs: seq<int>, ys: seq<int>) {
    Describes(a, xs) && Describes(b, ys) && |xs| == |ys| && forall k | 0 <= k < |xs| :: xs[k] >= ys[k]
  }

  // ----- the extreme samples of a tally, in order

  /** The minimum first, then every sample as high as its bucket and the maximum allow. */
  ghost function Highest(t: Tally, bs: seq<nat>): seq<int>
    requires t.min.Some? && t.max.Some? && bs != []
  {
    Values(bs, Highs(LogLinear, t.max.value))[0 := t.min.value]
  }

  /** Every sample as low as its bucket and the minimum allow, then the maximum. */
  ghost function Lowest(t: Tally, bs: seq<nat>): seq<int>
    requires t.min.Some? && t.max.Some? && bs != []
  {
    Values(bs, Lows(LogLinear, t.min.value))[|bs| - 1 := t.max.value]
  }

  /** What is known of the buckets of a nonempty tally, in order. */
  ghost predicate Ordered(t: Tally, bs: seq<nat>) {
    && bs != [] && |bs| == t.count && |t.buckets| == 3776 && Occupancy(bs, t.buckets)
    && t.min.Some? && t.max.Some? && Uint(t.min.value) && Uint(t.max.value) && t.min.value <= t.max.value
    && (forall k | 0 <= k < |bs| :: bs[k] < 3776) && (forall j, k | 0 <= j <= k < |bs| :: bs[j] <= bs[k])
    && Holds(LogLinear, bs[0], t.min.value) && Holds(LogLinear, bs[|bs| - 1], t.max.value)
    && (|bs| == 1 ==> t.min.value == t.max.value)
  }

  function RawOf(t: Tally, sum: int): Raw {
    Raw(t.count, sum, t.min, t.max, true, t.buckets)
  }

  lemma TallyOrdered(t: Tally, zs: seq<int>)
    requires Describes(t, zs) && zs != []
    ensures (forall i | 0 <= i < |t.buckets| :: t.buckets[i] >= 0) && Ordered(t, Spread(t.buckets, |t.buckets|))
  {
    var r := RawOf(t, Sum(zs));
    var first, last := GenuineBounded(LogLinear, r, zs);
    TallySize(LogLinear, zs, t.buckets);
    SpreadOccupancy(t.buckets);
    SpreadEntries(t.buckets, |t.buckets|);
    SpreadEnds(LogLinear, r, first, last);
  }

  /** The clipped range of an occupied bucket is not empty. */
  lemma ClippedRange(t: Tally, bs: seq<nat>, k: nat)
    requires Ordered(t, bs) && k < |bs|
    ensures ClipLow(LogLinear, bs[k], t.min.value) <= ClipHigh(LogLinear, bs[k], t.max.value)
  {
    Adjacent(LogLinear, bs[k]);
    if bs[0] < bs[k] { Ascending(LogLinear, bs[0], bs[k]); }
    if bs[k] < bs[|bs| - 1] { Ascending(LogLinear, bs[k], bs[|bs| - 1]); }
  }

  lemma DescribesFrom(t: Tally, bs: seq<nat>, xs: seq<int>)
    requires Ordered(t, bs) && Placed(LogLinear, bs, xs) && IsMin(xs, t.min.value) && IsMax(xs, t.max.value)
    requires forall x | x in xs :: 0 <= x <= U64
    ensures Describes(t, xs)
  {
    PlacedOccupancy(LogLinear, bs, xs, t.buckets);
  }

  lemma ExtremesDescribe(t: Tally, bs: seq<nat>)
    requires Ordered(t, bs)
    ensures Describes(t, Highest(t, bs)) && Describes(t, Lowest(t, bs))
  {
    var lows, highs := Lowest(t, bs), Highest(t, bs);
    if |bs| == 1 {
      assert lows == highs == [t.min.value];
      DescribesFrom(t, bs, lows);
    } else {
      forall k | 0 <= k < |bs| ensures lows[k] <= highs[k] { ClippedRange(t, bs, k); }
      ChosenFit(LogLinear, bs, lows, highs, lows, t.min.value, t.max.value);
      DescribesFrom(t, bs, lows);
      ChosenFit(LogLinear, bs, lows, highs, highs, t.min.value, t.max.value);
      DescribesFrom(t, bs, highs);
    }
  }

  lemma HighestLast(t: Tally, bs: seq<nat>)
    requires Ordered(t, bs)
    ensures Highest(t, bs)[|bs| - 1] == t.max.value
  {
  }

  // ----- order statistics compare

  /** Prefix counts that never exceed put each containing order statistic in a bucket at or after the other's. */
  lemma RanksOrdered(a: seq<int>, b: seq<int>, k: nat)
    requires |a| == |b| && (forall i | 0 <= i < |a| :: a[i] >= 0 && b[i] >= 0) && PrefixesBelow(a, b, |a|)
    requires k < |Spread(a, |a|)| && k < |Spread(b, |b|)|
    ensures Spread(b, |b|)[k] <= Spread(a, |a|)[k]
  {
    SpreadAt(a, |a|, k);
    SpreadAt(b, |b|, k);
    var i, j := Spread(a, |a|)[k], Spread(b, |b|)[k];
    if i < j { PrefixMonotone(b, i + 1, j); }
  }

  /** The containing samples as high, the contained ones as low as they can be. */
  lemma ExtremesContain(a: Tally, b: Tally, bs: seq<nat>, cs: seq<nat>, k: nat)
    requires Ordered(a, bs) && Ordered(b, cs) && |bs| == |cs| && k < |bs| && cs[k] <= bs[k]
    requires a.min.value >= b.min.value && a.max.value >= b.max.value
    ensures Highest(a, bs)[k] >= Lowest(b, cs)[k]
  {
    var last := |bs| - 1;
    Adjacent(LogLinear, bs[k]);
    Adjacent(LogLinear, cs[k]);
    assert Lower(LogLinear, cs[k]) <= Upper(LogLinear, bs[k]) by {
      if cs[k] < bs[k] { Ascending(LogLinear, cs[k], bs[k]); }
    }
    assert b.min.value <= Upper(LogLinear, bs[k]) by {
      if cs[0] < bs[k] { Ascending(LogLinear, cs[0], bs[k]); }
    }
    assert Lower(LogLinear, cs[k]) <= a.max.value by {
      if cs[k] < bs[last] { Ascending(LogLinear, cs[k], bs[last]); }
    }
    HighestLast(a, bs);
  }

  // ----- the theorem

  lemma DominatedPair(a: Tally, b: Tally) returns (xs: seq<int>, ys: seq<int>)
    requires Realizable(a) && Realizable(b) && a.count == b.count != 0
    requires a.min.Some? && a.max.Some? && b.min.Some? && b.max.Some? && Dominates(a, b)
    ensures Contains(a, b, xs, ys)
  {
    var us :| Describes(a, us);
    var vs :| Describes(b, vs);
    TallyOrdered(a, us);
    TallyOrdered(b, vs);
    var bs, cs := Spread(a.buckets, |a.buckets|), Spread(b.buckets, |b.buckets|);
    xs, ys := Highest(a, bs), Lowest(b, cs);
    ExtremesDescribe(a, bs);
    ExtremesDescribe(b, cs);
    forall k | 0 <= k < |xs| ensures xs[k] >= ys[k] {
      RanksOrdered(a.buckets, b.buckets, k);
      ExtremesContain(a, b, bs, cs, k);
    }
  }

  /** Of tallies that samples have, the test accepts exactly those that contained samples have. */
  lemma ContainmentExact(a: Tally, b: Tally)
    requires Realizable(a) && Realizable(b)
    ensures (a.count == b.count && Dominates(a, b)) <==> exists xs, ys :: Contains(a, b, xs, ys)
  {
    if xs, ys :| Contains(a, b, xs, ys) {
      PairedPass(a, b, xs, ys);
    }
    if a.count == b.count && Dominates(a, b) {
      if a.count == 0 {
        var us :| Describes(a, us);
        var vs :| Describes(b, vs);
        assert Contains(a, b, us, vs);
      } else {
        var xs, ys := DominatedPair(a, b);
      }
    }
  }
}
