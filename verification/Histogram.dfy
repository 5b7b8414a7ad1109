/**
 The aggregate histogram check: from bucket counts, extrema, sum and percentiles alone it accepts
 exactly the reports that some collection of samples could have produced.
 */
module Histogram {
  import opened Wrappers
  import opened Buckets
  import opened Samples
  import opened Quantiles
  import opened Reconstruction

  datatype Report = Report(
    raw: Raw, mean: Option<real>, p50: Option<Interval>, p95: Option<Interval>, p99: Option<Interval>)

  function Abs(x: real): real { if x >= 0.0 then x else -x }

  /** Equal up to one part in 10^14 of the larger. */
  predicate Close(a: real, b: real) {
    Abs(a - b) <= 0.000_000_000_000_01 * (if Abs(a) >= Abs(b) then Abs(a) else Abs(b))
  }

  /** The reported mean is that of the count and sum, and there is none of nothing. */
  predicate MeanFits(mean: Option<real>, count: int, sum: int) {
    if count == 0 then mean == None else mean.Some? && Close(mean.value, sum as real / count as real)
  }

  /** The mean is within one part in 10^14, its own or the exact mean's, of the number that times the count is
      the sum; no samples have no mean. */
  ghost predicate IsMean(mean: Option<real>, count: int, sum: int) {
    if count == 0 then mean == None
    else mean.Some? && exists exact :: MeanIs(exact, count, sum) && Nearly(mean.value, exact)
  }

  ghost predicate MeanIs(exact: real, count: int, sum: int) { exact * count as real == sum as real }

  ghost predicate Nearly(a: real, b: real) { PartOf(a - b, a) || PartOf(a - b, b) }

  ghost predicate PartOf(d: real, x: real) { 100_000_000_000_000.0 * Abs(d) <= Abs(x) }

  lemma MeanExact(mean: Option<real>, count: int, sum: int)
    requires count >= 0
    ensures MeanFits(mean, count, sum) <==> IsMean(mean, count, sum)
  {
    if count > 0 && mean.Some? {
      var q := sum as real / count as real;
      CloseIsNearly(mean.value, q);
      forall exact: real ensures MeanIs(exact, count, sum) <==> exact == q {
        QuotientUnique(exact, sum as real, count as real);
      }
    }
  }

  lemma QuotientUnique(q: real, s: real, n: real)
    requires n > 0.0
    ensures q * n == s <==> q == s / n
  {
  }

  lemma CloseIsNearly(a: real, b: real)
    ensures Close(a, b) <==> Nearly(a, b)
  {
  }

  /** The report is the one these samples produce. */
  ghost predicate Describes(h: Report, xs: seq<int>) {
    var r := h.raw;
    && r.valid && r.count == |xs| <= U64 && r.sum == Sum(xs) <= U64 && IsMean(h.mean, |xs|, Sum(xs))
    && ((xs == [] && r.buckets == []) || Tallies(LogLinear, xs, r.buckets))
    && (if xs == [] then r.min == None && r.max == None
        else r.min.Some? && r.max.Some? && IsMin(xs, r.min.value) && IsMax(xs, r.max.value))
    && IsPercentile(LogLinear, xs, 50, h.p50) && IsPercentile(LogLinear, xs, 95, h.p95)
    && IsPercentile(LogLinear, xs, 99, h.p99)
  }

  ghost predicate Shaped(r: Raw) {
    && r.valid && Uint(r.count) && Uint(r.sum) && |r.buckets| in {0, 3776}
    && (forall i | 0 <= i < |r.buckets| :: Uint(r.buckets[i])) && Sum(r.buckets) == r.count
  }

  // ----- the check

  /** The outermost occupied buckets. */
  method Outermost(buckets: seq<int>) returns (first: nat, last: nat)
    requires Sum(buckets) > 0
    ensures FirstUsed(buckets, first) && LastUsed(buckets, last)
  {
    if forall i | 0 <= i < |buckets| :: buckets[i] == 0 {
      SumConstant(buckets, 0);
    }
    first := 0;
    while buckets[first] == 0
      invariant first < |buckets| && forall j | 0 <= j < first :: buckets[j] == 0
      decreases |buckets| - first
    {
      first := first + 1;
    }
    last := |buckets| - 1;
    while buckets[last] == 0
      invariant first <= last < |buckets| && forall j | last < j < |buckets| :: buckets[j] == 0
      decreases last
    {
      last := last - 1;
    }
  }

  /** The least and the greatest sum over the occupied buckets, and whether every one of them has
      a nonempty range. */
  method OccupiedSums(counts: seq<int>, lo: nat -> int, hi: nat -> int) returns (lower: int, upper: int, overlap: bool)
    ensures lower == Weighted(counts, lo, |counts|) && upper == Weighted(counts, hi, |counts|)
    ensures overlap <==> forall i | 0 <= i < |counts| && counts[i] != 0 :: lo(i) <= hi(i)
  {
    lower, upper, overlap := 0, 0, true;
    for i := 0 to |counts|
      invariant lower == Weighted(counts, lo, i) && upper == Weighted(counts, hi, i)
      invariant overlap <==> forall j | 0 <= j < i && counts[j] != 0 :: lo(j) <= hi(j)
    {
      if counts[i] != 0 {
        overlap := overlap && lo(i) <= hi(i);
        lower := lower + counts[i] * lo(i);
        upper := upper + counts[i] * hi(i);
      }
    }
  }

  /** Accepts a report if and only if some samples describe it. */
  method HistogramCheck(h: Report) returns (accepted: bool)
    ensures accepted <==> exists xs :: Describes(h, xs)
  {
    var r := h.raw;
    forall xs | Describes(h, xs) ensures Shaped(r) { DescribedShape(h, xs); }
    var shaped := CheckShape(r);
    if !shaped {
      return false;
    }
    if r.count == 0 {
      accepted := r.sum == 0 && r.min == None && r.max == None
                  && h.mean == None && h.p50 == None && h.p95 == None && h.p99 == None;
      if accepted { EmptyDescribed(h); }
      forall xs | Describes(h, xs) ensures xs == [] {}
      return;
    }
    forall xs | Describes(h, xs) ensures Fits(LogLinear, r, xs) {}
    accepted := CheckRaw(r);
    var mean := CheckMean(h.mean, r.count, r.sum);
    if !accepted || !mean {
      return false;
    }
    var q50 := Percentile(LogLinear, r.buckets, 50);
    var q95 := Percentile(LogLinear, r.buckets, 95);
    var q99 := Percentile(LogLinear, r.buckets, 99);
    accepted := h.p50 == q50 && h.p95 == q95 && h.p99 == q99;
    if accepted {
      ghost var xs :| Fits(LogLinear, r, xs);
      assert Describes(h, xs);
    }
  }

  method CheckMean(mean: Option<real>, count: int, sum: int) returns (ok: bool)
    requires count >= 0
    ensures ok <==> IsMean(mean, count, sum)
  {
    MeanExact(mean, count, sum);
    ok := MeanFits(mean, count, sum);
  }

  method CheckShape(r: Raw) returns (ok: bool)
    ensures ok <==> Shaped(r)
  {
    var total := Total(r.buckets);
    ok := r.valid && Uint(r.count) && Uint(r.sum) && |r.buckets| in {0, 3776}
          && (forall i | 0 <= i < |r.buckets| :: Uint(r.buckets[i])) && total == r.count;
  }

  /** The integer conditions on a nonempty population: exactly the realizable ones. */
  method CheckRaw(r: Raw) returns (ok: bool)
    requires Shaped(r) && r.count > 0
    ensures ok <==> exists xs :: Fits(LogLinear, r, xs)
  {
    var first, last := Outermost(r.buckets);
    forall xs | Fits(LogLinear, r, xs)
      ensures Bounded(LogLinear, r, first, last) && SumPossible(LogLinear, r, first, last)
    {
      var f, l := GenuineBounded(LogLinear, r, xs);
      assert f == first && l == last;
    }
    if r.min.None? || r.max.None? || !Uint(r.min.value) || !Uint(r.max.value) || r.min.value > r.max.value
       || !Holds(LogLinear, first, r.min.value) || !Holds(LogLinear, last, r.max.value) {
      return false;
    }
    var lower, upper, overlap := OccupiedSums(r.buckets, Lows(LogLinear, r.min.value), Highs(LogLinear, r.max.value));
    NeverClipped(LogLinear, r, first, last);
    if !overlap {
      return false;
    }
    if r.count == 1 {
      if !(r.min.value == r.max.value == r.sum) {
        return false;
      }
    } else {
      lower := lower + r.max.value - ClipLow(LogLinear, last, r.min.value);
      upper := upper - (ClipHigh(LogLinear, first, r.max.value) - r.min.value);
    }
    ok := lower <= r.sum <= upper;
    if ok {
      ghost var xs := Realize(LogLinear, r, first, last);
      assert Fits(LogLinear, r, xs);
    }
  }

  lemma DescribedShape(h: Report, xs: seq<int>)
    requires Describes(h, xs)
    ensures Shaped(h.raw)
  {
    if h.raw.buckets != [] {
      TalliesShaped(xs, h.raw.buckets);
    }
  }

  lemma TalliesShaped(xs: seq<int>, buckets: seq<int>)
    requires Tallies(LogLinear, xs, buckets) && |xs| <= U64
    ensures |buckets| == 3776 && Sum(buckets) == |xs| && Sum(xs) >= 0
    ensures forall i | 0 <= i < |buckets| :: Uint(buckets[i])
  {
    TallySize(LogLinear, xs, buckets);
    SumNonNegative(buckets);
    assert forall k | 0 <= k < |xs| :: xs[k] in xs;
    SumNonNegative(xs);
  }

  lemma EmptyDescribed(h: Report)
    requires Shaped(h.raw) && h.raw.count == 0 && h.raw.sum == 0 && h.raw.min == None && h.raw.max == None
    requires h.mean == None && h.p50 == None && h.p95 == None && h.p99 == None
    ensures Describes(h, [])
  {
    SumNonNegative(h.raw.buckets);
  }

  // ----- a concrete producer

  lemma ConstantMean(count: nat, sample: nat)
    requires count > 0
    ensures IsMean(Some(sample as real), count, count * sample)
  {
    assert MeanIs(sample as real, count, count * sample);
  }

  /** Builds the report of `count` equal samples; fails when no bucket holds the sample. It is
      acceptable exactly when its count and sum fit 64 bits. */
  method Constant(count: nat, sample: nat) returns (h: Option<Report>)
    ensures h.Some? <==> count == 0 || sample <= U64
    ensures h.Some? && count <= U64 && count * sample <= U64 ==> Describes(h.value, Repeated(count, sample))
    ensures h.Some? ==> ((exists xs :: Describes(h.value, xs)) <==> count <= U64 && count * sample <= U64)
  {
    if count == 0 {
      h := Some(Report(Raw(0, 0, None, None, true, []), None, None, None, None));
      assert Describes(h.value, Repeated(count, sample));
      return;
    }
    var slot := FindSlot(LogLinear, sample);
    if slot.None? {
      return None;
    }
    var buckets := new int[3776](_ => 0);
    buckets[slot.value] := count;
    var interval := Some(Interval(Lower(LogLinear, slot.value), Upper(LogLinear, slot.value)));
    var r := Raw(count, count * sample, Some(sample), Some(sample), true, buckets[..]);
    h := Some(Report(r, Some(sample as real), interval, interval, interval));
    ConstantDescribes(count, sample, h.value);
  }

  lemma ConstantDescribes(count: nat, sample: nat, h: Report)
    requires count > 0 && sample <= U64
    requires var slot := BucketOf(LogLinear, sample);
             var q := Some(Interval(Lower(LogLinear, slot), Upper(LogLinear, slot)));
             && h == Report(Raw(count, count * sample, Some(sample), Some(sample), true, h.raw.buckets),
                            Some(sample as real), q, q, q)
             && |h.raw.buckets| == 3776
             && forall i | 0 <= i < 3776 :: h.raw.buckets[i] == if i == slot then count else 0
    ensures count <= U64 && count * sample <= U64 ==> Describes(h, Repeated(count, sample))
  {
    ConstantMean(count, sample);
    RepeatedTallies(LogLinear, count, sample, BucketOf(LogLinear, sample), h.raw.buckets);
    SumConstant(Repeated(count, sample), sample);
    RepeatedPercentile(LogLinear, count, sample, 50);
    RepeatedPercentile(LogLinear, count, sample, 95);
    RepeatedPercentile(LogLinear, count, sample, 99);
    assert Repeated(count, sample)[0] == sample;
  }
}
