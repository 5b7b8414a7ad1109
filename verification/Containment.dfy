/**
 Paired latencies in which each containing sample is at least its contained one: the prefix-count
 test on bucket vectors, and the pairing that passing it yields.
 */
module Containment {
  import opened Wrappers
  import opened Buckets
  import opened Samples
  import opened Quantiles

  datatype Tally = Tally(count: int, min: Option<int>, max: Option<int>, buckets: seq<int>)

  function Shorter(a: seq<int>, b: seq<int>): nat {
    if |a| <= |b| then |a| else |b|
  }

  ghost predicate PrefixesBelow(a: seq<int>, b: seq<int>, n: nat)
    requires n <= |a| && n <= |b|
  {
    forall i | 0 <= i <= n :: Sum(a[..i]) <= Sum(b[..i])
  }

  ghost predicate Dominates(a: Tally, b: Tally)
    requires a.count != 0 ==> a.min.Some? && a.max.Some? && b.min.Some? && b.max.Some?
  {
    && a.count == b.count
    && (a.count != 0 ==> a.min.value >= b.min.value && a.max.value >= b.max.value
                         && PrefixesBelow(a.buckets, b.buckets, Shorter(a.buckets, b.buckets)))
  }

  method DominanceCheck(a: Tally, b: Tally) returns (ok: bool)
    requires a.count != 0 && a.count == b.count ==> a.min.Some? && a.max.Some? && b.min.Some? && b.max.Some?
    ensures ok <==> a.count == b.count && Dominates(a, b)
  {
    if a.count != b.count {
      return false;
    }
    if a.count == 0 {
      return true;
    }
    if a.min.value < b.min.value || a.max.value < b.max.value {
      return false;
    }
    var left, right := 0, 0;
    assert a.buckets[..0] == b.buckets[..0] == [];
    for i := 0 to Shorter(a.buckets, b.buckets)
      invariant left == Sum(a.buckets[..i]) && right == Sum(b.buckets[..i])
      invariant PrefixesBelow(a.buckets, b.buckets, i)
    {
      PrefixSum(a.buckets, i);
      PrefixSum(b.buckets, i);
      left, right := left + a.buckets[i], right + b.buckets[i];
      if left > right {
        return false;
      }
    }
    return true;
  }

  // ----- paired samples always pass

  ghost predicate Describes(t: Tally, xs: seq<int>) {
    && t.count == |xs| && Tallies(LogLinear, xs, t.buckets)
    && (xs != [] ==> t.min.Some? && t.max.Some? && t.min.value in xs && t.max.value in xs
                     && forall x | x in xs :: t.min.value <= x <= t.max.value)
  }

  lemma {:induction false} WithinPaired(xs: seq<int>, ys: seq<int>, hi: int)
    requires |xs| == |ys| && forall k | 0 <= k < |xs| :: 0 <= ys[k] <= xs[k]
    ensures Within(xs, 0, hi) <= Within(ys, 0, hi)
  {
    if xs != [] { WithinPaired(xs[1..], ys[1..], hi); }
  }

  /** Samples that pair up with every containing one at least its partner pass the check. */
  lemma PairedPass(a: Tally, b: Tally, xs: seq<int>, ys: seq<int>)
    requires Describes(a, xs) && Describes(b, ys) && |xs| == |ys| && forall k | 0 <= k < |xs| :: xs[k] >= ys[k]
    ensures Dominates(a, b)
  {
    if xs != [] {
      PairedExtremes(a, b, xs, ys);
      forall i: nat | i <= 3776 ensures Sum(a.buckets[..i]) <= Sum(b.buckets[..i]) {
        PairedPrefix(a.buckets, b.buckets, xs, ys, i);
      }
    }
  }

  lemma PairedExtremes(a: Tally, b: Tally, xs: seq<int>, ys: seq<int>)
    requires Describes(a, xs) && Describes(b, ys) && |xs| == |ys| > 0 && forall k | 0 <= k < |xs| :: xs[k] >= ys[k]
    ensures a.min.value >= b.min.value && a.max.value >= b.max.value
  {
    var k :| 0 <= k < |xs| && xs[k] == a.min.value;
    var j :| 0 <= j < |ys| && ys[j] == b.max.value;
    assert ys[k] in ys && xs[j] in xs;
  }

  lemma PairedPrefix(a: seq<int>, b: seq<int>, xs: seq<int>, ys: seq<int>, i: nat)
    requires Tallies(LogLinear, xs, a) && Tallies(LogLinear, ys, b) && i <= |a| == |b|
    requires |xs| == |ys| && forall k | 0 <= k < |xs| :: xs[k] >= ys[k]
    ensures Sum(a[..i]) <= Sum(b[..i])
  {
    if i > 0 {
      assert forall k | 0 <= k < |ys| :: ys[k] in ys;
      Cumulative(LogLinear, xs, a, i - 1);
      Cumulative(LogLinear, ys, b, i - 1);
      WithinPaired(xs, ys, Upper(LogLinear, i - 1));
    }
  }

  // ----- passing vectors admit a pairing by bucket

  function Without(xs: seq<int>, k: nat): (r: seq<int>)
    requires k < |xs|
    ensures |r| == |xs| - 1 && forall m | 0 <= m < |r| :: r[m] == if m < k then xs[m] else xs[m + 1]
  {
    xs[..k] + xs[k + 1..]
  }

  function With(xs: seq<int>, k: nat, y: int): (r: seq<int>)
    requires k <= |xs|
    ensures |r| == |xs| + 1
    ensures forall m | 0 <= m < |r| :: r[m] == if m < k then xs[m] else if m == k then y else xs[m - 1]
  {
    xs[..k] + [y] + xs[k..]
  }

  lemma Exchanged(ys: seq<int>, j: nat, rest: seq<int>, k: nat)
    requires j < |ys| && k <= |rest| && multiset(rest) == multiset(Without(ys, j))
    ensures multiset(With(rest, k, ys[j])) == multiset(ys)
  {
    WithMultiset(rest, k, ys[j]);
    WithMultiset(Without(ys, j), j, ys[j]);
    Rejoined(ys, j);
  }

  lemma Rejoined(ys: seq<int>, j: nat)
    requires j < |ys|
    ensures With(Without(ys, j), j, ys[j]) == ys
  {
  }

  lemma WithMultiset(xs: seq<int>, k: nat, y: int)
    requires k <= |xs|
    ensures multiset(With(xs, k, y)) == multiset(xs) + multiset{y}
  {
    assert xs == xs[..k] + xs[k..];
    assert multiset(xs[..k] + [y] + xs[k..]) == multiset(xs[..k]) + multiset{y} + multiset(xs[k..]);
  }

  lemma {:induction false} WithinWithout(xs: seq<int>, k: nat, lo: int, hi: int)
    requires k < |xs|
    ensures Within(xs, lo, hi) == Within(Without(xs, k), lo, hi) + if lo <= xs[k] <= hi then 1 else 0
  {
    if k > 0 {
      assert Without(xs, k)[1..] == Without(xs[1..], k - 1);
      WithinWithout(xs[1..], k - 1, lo, hi);
    } else {
      assert Without(xs, k) == xs[1..];
    }
  }

  lemma {:induction false} AllWithin(xs: seq<int>, lo: int, hi: int)
    requires Within(xs, lo, hi) == |xs|
    ensures forall x | x in xs :: lo <= x <= hi
  {
    if xs != [] {
      AllWithin(xs[1..], lo, hi);
      assert xs == [xs[0]] + xs[1..];
    }
  }

  lemma {:induction false} Largest(xs: seq<int>) returns (k: nat)
    requires xs != []
    ensures k < |xs| && forall x | x in xs :: x <= xs[k]
  {
    if |xs| == 1 {
      return 0;
    }
    assert xs == [xs[0]] + xs[1..];
    var j := Largest(xs[1..]);
    k := if xs[0] >= xs[1..][j] then 0 else j + 1;
  }

  ghost predicate Sample64(xs: seq<int>) {
    forall k | 0 <= k < |xs| :: 0 <= xs[k] <= U64
  }

  ghost predicate BelowAtBounds(xs: seq<int>, ys: seq<int>) {
    forall i: nat | i < 3776 :: Within(xs, 0, Upper(LogLinear, i)) <= Within(ys, 0, Upper(LogLinear, i))
  }

  /** Every containing sample's bucket is at or after its partner's. */
  ghost predicate BucketPaired(xs: seq<int>, ys: seq<int>) {
    && |xs| == |ys| && Sample64(xs) && Sample64(ys)
    && forall k | 0 <= k < |xs| :: BucketOf(LogLinear, ys[k]) <= BucketOf(LogLinear, xs[k])
  }

  /** The largest contained sample's bucket is not after the largest containing one's. */
  lemma TopPair(xs: seq<int>, ys: seq<int>, k: nat, j: nat)
    requires |xs| == |ys| && Sample64(xs) && Sample64(ys) && BelowAtBounds(xs, ys)
    requires k < |xs| && (forall x | x in xs :: x <= xs[k]) && j < |ys|
    ensures BucketOf(LogLinear, ys[j]) <= BucketOf(LogLinear, xs[k])
  {
    var top, i := BucketOf(LogLinear, xs[k]), BucketOf(LogLinear, ys[j]);
    WithinAll(xs, 0, Upper(LogLinear, top));
    AllWithin(ys, 0, Upper(LogLinear, top));
    assert ys[j] in ys;
    if top < i { Ascending(LogLinear, top, i); }
  }

  /** Taking the two largest samples away keeps the prefix condition. */
  lemma TopsRemoved(xs: seq<int>, ys: seq<int>, k: nat, j: nat, b: nat)
    requires |xs| == |ys| && Sample64(xs) && Sample64(ys) && BelowAtBounds(xs, ys) && b < 3776
    requires k < |xs| && j < |ys| && forall y | y in ys :: y <= ys[j]
    requires BucketOf(LogLinear, ys[j]) <= BucketOf(LogLinear, xs[k])
    ensures Within(Without(xs, k), 0, Upper(LogLinear, b)) <= Within(Without(ys, j), 0, Upper(LogLinear, b))
  {
    WithinWithout(xs, k, 0, Upper(LogLinear, b));
    WithinWithout(ys, j, 0, Upper(LogLinear, b));
    if ys[j] <= Upper(LogLinear, b) {
      WithinAll(ys, 0, Upper(LogLinear, b));
    } else {
      var i, top := BucketOf(LogLinear, ys[j]), BucketOf(LogLinear, xs[k]);
      if i <= b { Ascending(LogLinear, i, b); }
      Ascending(LogLinear, b, top);
    }
  }

  lemma {:induction false} Pair(xs: seq<int>, ys: seq<int>) returns (zs: seq<int>)
    requires |xs| == |ys| && Sample64(xs) && Sample64(ys) && BelowAtBounds(xs, ys)
    ensures multiset(zs) == multiset(ys) && BucketPaired(xs, zs)
    decreases |xs|
  {
    if xs == [] {
      return [];
    }
    var k := Largest(xs);
    var j := Largest(ys);
    TopPair(xs, ys, k, j);
    forall b: nat | b < 3776
      ensures Within(Without(xs, k), 0, Upper(LogLinear, b)) <= Within(Without(ys, j), 0, Upper(LogLinear, b))
    {
      TopsRemoved(xs, ys, k, j, b);
    }
    var rest := Pair(Without(xs, k), Without(ys, j));
    zs := With(rest, k, ys[j]);
    Exchanged(ys, j, rest, k);
    InsertPaired(xs, rest, k, ys[j]);
  }

  lemma InsertPaired(xs: seq<int>, rest: seq<int>, k: nat, y: int)
    requires k < |xs| && Sample64(xs) && BucketPaired(Without(xs, k), rest) && 0 <= y <= U64
    requires BucketOf(LogLinear, y) <= BucketOf(LogLinear, xs[k])
    ensures BucketPaired(xs, With(rest, k, y))
  {
    var zs := With(rest, k, y);
    forall m | 0 <= m < |xs| ensures 0 <= zs[m] <= U64 && BucketOf(LogLinear, zs[m]) <= BucketOf(LogLinear, xs[m]) {
      if m < k {
        assert Without(xs, k)[m] == xs[m] && zs[m] == rest[m];
      } else if m > k {
        assert Without(xs, k)[m - 1] == xs[m] && zs[m] == rest[m - 1];
      }
    }
  }

  /** Whatever samples are behind two passing vectors, they can be matched one to one so that each
      containing sample's bucket is at or after its partner's. */
  lemma PassYieldsPairing(a: Tally, b: Tally, xs: seq<int>, ys: seq<int>) returns (zs: seq<int>)
    requires Describes(a, xs) && Describes(b, ys) && a.count == b.count && Dominates(a, b)
    ensures multiset(zs) == multiset(ys) && BucketPaired(xs, zs)
  {
    forall i: nat | i < 3776 ensures Within(xs, 0, Upper(LogLinear, i)) <= Within(ys, 0, Upper(LogLinear, i)) {
      Cumulative(LogLinear, xs, a.buckets, i);
      Cumulative(LogLinear, ys, b.buckets, i);
      assert xs != [] ==> Sum(a.buckets[..i + 1]) <= Sum(b.buckets[..i + 1]);
    }
    assert forall k | 0 <= k < |xs| :: xs[k] in xs;
    assert forall k | 0 <= k < |ys| :: ys[k] in ys;
    zs := Pair(xs, ys);
  }
}
