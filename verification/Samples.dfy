/** Finite sample collections: sums, interval counts, grouping by bucket and nearest ranks. */
module Samples {

  function Sum(s: seq<int>): int {
    if s == [] then 0 else s[0] + Sum(s[1..])
  }

  lemma {:induction false} SumAppend(a: seq<int>, b: seq<int>)
    ensures Sum(a + b) == Sum(a) + Sum(b)
  {
    if a == [] {
      assert a + b == b;
    } else {
      assert (a + b)[1..] == a[1..] + b;
      SumAppend(a[1..], b);
    }
  }

  lemma SumLast(s: seq<int>)
    requires s != []
    ensures Sum(s) == Sum(s[..|s| - 1]) + s[|s| - 1]
  {
    assert s == s[..|s| - 1] + [s[|s| - 1]];
    SumAppend(s[..|s| - 1], [s[|s| - 1]]);
  }

  lemma {:induction false} SumUpdate(s: seq<int>, k: nat, v: int)
    requires k < |s|
    ensures Sum(s[k := v]) == Sum(s) - s[k] + v
  {
    if k > 0 {
      assert s[k := v][1..] == s[1..][k - 1 := v];
      SumUpdate(s[1..], k - 1, v);
    } else {
      assert s[k := v][1..] == s[1..];
    }
  }

  lemma {:induction false} SumOrdered(a: seq<int>, b: seq<int>)
    requires |a| == |b| && forall k | 0 <= k < |a| :: a[k] <= b[k]
    ensures Sum(a) <= Sum(b)
  {
    if a != [] {
      SumOrdered(a[1..], b[1..]);
    }
  }

  lemma {:induction false} SumNonNegative(s: seq<int>)
    requires forall k | 0 <= k < |s| :: s[k] >= 0
    ensures Sum(s) >= 0
    ensures forall k | 0 <= k < |s| :: s[k] <= Sum(s)
  {
    if s != [] {
      SumNonNegative(s[1..]);
      forall k | 0 <= k < |s| ensures s[k] <= Sum(s) {
        assert k > 0 ==> s[k] == s[1..][k - 1];
      }
    }
  }

  /** Values of `f` over the elements of `s`. */
  function Values<T>(s: seq<T>, f: T -> int): (r: seq<int>)
    ensures |r| == |s| && forall k | 0 <= k < |s| :: r[k] == f(s[k])
  {
    seq(|s|, k requires 0 <= k < |s| => f(s[k]))
  }

  lemma {:induction false} PrefixMonotone(s: seq<int>, i: nat, j: nat)
    requires i <= j <= |s| && forall k | 0 <= k < |s| :: s[k] >= 0
    ensures Sum(s[..i]) <= Sum(s[..j])
  {
    if i < j {
      PrefixMonotone(s, i, j - 1);
      SumLast(s[..j]);
      assert s[..j][..j - 1] == s[..j - 1];
    }
  }

  // ----- grouping by bucket

  function Occurs(s: seq<nat>, i: nat): nat {
    if s == [] then 0 else (if s[0] == i then 1 else 0) + Occurs(s[1..], i)
  }

  lemma {:induction false} OccursAppend(a: seq<nat>, b: seq<nat>, i: nat)
    ensures Occurs(a + b, i) == Occurs(a, i) + Occurs(b, i)
  {
    if a == [] {
      assert a + b == b;
    } else {
      assert (a + b)[1..] == a[1..] + b;
      OccursAppend(a[1..], b, i);
    }
  }

  lemma {:induction false} OccursSome(s: seq<nat>, i: nat)
    ensures Occurs(s, i) > 0 <==> i in s
  {
    if s != [] {
      OccursSome(s[1..], i);
      assert s == [s[0]] + s[1..];
    }
  }

  /** The first `n` counts weighted by `f`. */
  function Weighted(counts: seq<int>, f: nat -> int, n: nat): int
    requires n <= |counts|
  {
    if n == 0 then 0 else Weighted(counts, f, n - 1) + counts[n - 1] * f(n - 1)
  }

  /** `counts` is the occupancy of the buckets `s` falls into. */
  ghost predicate Occupancy(s: seq<nat>, counts: seq<int>) {
    && (forall k | 0 <= k < |s| :: s[k] < |counts|)
    && (forall i | 0 <= i < |counts| :: counts[i] == Occurs(s, i))
  }

  /** Summing over samples is summing over buckets. */
  lemma {:induction false} Grouping(s: seq<nat>, counts: seq<int>, f: nat -> int)
    requires Occupancy(s, counts)
    ensures Sum(Values(s, f)) == Weighted(counts, f, |counts|)
  {
    if s == [] {
      WeightedZero(counts, f, |counts|);
    } else {
      var b := s[0];
      var rest := counts[b := counts[b] - 1];
      assert Values(s, f)[1..] == Values(s[1..], f);
      Grouping(s[1..], rest, f);
      WeightedUpdate(counts, f, b, counts[b] - 1, |counts|);
    }
  }

  lemma {:induction false} WeightedZero(counts: seq<int>, f: nat -> int, n: nat)
    requires n <= |counts| && forall i | 0 <= i < n :: counts[i] == 0
    ensures Weighted(counts, f, n) == 0
  {
    if n > 0 { WeightedZero(counts, f, n - 1); }
  }

  lemma {:induction false} WeightedUpdate(counts: seq<int>, f: nat -> int, b: nat, v: int, n: nat)
    requires b < |counts| && n <= |counts|
    ensures Weighted(counts[b := v], f, n) == Weighted(counts, f, n) + if b < n then (v - counts[b]) * f(b) else 0
  {
    if n > 0 { WeightedUpdate(counts, f, b, v, n - 1); }
  }

  lemma {:induction false} SumConstant(s: seq<int>, c: int)
    requires forall k | 0 <= k < |s| :: s[k] == c
    ensures Sum(s) == |s| * c
  {
    if s != [] { SumConstant(s[1..], c); }
  }

  /** The buckets in order, each as often as it is counted. */
  function Spread(counts: seq<int>, n: nat): (r: seq<nat>)
    requires n <= |counts| && forall i | 0 <= i < n :: counts[i] >= 0
  {
    if n == 0 then [] else Spread(counts, n - 1) + Copies(counts[n - 1], n - 1)
  }

  /** The entries the last bucket adds. */
  function Copies(count: nat, i: nat): (r: seq<nat>)
    ensures |r| == count && forall k | 0 <= k < count :: r[k] == i
  {
    seq(count, _ => i)
  }

  /** Entries are occupied buckets in order. */
  lemma {:induction false} SpreadEntries(counts: seq<int>, n: nat)
    requires n <= |counts| && forall i | 0 <= i < |counts| :: counts[i] >= 0
    ensures forall k | 0 <= k < |Spread(counts, n)| :: Spread(counts, n)[k] < n && counts[Spread(counts, n)[k]] > 0
    ensures forall j, k | 0 <= j <= k < |Spread(counts, n)| :: Spread(counts, n)[j] <= Spread(counts, n)[k]
  {
    if n > 0 { SpreadEntries(counts, n - 1); }
  }

  lemma {:induction false} SpreadOccurs(counts: seq<int>, n: nat, i: nat)
    requires n <= |counts| && forall j | 0 <= j < |counts| :: counts[j] >= 0
    ensures Occurs(Spread(counts, n), i) == if i < n then counts[i] else 0
  {
    if n > 0 {
      SpreadOccurs(counts, n - 1, i);
      OccursAppend(Spread(counts, n - 1), Copies(counts[n - 1], n - 1), i);
      OccursSame(Copies(counts[n - 1], n - 1), n - 1, i);
    }
  }

  lemma PrefixSum(counts: seq<int>, n: nat)
    requires n < |counts|
    ensures Sum(counts[..n + 1]) == Sum(counts[..n]) + counts[n]
  {
    SumLast(counts[..n + 1]);
    assert counts[..n + 1][..n] == counts[..n];
  }

  lemma {:induction false} SpreadSize(counts: seq<int>, n: nat)
    requires n <= |counts| && forall j | 0 <= j < |counts| :: counts[j] >= 0
    ensures |Spread(counts, n)| == Sum(counts[..n])
  {
    if n > 0 {
      SpreadSize(counts, n - 1);
      PrefixSum(counts, n - 1);
    }
  }

  /** Where an order statistic lies: before it are the smaller buckets' counts, and its own reaches past it. */
  lemma {:induction false} SpreadAt(counts: seq<int>, n: nat, k: nat)
    requires n <= |counts| && (forall j | 0 <= j < |counts| :: counts[j] >= 0) && k < |Spread(counts, n)|
    ensures var i := Spread(counts, n)[k]; i < n && Sum(counts[..i]) <= k < Sum(counts[..i + 1])
  {
    SpreadSize(counts, n);
    if n > 0 {
      SpreadSize(counts, n - 1);
      PrefixSum(counts, n - 1);
      if k < |Spread(counts, n - 1)| {
        SpreadAt(counts, n - 1, k);
      } else {
        assert Spread(counts, n)[k] == n - 1;
      }
    }
  }

  lemma {:induction false} OccursSame(s: seq<nat>, b: nat, i: nat)
    requires forall k | 0 <= k < |s| :: s[k] == b
    ensures Occurs(s, i) == if i == b then |s| else 0
  {
    if s != [] { OccursSame(s[1..], b, i); }
  }

  lemma SpreadOccupancy(counts: seq<int>)
    requires forall i | 0 <= i < |counts| :: counts[i] >= 0
    ensures Occupancy(Spread(counts, |counts|), counts)
    ensures |Spread(counts, |counts|)| == Sum(counts)
  {
    forall i | 0 <= i < |counts| ensures counts[i] == Occurs(Spread(counts, |counts|), i) {
      SpreadOccurs(counts, |counts|, i);
    }
    SpreadSize(counts, |counts|);
    SpreadEntries(counts, |counts|);
    assert counts[..|counts|] == counts;
  }

  /** Any total between the least and the greatest is reached by choosing within the intervals. */
  lemma {:induction false} Choose(lows: seq<int>, highs: seq<int>, total: int) returns (xs: seq<int>)
    requires |lows| == |highs| && forall k | 0 <= k < |lows| :: lows[k] <= highs[k]
    requires Sum(lows) <= total <= Sum(highs)
    ensures |xs| == |lows| && Sum(xs) == total && forall k | 0 <= k < |xs| :: lows[k] <= xs[k] <= highs[k]
  {
    if lows == [] {
      return [];
    }
    SumOrdered(lows[1..], highs[1..]);
    var slack := total - Sum(lows);
    var x := if slack <= highs[0] - lows[0] then lows[0] + slack else highs[0];
    var rest := Choose(lows[1..], highs[1..], total - x);
    xs := [x] + rest;
  }

  // ----- ranks

  /** How many samples lie in `[lo, hi]`. */
  function Within(xs: seq<int>, lo: int, hi: int): (n: nat)
    ensures n <= |xs|
  {
    if xs == [] then 0 else (if lo <= xs[0] <= hi then 1 else 0) + Within(xs[1..], lo, hi)
  }

  lemma {:induction false} WithinSplit(xs: seq<int>, lo: int, mid: int, hi: int)
    requires lo <= mid + 1 && mid <= hi
    ensures Within(xs, lo, hi) == Within(xs, lo, mid) + Within(xs, mid + 1, hi)
  {
    if xs != [] { WithinSplit(xs[1..], lo, mid, hi); }
  }

  lemma {:induction false} WithinSome(xs: seq<int>, lo: int, hi: int)
    requires Within(xs, lo, hi) > 0
    ensures exists x :: x in xs && lo <= x <= hi
  {
    if lo <= xs[0] <= hi {
      assert xs[0] in xs;
    } else {
      WithinSome(xs[1..], lo, hi);
      var x :| x in xs[1..] && lo <= x <= hi;
      assert x in xs;
    }
  }

  lemma {:induction false} WithinAll(xs: seq<int>, lo: int, hi: int)
    requires forall x | x in xs :: lo <= x <= hi
    ensures Within(xs, lo, hi) == |xs|
  {
    if xs != [] {
      assert xs[0] in xs && forall x | x in xs[1..] :: x in xs;
      WithinAll(xs[1..], lo, hi);
    }
  }

  /** `v` is the sample at position `rank` (from one) of the samples in increasing order. */
  ghost predicate NearestRank(xs: seq<int>, rank: nat, v: int) {
    v in xs && Within(xs, 0, v - 1) < rank <= Within(xs, 0, v)
  }

  lemma {:induction false} RankExists(xs: seq<int>, rank: nat, top: nat) returns (v: nat)
    requires 1 <= rank <= Within(xs, 0, top)
    ensures v <= top && NearestRank(xs, rank, v)
  {
    WithinSplit(xs, 0, top - 1, top);
    if top > 0 && Within(xs, 0, top - 1) >= rank {
      v := RankExists(xs, rank, top - 1);
    } else {
      v := top;
      if top == 0 { NoneBelow(xs); }
      WithinSome(xs, top, top);
    }
  }

  lemma {:induction false} NoneBelow(xs: seq<int>)
    ensures Within(xs, 0, -1) == 0
  {
    if xs != [] { NoneBelow(xs[1..]); }
  }

  lemma WithinMonotone(xs: seq<int>, a: int, b: int)
    requires -1 <= a <= b
    ensures Within(xs, 0, a) <= Within(xs, 0, b)
  {
    WithinSplit(xs, 0, a, b);
  }
}
