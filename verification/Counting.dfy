/** Sizes of finite sets and sums of finite sequences. */
module Counting {

  function Max(a: int, b: int): int { if a >= b then a else b }

  function Min(a: int, b: int): int { if a <= b then a else b }

  /** The integers in `[lo, hi)`. */
  function Numbers(lo: nat, hi: nat): (r: set<nat>)
    ensures forall n: nat :: n in r <==> lo <= n < hi
    ensures lo <= hi ==> |r| == hi - lo
    decreases hi - lo
  {
    if lo >= hi then {} else
      assert lo !in Numbers(lo + 1, hi);
      {lo} + Numbers(lo + 1, hi)
  }

  lemma {:induction false} SubsetSize<T>(a: set<T>, b: set<T>)
    requires a <= b
    ensures |a| <= |b| && (|a| == |b| ==> a == b)
  {
    assert b == a + (b - a);
    assert |b| == |a| + |b - a|;
  }

  /** A set listed without repetition has as many members as the list. */
  lemma {:induction false} ListedSize<T>(s: seq<T>)
    requires forall i, j | 0 <= i < j < |s| :: s[i] != s[j]
    ensures |set x | x in s| == |s|
  {
    if s != [] {
      ListedSize(s[1..]);
      assert (set x | x in s) == {s[0]} + (set x | x in s[1..]);
      assert s[0] !in s[1..];
    }
  }

  /** A map without repeated values has as many values as keys. */
  lemma {:induction false} ValuesSize<K, V>(m: map<K, V>)
    requires forall a, b | a in m && b in m && a != b :: m[a] != m[b]
    ensures |m.Values| == |m|
    decreases |m|
  {
    if k :| k in m {
      var rest := m - {k};
      ValuesSize(rest);
      assert m.Keys == rest.Keys + {k};
      assert m.Values == rest.Values + {m[k]} by {
        forall v ensures v in m.Values <==> v in rest.Values + {m[k]} {
          if v in m.Values {
            var a :| a in m && m[a] == v;
            if a != k { assert a in rest && rest[a] == v; }
          }
          if v in rest.Values {
            var a :| a in rest && rest[a] == v;
            assert a in m && m[a] == v;
          }
          assert k in m;
        }
      }
      assert m[k] !in rest.Values;
    } else {
      assert m.Values == {};
    }
  }

  /** Quotient and remainder are determined by the division equation. */
  lemma DivModUnique(a: nat, n: nat, q: int, r: int)
    requires n >= 1 && a == n * q + r && 0 <= r < n
    ensures a / n == q && a % n == r
  {
    var d := q - a / n;
    assert a == n * (a / n) + a % n;
    assert n * d == a % n - r by { assert n * (q - a / n) == n * q - n * (a / n); }
    if d >= 1 { MulAtLeast(n, d); }
    if d <= -1 { MulAtLeast(n, -d); }
  }

  lemma MulAtLeast(n: nat, d: int)
    requires d >= 1
    ensures n * d >= n
  {
    assert n * d == n * (d - 1) + n;
    assert n * (d - 1) >= 0;
  }

  /** Numbers less than `n` apart with the same remainder are equal. */
  lemma SameModulo(a: nat, b: nat, n: nat)
    requires n >= 1 && a <= b < a + n && a % n == b % n
    ensures a == b
  {
    var d := b / n - a / n;
    assert n * d == b - a by { assert n * (b / n - a / n) == n * (b / n) - n * (a / n); }
    if d >= 1 { MulAtLeast(n, d); }
    if d <= -1 { MulAtLeast(n, -d); }
  }

  /** Reducing a summand first does not change the remainder. */
  lemma ModuloAdds(a: nat, b: nat, n: nat)
    requires n >= 1
    ensures (a % n + b) % n == (a + b) % n
  {
    var q, r := (a % n + b) / n, (a % n + b) % n;
    assert n * (a / n + q) == n * (a / n) + n * q;
    DivModUnique(a + b, n, a / n + q, r);
  }

  lemma ModShift(a: nat, n: nat)
    requires n >= 1 && a >= n
    ensures a % n == (a - n) % n
  {
    var q := (a - n) / n;
    assert n * (q + 1) == n * q + n;
    DivModUnique(a, n, q + 1, (a - n) % n);
  }
}
