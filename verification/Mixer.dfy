/**
 The 64-bit mixer that spreads nonces over keys, on nonnegative integers as in the source: `^` and
 `>>` are unbounded and `& U64` is the remainder modulo 2^64.
 */
module Mixer {
  import opened Buckets
  import opened Counting

  const M: nat := 0x1_0000_0000_0000_0000

  /** Python's `a ^ b` on nonnegative integers. */
  function Xor(a: nat, b: nat): nat
    decreases a + b
  {
    if a == 0 && b == 0 then 0 else (if a % 2 == b % 2 then 0 else 1) + 2 * Xor(a / 2, b / 2)
  }

  /** Python's `a >> k`. */
  function Shr(a: nat, k: nat): nat {
    if k == 0 then a else Shr(a / 2, k - 1)
  }

  // ----- exclusive or is a group operation that shifts distribute over

  lemma {:induction false} XorZero(a: nat)
    ensures Xor(a, 0) == a && Xor(0, a) == a
  {
    if a > 0 { XorZero(a / 2); }
  }

  lemma {:induction false} XorSelf(a: nat)
    ensures Xor(a, a) == 0
  {
    if a > 0 { XorSelf(a / 2); }
  }

  lemma {:induction false} XorCommutes(a: nat, b: nat)
    ensures Xor(a, b) == Xor(b, a)
    decreases a + b
  {
    if a + b > 0 { XorCommutes(a / 2, b / 2); }
  }

  lemma XorBits(a: nat, b: nat)
    ensures Xor(a, b) % 2 == (if a % 2 == b % 2 then 0 else 1) && Xor(a, b) / 2 == Xor(a / 2, b / 2)
  {
  }

  lemma {:induction false} XorAssociates(a: nat, b: nat, c: nat)
    ensures Xor(Xor(a, b), c) == Xor(a, Xor(b, c))
    decreases a + b + c
  {
    if a + b + c > 0 {
      XorAssociates(a / 2, b / 2, c / 2);
      XorBits(a, b);
      XorBits(b, c);
      XorBits(Xor(a, b), c);
      XorBits(a, Xor(b, c));
    }
  }

  lemma {:induction false} XorShr(a: nat, b: nat, k: nat)
    ensures Shr(Xor(a, b), k) == Xor(Shr(a, k), Shr(b, k))
    decreases k
  {
    if k > 0 {
      XorBits(a, b);
      XorShr(a / 2, b / 2, k - 1);
    }
  }

  lemma {:induction false} ShrShr(a: nat, j: nat, k: nat)
    ensures Shr(Shr(a, j), k) == Shr(a, j + k)
    decreases j
  {
    if j > 0 { ShrShr(a / 2, j - 1, k); }
  }

  lemma {:induction false} ShrVanishes(a: nat, n: nat, k: nat)
    requires a < Pow2(n) && n <= k
    ensures Shr(a, k) == 0
    decreases k
  {
    if k > 0 { ShrVanishes(a / 2, if n == 0 then 0 else n - 1, k - 1); }
  }

  lemma {:induction false} XorBound(a: nat, b: nat, n: nat)
    requires a < Pow2(n) && b < Pow2(n)
    ensures Xor(a, b) < Pow2(n)
    decreases n
  {
    if n > 0 { XorBound(a / 2, b / 2, n - 1); }
  }

  lemma {:induction false} ShrBound(a: nat, k: nat)
    ensures Shr(a, k) <= a
    decreases k
  {
    if k > 0 { ShrBound(a / 2, k - 1); }
  }

  lemma DoubledQuotient(a: nat, low: int, high: int)
    requires low <= a / 2 < high
    ensures 2 * low <= a < 2 * high
  {
  }

  lemma {:induction false} ShrQuotient(a: nat, k: nat)
    ensures Pow2(k) * Shr(a, k) <= a < Pow2(k) * Shr(a, k) + Pow2(k)
    decreases k
  {
    if k > 0 {
      ShrQuotient(a / 2, k - 1);
      var p, s := Pow2(k - 1), Shr(a / 2, k - 1);
      DoubledQuotient(a, p * s, p * s + p);
      DoubledProduct(p, s);
    }
  }

  lemma DoubledProduct(p: int, s: int)
    ensures (2 * p) * s == 2 * (p * s)
  {
  }

  // ----- each step and its inverse

  function Fold(x: nat, k: nat): nat {
    Xor(x, Shr(x, k))
  }

  function Unfold(y: nat, k: nat): nat {
    Xor(Xor(y, Shr(y, k)), Shr(y, 2 * k))
  }

  lemma XorCancels(a: nat, b: nat)
    ensures Xor(Xor(a, b), b) == a && Xor(b, Xor(b, a)) == a && Xor(b, Xor(a, b)) == a
  {
    XorAssociates(a, b, b);
    XorAssociates(b, b, a);
    XorSelf(b);
    XorZero(a);
    XorCommutes(a, b);
  }

  /** A xor-shift by more than a third of the width is undone by two more. */
  lemma UnfoldFold(x: nat, k: nat)
    requires Shr(x, 3 * k) == 0
    ensures Unfold(Fold(x, k), k) == x && Fold(Unfold(x, k), k) == x
  {
    var b, c := Shr(x, k), Shr(x, 2 * k);
    ShrShr(x, k, k);
    ShrShr(x, k, 2 * k);
    ShrShr(x, 2 * k, k);
    XorZero(c);
    XorZero(Xor(b, c));
    calc {
      Unfold(Fold(x, k), k);
      { XorShr(x, b, k); XorShr(x, b, 2 * k); }
      Xor(Xor(Xor(x, b), Xor(b, c)), c);
      { XorAssociates(x, b, Xor(b, c)); XorCancels(c, b); }
      Xor(Xor(x, c), c);
      { XorCancels(x, c); }
      x;
    }
    calc {
      Fold(Unfold(x, k), k);
      { XorShr(Xor(x, b), c, k); XorShr(x, b, k); }
      Xor(Xor(Xor(x, b), c), Xor(b, c));
      { XorAssociates(Xor(x, b), c, Xor(b, c)); XorCancels(b, c); }
      Xor(Xor(x, b), b);
      { XorCancels(x, b); }
      x;
    }
  }

  lemma FoldRange(x: nat, k: nat)
    requires x < M
    ensures Fold(x, k) < M && Unfold(x, k) < M
  {
    Pow2Table();
    ShrBound(x, k);
    ShrBound(x, 2 * k);
    XorBound(x, Shr(x, k), 64);
    XorBound(Xor(x, Shr(x, k)), Shr(x, 2 * k), 64);
  }

  /** Multiplication by an odd constant is undone by its inverse modulo 2^64. */
  lemma TimesInverse(x: nat, m: nat, c: nat, d: nat, k: nat)
    requires x < m && c * d == 1 + k * m
    ensures x * c % m * d % m == x
  {
    var p, q := x * c % m, x * c / m;
    assert x * c == m * q + p;
    calc {
      p * d;
      (x * c - m * q) * d;
      x * c * d - m * q * d;
      { assert x * c * d == x * (c * d); }
      x * (1 + k * m) - m * q * d;
      { assert x * (1 + k * m) == x + m * (x * k); assert m * q * d == m * (q * d); }
      x + m * (x * k) - m * (q * d);
      { assert m * (x * k) - m * (q * d) == m * (x * k - q * d); }
      m * (x * k - q * d) + x;
    }
    DivModUnique(p * d, m, x * k - q * d, x);
  }

  // ----- the mixer

  const GOLDEN: nat := 0x9e3779b97f4a7c15
  const FIRST: nat := 0xbf58476d1ce4e5b9
  const SECOND: nat := 0x94d049bb133111eb
  const FIRST_INVERSE: nat := 0x96de1b173f119089
  const SECOND_INVERSE: nat := 0x319642b2d24d8ec3

  function Stage1(x: nat): nat { Fold(x, 30) * FIRST % M }

  function Stage2(x: nat): nat { Fold(x, 27) * SECOND % M }

  function Mix(value: nat): nat {
    Fold(Stage2(Stage1(Advance(value))), 31)
  }

  function Unstage1(y: nat): nat { Unfold(y * FIRST_INVERSE % M, 30) }

  function Unstage2(y: nat): nat { Unfold(y * SECOND_INVERSE % M, 27) }

  /** Undoes the steps of `Mix` in reverse order. */
  function Unmix(mixed: nat): nat {
    Retreat(Unstage1(Unstage2(Unfold(mixed, 31))))
  }

  lemma Folds(x: nat, k: nat)
    requires x < M && 22 <= k
    ensures Fold(x, k) < M && Unfold(x, k) < M && Unfold(Fold(x, k), k) == x && Fold(Unfold(x, k), k) == x
  {
    Pow2Table();
    FoldRange(x, k);
    ShrVanishes(x, 64, 3 * k);
    UnfoldFold(x, k);
  }

  lemma Stage1Inverse(x: nat)
    requires x < M
    ensures Stage1(x) < M && Unstage1(x) < M && Unstage1(Stage1(x)) == x && Stage1(Unstage1(x)) == x
  {
    Folds(x, 30);
    var y := Fold(x, 30);
    TimesInverse(y, M, FIRST, FIRST_INVERSE, 0x70c3bca78f27f46c);
    TimesInverse(x, M, FIRST_INVERSE, FIRST, 0x70c3bca78f27f46c);
    Folds(x * FIRST_INVERSE % M, 30);
  }

  lemma Stage2Inverse(x: nat)
    requires x < M
    ensures Stage2(x) < M && Unstage2(x) < M && Unstage2(Stage2(x)) == x && Stage2(Unstage2(x)) == x
  {
    Folds(x, 27);
    var y := Fold(x, 27);
    TimesInverse(y, M, SECOND, SECOND_INVERSE, 0x1cd336eda85f1453);
    TimesInverse(x, M, SECOND_INVERSE, SECOND, 0x1cd336eda85f1453);
    Folds(x * SECOND_INVERSE % M, 27);
  }

  function Advance(v: nat): nat { (v + GOLDEN) % M }

  function Retreat(v: nat): nat { (v + M - GOLDEN) % M }

  lemma AdvanceInverse(v: nat)
    requires v < M
    ensures Advance(v) < M && Retreat(v) < M && Retreat(Advance(v)) == v && Advance(Retreat(v)) == v
  {
  }

  lemma UnmixMix(v: nat)
    requires v < M
    ensures Mix(v) < M && Unmix(Mix(v)) == v
  {
    AdvanceInverse(v);
    var a := Advance(v);
    Stage1Inverse(a);
    var b := Stage1(a);
    Stage2Inverse(b);
    var c := Stage2(b);
    Folds(c, 31);
  }

  lemma MixUnmix(v: nat)
    requires v < M
    ensures Unmix(v) < M && Mix(Unmix(v)) == v
  {
    Folds(v, 31);
    var c := Unfold(v, 31);
    Stage2Inverse(c);
    var b := Unstage2(c);
    Stage1Inverse(b);
    var a := Unstage1(b);
    AdvanceInverse(a);
  }

  /** The mixer is a bijection on 0..2^64-1. */
  lemma MixBijective(v: nat)
    requires v < M
    ensures Mix(v) < M && Unmix(v) < M && Unmix(Mix(v)) == v && Mix(Unmix(v)) == v
  {
    UnmixMix(v);
    MixUnmix(v);
  }
}
