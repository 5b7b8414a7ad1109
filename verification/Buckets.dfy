/**
 The two latency bucket schemes: 3776 log-linear buckets with 64 subdivisions per octave, and 65
 power-of-two buckets. Each cuts 0..2^64-1 into adjacent intervals.
 */
module Buckets {
  import opened Wrappers

  const U64: nat := 0xFFFF_FFFF_FFFF_FFFF

  datatype Scheme = LogLinear | PowerOfTwo {
    function Size(): nat {
      if LogLinear? then 3776 else 65
    }
  }

  function Pow2(e: nat): (r: nat)
    ensures r >= 1
  {
    if e == 0 then 1 else 2 * Pow2(e - 1)
  }

  function Lower(s: Scheme, i: nat): nat {
    match s
    case LogLinear => if i < 64 then i else (64 + (i - 64) % 64) * Pow2((i - 64) / 64)
    case PowerOfTwo => if i == 0 then 0 else Pow2(i - 1)
  }

  function Upper(s: Scheme, i: nat): nat {
    match s
    case LogLinear => if i < 64 then i else Lower(s, i) + Pow2((i - 64) / 64) - 1
    case PowerOfTwo => Pow2(i) - 1
  }

  /** Each bucket starts right after the previous one, and none is empty. */
  lemma Adjacent(s: Scheme, i: nat)
    ensures Lower(s, i) <= Upper(s, i)
    ensures Lower(s, i + 1) == Upper(s, i) + 1
  {
    if s.LogLinear? && i >= 64 {
      var e, part := (i - 64) / 64, (i - 64) % 64;
      if part < 63 {
        assert (i + 1 - 64) / 64 == e && (i + 1 - 64) % 64 == part + 1;
        assert (64 + part + 1) * Pow2(e) == (64 + part) * Pow2(e) + Pow2(e);
      } else {
        assert (i + 1 - 64) / 64 == e + 1 && (i + 1 - 64) % 64 == 0;
        assert 64 * Pow2(e + 1) == 128 * Pow2(e) == (64 + 63) * Pow2(e) + Pow2(e);
      }
    }
  }

  lemma {:induction false} Ascending(s: Scheme, i: nat, j: nat)
    requires i <= j
    ensures Lower(s, i) <= Lower(s, j) && Upper(s, i) <= Upper(s, j)
    ensures i < j ==> Upper(s, i) < Lower(s, j)
    decreases j - i
  {
    Adjacent(s, i);
    if i < j {
      Ascending(s, i + 1, j);
      Adjacent(s, i + 1);
    }
  }

  /** The buckets start at zero and end at the largest 64-bit value. */
  lemma Ends(s: Scheme)
    ensures Lower(s, 0) == 0 && Upper(s, s.Size() - 1) == U64
  {
    Pow2Table();
  }

  lemma Pow2Table()
    ensures Pow2(64) == U64 + 1 && Pow2(57) == 0x200_0000_0000_0000
  {
    Pow2Shift(0, 1, 8, 256);
    Pow2Shift(8, 256, 16, 0x1_0000);
    Pow2Shift(16, 0x1_0000, 24, 0x100_0000);
    Pow2Shift(24, 0x100_0000, 32, 0x1_0000_0000);
    Pow2Shift(32, 0x1_0000_0000, 40, 0x100_0000_0000);
    Pow2Shift(40, 0x100_0000_0000, 48, 0x1_0000_0000_0000);
    Pow2Shift(48, 0x1_0000_0000_0000, 56, 0x100_0000_0000_0000);
    Pow2Shift(56, 0x100_0000_0000_0000, 64, 0x1_0000_0000_0000_0000);
  }

  lemma Pow2Shift(e: nat, v: nat, e8: nat, v8: nat)
    requires e8 == e + 8 && v8 == 256 * v && Pow2(e) == v
    ensures Pow2(e8) == v8
  {
    assert Pow2(e + 4) == 16 * v by { assert Pow2(e + 2) == 4 * v; }
    assert Pow2(e + 6) == 64 * v;
  }

  /** From index 64 on, a log-linear bucket spans less than 1/64 of its lower bound. */
  lemma RelativeWidth(i: nat)
    requires i >= 64
    ensures (Upper(LogLinear, i) - Lower(LogLinear, i)) * 64 < Lower(LogLinear, i)
  {
    var e := (i - 64) / 64;
    assert (64 + (i - 64) % 64) * Pow2(e) >= 64 * Pow2(e);
  }

  predicate Holds(s: Scheme, i: nat, v: int) {
    Lower(s, i) <= v <= Upper(s, i)
  }

  /** The first bucket holding `v`, found as the control builder searches for it. */
  method FindSlot(s: Scheme, v: nat) returns (slot: Option<nat>)
    ensures slot.Some? <==> v <= U64
    ensures slot.Some? ==> slot.value == BucketOf(s, v)
  {
    Ends(s);
    for i := 0 to s.Size()
      invariant i > 0 ==> Upper(s, i - 1) < v
    {
      Adjacent(s, i);
      if i > 0 { Adjacent(s, i - 1); }
      if Holds(s, i, v) {
        Ascending(s, i, s.Size() - 1);
        OnlyBucket(s, i, BucketOf(s, v), v);
        return Some(i);
      }
    }
    return None;
  }

  lemma OnlyBucket(s: Scheme, i: nat, j: nat, v: int)
    requires Holds(s, i, v) && Holds(s, j, v)
    ensures i == j
  {
    if i < j { Ascending(s, i, j); }
    if j < i { Ascending(s, j, i); }
  }

  /** The bucket of a 64-bit sample. */
  function BucketOf(s: Scheme, v: nat): (i: nat)
    requires v <= U64
    ensures i < s.Size() && Holds(s, i, v)
  {
    Ends(s);
    BucketFrom(s, v, 0)
  }

  function BucketFrom(s: Scheme, v: nat, i: nat): (r: nat)
    requires i < s.Size() && Lower(s, i) <= v <= Upper(s, s.Size() - 1)
    ensures i <= r < s.Size() && Holds(s, r, v)
    decreases s.Size() - i
  {
    Adjacent(s, i);
    if v <= Upper(s, i) then i else Ascending(s, i, s.Size() - 1); BucketFrom(s, v, i + 1)
  }

  function BitLength(v: nat): nat {
    if v == 0 then 0 else 1 + BitLength(v / 2)
  }

  /** Python's `bit_length` is the power-of-two bucket index. */
  lemma {:induction false} BitLengthBucket(v: nat)
    ensures Holds(PowerOfTwo, BitLength(v), v)
    ensures v <= U64 ==> BitLength(v) == BucketOf(PowerOfTwo, v)
  {
    if v > 0 {
      BitLengthBucket(v / 2);
    }
    if v <= U64 {
      OnlyBucket(PowerOfTwo, BitLength(v), BucketOf(PowerOfTwo, v), v);
    }
  }
}
