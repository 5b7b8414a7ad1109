/** Big-endian bytes and lowercase hexadecimal text, with their inverses. */
module Encoding {
  import opened Wrappers

  type Byte = b: nat | b < 256

  function HexDigit(n: nat): char
    requires n < 16
  {
    "0123456789abcdef"[n]
  }

  function DigitValue(c: char): Option<nat> {
    if '0' <= c <= '9' then Some((c as int) - ('0' as int))
    else if 'a' <= c <= 'f' then Some((c as int) - ('a' as int) + 10)
    else None
  }

  lemma DigitRoundTrip(n: nat)
    requires n < 16
    ensures DigitValue(HexDigit(n)) == Some(n)
  {
  }

  /** Python's `bytes.hex()`. */
  function ToHex(bytes: seq<Byte>): (s: string)
    ensures |s| == 2 * |bytes|
  {
    if bytes == [] then "" else [HexDigit(bytes[0] / 16), HexDigit(bytes[0] % 16)] + ToHex(bytes[1..])
  }

  function FromHex(s: string): Option<seq<Byte>> {
    if s == "" then Some([])
    else if |s| == 1 then None
    else match (DigitValue(s[0]), DigitValue(s[1]), FromHex(s[2..]))
      case (Some(high), Some(low), Some(rest)) => if high * 16 + low < 256 then Some([high * 16 + low] + rest) else None
      case _ => None
  }

  lemma {:induction false} HexRoundTrip(bytes: seq<Byte>)
    ensures FromHex(ToHex(bytes)) == Some(bytes)
  {
    if bytes != [] {
      HexRoundTrip(bytes[1..]);
      HexNext(bytes[0], ToHex(bytes[1..]), bytes[1..]);
      assert bytes == [bytes[0]] + bytes[1..];
    }
  }

  lemma HexNext(b: Byte, s: string, rest: seq<Byte>)
    requires FromHex(s) == Some(rest)
    ensures FromHex([HexDigit(b / 16), HexDigit(b % 16)] + s) == Some([b] + rest)
  {
    DigitRoundTrip(b / 16);
    DigitRoundTrip(b % 16);
    assert ([HexDigit(b / 16), HexDigit(b % 16)] + s)[2..] == s;
  }

  lemma HexInjective(a: seq<Byte>, b: seq<Byte>)
    requires ToHex(a) == ToHex(b)
    ensures a == b
  {
    HexRoundTrip(a);
    HexRoundTrip(b);
  }

  function Power(base: nat, k: nat): nat {
    if k == 0 then 1 else base * Power(base, k - 1)
  }

  /** The `k` low digits of `n` in the given base, most significant first. */
  function Digits(n: nat, base: nat, k: nat): (r: seq<nat>)
    requires base >= 1
    ensures |r| == k && forall i | 0 <= i < k :: r[i] < base
    decreases k, n
  {
    if k == 0 then [] else Digits(n / base, base, k - 1) + [n % base]
  }

  function Number(ds: seq<nat>, base: nat): nat {
    if ds == [] then 0 else Number(ds[..|ds| - 1], base) * base + ds[|ds| - 1]
  }

  lemma NumberNext(ds: seq<nat>, d: nat, base: nat)
    ensures Number(ds + [d], base) == Number(ds, base) * base + d
  {
    assert (ds + [d])[..|ds|] == ds;
  }

  lemma {:induction false} DigitsRoundTrip(n: nat, base: nat, k: nat)
    requires base >= 1 && n < Power(base, k)
    ensures Number(Digits(n, base, k), base) == n
    decreases k
  {
    if k > 0 {
      PowerShrinks(n, base, k);
      DigitsRoundTrip(n / base, base, k - 1);
      Recombine(n, base, Digits(n / base, base, k - 1));
    }
  }

  lemma PowerShrinks(n: nat, base: nat, k: nat)
    requires base >= 1 && k > 0 && n < Power(base, k)
    ensures n / base < Power(base, k - 1)
  {
    QuotientBound(n, base, Power(base, k - 1));
  }

  lemma Recombine(n: nat, base: nat, ds: seq<nat>)
    requires base >= 1 && Number(ds, base) == n / base
    ensures Number(ds + [n % base], base) == n
  {
    NumberNext(ds, n % base, base);
  }

  lemma QuotientBound(n: nat, d: nat, bound: nat)
    requires d >= 1 && n < d * bound
    ensures n / d < bound
  {
    if n / d >= bound { ScaledOrder(d, bound, n / d); }
  }

  lemma ScaledOrder(d: nat, a: nat, b: nat)
    requires a <= b
    ensures d * a <= d * b
  {
    assert d * b == d * a + d * (b - a);
    assert d * (b - a) >= 0;
  }

  /** Python's `n.to_bytes(8, 'big')`, defined below 2^64. */
  function BigEndian8(n: nat): (r: seq<Byte>)
    ensures |r| == 8
  {
    var ds := Digits(n, 256, 8);
    assert forall i | 0 <= i < 8 :: ds[i] < 256;
    seq(8, i requires 0 <= i < 8 => ds[i])
  }

  function FromBigEndian(bytes: seq<Byte>): nat {
    Number(bytes, 256)
  }

  lemma Power256()
    ensures Power(256, 8) == 0x1_0000_0000_0000_0000
  {
    assert Power(256, 2) == 0x1_0000;
    assert Power(256, 4) == 0x1_0000_0000;
    assert Power(256, 6) == 0x1_0000_0000_0000;
  }

  lemma BigEndianRoundTrip(n: nat)
    requires n < 0x1_0000_0000_0000_0000
    ensures FromBigEndian(BigEndian8(n)) == n
  {
    Power256();
    DigitsRoundTrip(n, 256, 8);
    assert BigEndian8(n) == Digits(n, 256, 8);
  }
}
