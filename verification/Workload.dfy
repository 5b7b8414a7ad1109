/**
 The deterministic native-batch workload: its dataset keys and values, the operation generated for
 each nonce, and the chunks that initialize and verify the dataset.
 */
module Workload {
  import opened Wrappers
  import opened Counting
  import opened Encoding
  import opened Mixer
  import opened Samples
  import opened Histories

  datatype Config = Config(
    runId: string, keyspace: nat, workers: nat, seed: nat, keys: nat, batch: nat, valueBytes: nat,
    mix: seq<int>, maxCalls: nat, maxAttempts: nat, deadlineMs: nat, peers: seq<nat>)

  predicate NameChar(ch: char) {
    'A' <= ch <= 'Z' || 'a' <= ch <= 'z' || '0' <= ch <= '9' || ch == '_' || ch == '-'
  }

  /** The bounds a configuration must meet. */
  predicate Legal(c: Config) {
    && 1 <= |c.runId| <= 64 && (forall k | 0 <= k < |c.runId| :: NameChar(c.runId[k]))
    && 1 <= c.keyspace < KEYSPACE_LIMIT && 1 <= c.workers <= 256 && c.seed < M
    && 1 <= c.keys <= 256 && 1 <= c.batch <= 256 && 16 <= c.valueBytes <= 8192
    && |c.mix| == 5 && (forall k | 0 <= k < 5 :: 0 <= c.mix[k] <= 100) && Sum(c.mix) == 100
    && 3 * ChunkTotal(c) + c.workers + 2 <= c.maxCalls <= 100000
    && 1 <= c.maxAttempts <= 16 && 1 <= c.deadlineMs <= 30000
    && 1 <= |c.peers| <= 32 && (forall k | 0 <= k < |c.peers| :: c.peers[k] >= 1)
    && (forall j, k | 0 <= j < k < |c.peers| :: c.peers[j] != c.peers[k])
  }

  function ChunkTotal(c: Config): nat
    requires c.batch >= 1
  {
    (c.keys + c.batch) / c.batch
  }

  // ----- keys

  function Ascii(s: string): (r: seq<Byte>)
    requires forall k | 0 <= k < |s| :: s[k] as int < 128
    ensures |r| == |s|
  {
    seq(|s|, k requires 0 <= k < |s| => s[k] as int)
  }

  /** Python's `{i:016x}` below 2^64. */
  function Hex16(i: nat): (s: string)
    ensures |s| == 16 && forall k | 0 <= k < 16 :: s[k] as int < 128
  {
    var ds := Digits(i, 16, 16);
    seq(16, k requires 0 <= k < 16 => HexDigit(ds[k]))
  }

  function Key(c: Config, i: nat): string
    requires forall k | 0 <= k < |c.runId| :: NameChar(c.runId[k])
  {
    assert forall k | 0 <= k < |c.runId| :: NameChar(c.runId[k]) && c.runId[k] as int < 128;
    ToHex(Ascii(c.runId + ":" + Hex16(i)))
  }

  lemma Hex16Injective(i: nat, j: nat)
    requires i < M && j < M && Hex16(i) == Hex16(j)
    ensures i == j
  {
    var a, b := Digits(i, 16, 16), Digits(j, 16, 16);
    forall k | 0 <= k < 16 ensures a[k] == b[k] {
      assert Hex16(i)[k] == HexDigit(a[k]) && Hex16(j)[k] == HexDigit(b[k]);
      DigitRoundTrip(a[k]);
      DigitRoundTrip(b[k]);
    }
    assert a == b;
    Power16();
    DigitsRoundTrip(i, 16, 16);
    DigitsRoundTrip(j, 16, 16);
  }

  lemma Power16()
    ensures Power(16, 16) == M
  {
    assert Power(16, 4) == 0x1_0000;
    assert Power(16, 8) == 0x1_0000_0000 by { assert Power(16, 6) == 0x100_0000; }
    assert Power(16, 12) == 0x1_0000_0000_0000 by { assert Power(16, 10) == 0x100_0000_0000; }
    assert Power(16, 14) == 0x100_0000_0000_0000;
  }

  /** Distinct items have distinct keys. */
  lemma KeyInjective(c: Config, i: nat, j: nat)
    requires (forall k | 0 <= k < |c.runId| :: NameChar(c.runId[k])) && i < M && j < M && Key(c, i) == Key(c, j)
    ensures i == j
  {
    TextInjective(c.runId + ":", Hex16(i), Hex16(j));
    Hex16Injective(i, j);
  }

  predicate IsAscii(s: string) {
    forall k | 0 <= k < |s| :: s[k] as int < 128
  }

  lemma TextInjective(p: string, s: string, t: string)
    requires IsAscii(p + s) && IsAscii(p + t) && |s| == |t| && ToHex(Ascii(p + s)) == ToHex(Ascii(p + t))
    ensures s == t
  {
    HexInjective(Ascii(p + s), Ascii(p + t));
    forall k | 0 <= k < |s| ensures s[k] == t[k] {
      AsciiAt(p, s, k);
      AsciiAt(p, t, k);
    }
  }

  lemma AsciiAt(p: string, s: string, k: nat)
    requires IsAscii(p + s) && k < |s|
    ensures Ascii(p + s)[|p| + k] == s[k] as int
  {
  }

  // ----- values

  function Filler(n: nat): (r: seq<Byte>)
    ensures |r| == n
  {
    seq(n, _ => 'v' as int)
  }

  /** The value item `item` gets from the writer `nonce`; writer zero is initialization. */
  function Value(c: Config, nonce: nat, item: nat): string
    requires c.valueBytes >= 16
  {
    if nonce == 0 && item == c.keys then ""
    else ToHex(BigEndian8(nonce) + BigEndian8(item) + Filler(c.valueBytes - 16))
  }

  /** Reads the writer and item back out of a value; the empty sentinel is initialization's. */
  function WriterOf(c: Config, value: string): Option<(nat, nat)> {
    if value == "" then Some((0, c.keys))
    else match FromHex(value)
      case Some(bytes) => if |bytes| >= 16 then Some((FromBigEndian(bytes[..8]), FromBigEndian(bytes[8..16]))) else None
      case None => None
  }

  /** A written value identifies the call and the item that wrote it. */
  lemma ValueIdentifiesWriter(c: Config, nonce: nat, item: nat)
    requires c.valueBytes >= 16 && nonce < M && item < M
    ensures WriterOf(c, Value(c, nonce, item)) == Some((nonce, item))
  {
    if !(nonce == 0 && item == c.keys) {
      var bytes := BigEndian8(nonce) + BigEndian8(item) + Filler(c.valueBytes - 16);
      HexRoundTrip(bytes);
      BigEndianRoundTrip(nonce);
      BigEndianRoundTrip(item);
      assert bytes[..8] == BigEndian8(nonce) && bytes[8..16] == BigEndian8(item);
      assert |ToHex(bytes)| > 0;
    }
  }

  // ----- the operation of each nonce

  datatype Kind = GetKind | PutKind | DeleteKind | BatchGetKind | BatchPutKind

  const KINDS: seq<Kind> := [GetKind, PutKind, DeleteKind, BatchGetKind, BatchPutKind]

  predicate IsWorkloadCall(c: Call) {
    c.Get? || c.Put? || c.Delete? || c.BatchGet? || c.BatchPut?
  }

  function KindIn(c: Call): Kind {
    match c
    case Get(_, _) => GetKind
    case Put(_, _, _) => PutKind
    case Delete(_, _) => DeleteKind
    case BatchGet(_, _) => BatchGetKind
    case _ => BatchPutKind
  }

  function Items(c: Call): nat {
    match c
    case BatchGet(_, keys) => |keys|
    case BatchPut(_, pairs) => |pairs|
    case _ => 1
  }

  /** What it is for a call to be of a kind. */
  ghost predicate OfKind(c: Call, kind: Kind) {
    match kind
    case GetKind => c.Get?
    case PutKind => c.Put?
    case DeleteKind => c.Delete?
    case BatchGetKind => c.BatchGet?
    case BatchPutKind => c.BatchPut?
  }

  /** The keys a workload call names, in order. */
  ghost function CallKeys(c: Call): seq<string> {
    match c
    case Get(_, key) => [key]
    case Put(_, key, _) => [key]
    case Delete(_, key) => [key]
    case BatchGet(_, keys) => keys
    case BatchPut(_, pairs) => seq(|pairs|, k requires 0 <= k < |pairs| => pairs[k].0)
    case _ => []
  }

  /** The values a workload call writes, in order. */
  ghost function CallValues(c: Call): seq<string> {
    match c
    case Put(_, _, value) => [value]
    case BatchPut(_, pairs) => seq(|pairs|, k requires 0 <= k < |pairs| => pairs[k].1)
    case _ => []
  }

  lemma KindsApart(c: Call, kind: Kind, other: Kind)
    requires OfKind(c, kind)
    ensures OfKind(c, other) <==> kind == other
  {
  }

  lemma KindDecides(c: Call, kind: Kind)
    requires IsWorkloadCall(c)
    ensures OfKind(c, kind) <==> KindIn(c) == kind
    ensures Items(c) == |CallKeys(c)|
  {
  }

  function Slot(c: Config, nonce: nat): nat {
    (nonce * 73 + 19 + c.seed % 100) % 100
  }

  /** The first index from `k` on whose cumulative weight exceeds the slot; the last one if none does. */
  function IndexFrom(mix: seq<int>, slot: int, cumulative: int, k: nat): nat
    requires k < |mix|
    decreases |mix| - k
  {
    if slot < cumulative + mix[k] || k == |mix| - 1 then k else IndexFrom(mix, slot, cumulative + mix[k], k + 1)
  }

  /** The cumulative-weight loop. */
  method SelectIndex(mix: seq<int>, slot: int) returns (k: nat)
    requires mix != []
    ensures k < |mix| && k == IndexFrom(mix, slot, 0, 0)
    ensures (forall i | 0 <= i < |mix| :: mix[i] >= 0) && 0 <= slot < Sum(mix) ==>
            Sum(mix[..k]) <= slot < Sum(mix[..k + 1])
  {
    if (forall i | 0 <= i < |mix| :: mix[i] >= 0) && 0 <= slot < Sum(mix) { IndexHolds(mix, slot, 0); }
    var cumulative := 0;
    k := 0;
    while true
      invariant k < |mix| && IndexFrom(mix, slot, 0, 0) == IndexFrom(mix, slot, cumulative, k)
      decreases |mix| - k
    {
      cumulative := cumulative + mix[k];
      if slot < cumulative || k == |mix| - 1 {
        return;
      }
      k := k + 1;
    }
  }

  /** With nonnegative weights covering the slot, the loop stops on the operation whose weight
      interval holds it. */
  lemma {:induction false} IndexHolds(mix: seq<int>, slot: int, k: nat)
    requires k < |mix| && (forall i | 0 <= i < |mix| :: mix[i] >= 0) && Sum(mix[..k]) <= slot < Sum(mix)
    ensures var i := IndexFrom(mix, slot, Sum(mix[..k]), k); i < |mix| && Sum(mix[..i]) <= slot < Sum(mix[..i + 1])
    decreases |mix| - k
  {
    SumLast(mix[..k + 1]);
    assert mix[..k + 1][..k] == mix[..k];
    if k == |mix| - 1 {
      assert mix[..k + 1] == mix;
    } else if slot >= Sum(mix[..k + 1]) {
      IndexHolds(mix, slot, k + 1);
    }
  }

  function KindOf(c: Config, nonce: nat): Kind
    requires |c.mix| == 5
  {
    var i := IndexFrom(c.mix, Slot(c, nonce), 0, 0);
    assert i < 5 by { IndexInRange(c.mix, Slot(c, nonce), 0, 0); }
    KINDS[i]
  }

  lemma {:induction false} IndexInRange(mix: seq<int>, slot: int, cumulative: int, k: nat)
    requires k < |mix|
    ensures IndexFrom(mix, slot, cumulative, k) < |mix|
    decreases |mix| - k
  {
    if !(slot < cumulative + mix[k] || k == |mix| - 1) { IndexInRange(mix, slot, cumulative + mix[k], k + 1); }
  }

  /** The generator's own copy of the mixer, one assignment at a time. */
  method HashedNonce(nonce: nat, seed: nat) returns (hashed: nat)
    ensures hashed == Mix(Xor(nonce, seed))
  {
    hashed := (Xor(nonce, seed) + GOLDEN) % M;
    ghost var x := hashed;
    assert x == Advance(Xor(nonce, seed));
    hashed := Xor(hashed, Shr(hashed, 30)) * FIRST % M;
    ghost var y := hashed;
    assert y == Stage1(x);
    hashed := Xor(hashed, Shr(hashed, 27)) * SECOND % M;
    assert hashed == Stage2(y);
    hashed := Xor(hashed, Shr(hashed, 31));
  }

  /** The mixer applied to the seeded nonce. */
  function First(c: Config, nonce: nat): (first: nat)
    requires c.keys >= 1
    ensures first < c.keys
  {
    Mix(Xor(nonce, c.seed)) % c.keys
  }

  function Item(c: Config, nonce: nat, i: nat): (item: nat)
    requires c.keys >= 1
    ensures item < c.keys
  {
    (First(c, nonce) + i) % c.keys
  }

  /** A batch walks the dataset cyclically: within one round no item comes twice. */
  lemma ItemsRotate(c: Config, nonce: nat, i: nat, j: nat)
    requires c.keys >= 1 && i <= j < i + c.keys && Item(c, nonce, i) == Item(c, nonce, j)
    ensures i == j
  {
    SameModulo(First(c, nonce) + i, First(c, nonce) + j, c.keys);
  }

  /** The call of a kind on given items, writing the values of a given writer. */
  function CallOn(c: Config, kind: Kind, items: seq<nat>, writer: nat): Call
    requires Legal(c) && items != []
  {
    match kind
    case GetKind => Get(c.keyspace, Key(c, items[0]))
    case DeleteKind => Delete(c.keyspace, Key(c, items[0]))
    case PutKind => Put(c.keyspace, Key(c, items[0]), Value(c, writer, 0))
    case BatchGetKind => BatchGet(c.keyspace, seq(|items|, i requires 0 <= i < |items| => Key(c, items[i])))
    case BatchPutKind =>
      BatchPut(c.keyspace, seq(|items|, i requires 0 <= i < |items| => (Key(c, items[i]), Value(c, writer, i))))
  }

  /** A batch names as many items as configured, any other call one. */
  function Targets(c: Config, kind: Kind, nonce: nat): (items: seq<nat>)
    requires c.keys >= 1 && c.batch >= 1
    ensures items != [] && forall i | 0 <= i < |items| :: items[i] < c.keys
  {
    if kind.BatchGetKind? || kind.BatchPutKind? then seq(c.batch, i requires 0 <= i < c.batch => Item(c, nonce, i))
    else [First(c, nonce)]
  }

  /** The call the generator makes for a nonce. */
  function Generated(c: Config, nonce: nat): Call
    requires Legal(c)
  {
    CallOn(c, KindOf(c, nonce), Targets(c, KindOf(c, nonce), nonce), nonce + 1)
  }

  /** A call of the kind that names the items' keys in order and writes the writer's values in order. */
  lemma CallOnItems(c: Config, kind: Kind, items: seq<nat>, writer: nat)
    requires Legal(c) && items != [] && (|items| == 1 || kind.BatchGetKind? || kind.BatchPutKind?)
    ensures var call := CallOn(c, kind, items, writer);
            && OfKind(call, kind) && IsWorkloadCall(call) && call.ks == c.keyspace
            && |CallKeys(call)| == |items| && (forall i | 0 <= i < |items| :: CallKeys(call)[i] == Key(c, items[i]))
            && |CallValues(call)| == (if kind.PutKind? || kind.BatchPutKind? then |items| else 0)
            && forall i: nat | i < |CallValues(call)| :: CallValues(call)[i] == Value(c, writer, i)
  {
  }

  /** The dataset walk from where the mixed nonce points. */
  lemma TargetsWalk(c: Config, kind: Kind, nonce: nat, i: nat)
    requires c.keys >= 1 && c.batch >= 1 && i < |Targets(c, kind, nonce)|
    ensures |Targets(c, kind, nonce)| == if kind in {BatchGetKind, BatchPutKind} then c.batch else 1
    ensures Targets(c, kind, nonce)[i] == (Mix(Xor(nonce, c.seed)) + i) % c.keys
  {
    ModuloAdds(Mix(Xor(nonce, c.seed)), i, c.keys);
  }

  /** The generated call has the nonce's kind. */
  lemma GeneratedKind(c: Config, nonce: nat)
    requires Legal(c)
    ensures OfKind(Generated(c, nonce), KindOf(c, nonce)) && IsWorkloadCall(Generated(c, nonce))
  {
    CallOnItems(c, KindOf(c, nonce), Targets(c, KindOf(c, nonce), nonce), nonce + 1);
  }

  /** It names the items of the walk, one or a batch of them, and writes the nonce's own values there. */
  lemma GeneratedCall(c: Config, nonce: nat)
    requires Legal(c)
    ensures var call, items := Generated(c, nonce), Targets(c, KindOf(c, nonce), nonce);
            && call.ks == c.keyspace && |CallKeys(call)| == |items|
            && (forall i | 0 <= i < |items| :: CallKeys(call)[i] == Key(c, items[i]))
            && |CallValues(call)| == (if call.Put? || call.BatchPut? then |items| else 0)
            && forall i: nat | i < |CallValues(call)| :: CallValues(call)[i] == Value(c, nonce + 1, i)
  {
    CallOnItems(c, KindOf(c, nonce), Targets(c, KindOf(c, nonce), nonce), nonce + 1);
  }

  // ----- the exact operation mix

  lemma Stride73(d: int)
    requires (73 * d) % 100 == 0
    ensures d % 100 == 0
  {
    var q := 73 * d / 100;
    assert 73 * d == 100 * q;
    assert d == 100 * (37 * q - 27 * d);
  }

  lemma SlotInjective(c: Config, m: nat, n: nat)
    requires m <= n < m + 100 && Slot(c, m) == Slot(c, n)
    ensures m == n
  {
    var x, y := m * 73 + 19 + c.seed % 100, n * 73 + 19 + c.seed % 100;
    SameRemainder(x, y);
    assert y - x == 73 * (n - m);
    Stride73(n - m);
  }

  lemma SameRemainder(x: nat, y: nat)
    requires x % 100 == y % 100
    ensures (y - x) % 100 == 0
  {
    assert y - x == 100 * (y / 100 - x / 100);
  }

  /** The nonce of a window of one hundred that has a given slot. */
  lemma SlotReached(c: Config, start: nat, slot: nat) returns (n: nat)
    requires slot < 100
    ensures start <= n < start + 100 && Slot(c, n) == slot
  {
    var r := c.seed % 100;
    var t := 37 * (slot + 181 - r);
    var q := (t - start) / 100;
    n := t - 100 * q;
    StrideBack(slot, r, q, n);
    DivModUnique(n * 73 + 19 + r, 100, 27 * (slot + 181 - r) + 2 - 73 * q, slot);
  }

  /** 73 times 37 is 1 modulo 100. */
  lemma StrideBack(slot: int, r: int, q: int, n: int)
    requires n == 37 * (slot + 181 - r) - 100 * q
    ensures n * 73 + 19 + r == 100 * (27 * (slot + 181 - r) + 2 - 73 * q) + slot
  {
  }

  /** Nonces of a window whose slot lies in `[lo, hi)`. */
  function InSlots(c: Config, start: nat, lo: nat, hi: nat): set<nat> {
    set n: nat | start <= n < start + 100 && lo <= Slot(c, n) < hi
  }

  lemma SlotsCounted(c: Config, start: nat, lo: nat, hi: nat)
    requires lo <= hi <= 100
    ensures |InSlots(c, start, lo, hi)| == hi - lo
  {
    var window := InSlots(c, start, lo, hi);
    var slots := map n | n in window :: Slot(c, n);
    forall a, b | a in slots && b in slots && a != b ensures slots[a] != slots[b] {
      if slots[a] == slots[b] {
        if a < b { SlotInjective(c, a, b); } else { SlotInjective(c, b, a); }
      }
    }
    ValuesSize(slots);
    assert slots.Keys == window;
    assert slots.Values == Numbers(lo, hi) by {
      forall s: nat | lo <= s < hi ensures s in slots.Values {
        var n := SlotReached(c, start, s);
        assert n in slots && slots[n] == s;
      }
    }
  }

  /** The nonces of a window whose call is of a kind. */
  ghost function GeneratedIn(c: Config, start: nat, kind: Kind): set<nat>
    requires Legal(c)
  {
    set n: nat | start <= n < start + 100 && OfKind(Generated(c, n), kind)
  }

  /** Among the calls of any hundred consecutive nonces each operation comes exactly as often as its
      weight says, whatever the seed. */
  lemma ExactMix(c: Config, start: nat)
    requires Legal(c)
    ensures |GeneratedIn(c, start, GetKind)| == c.mix[0] && |GeneratedIn(c, start, PutKind)| == c.mix[1]
    ensures |GeneratedIn(c, start, DeleteKind)| == c.mix[2] && |GeneratedIn(c, start, BatchGetKind)| == c.mix[3]
    ensures |GeneratedIn(c, start, BatchPutKind)| == c.mix[4]
  {
    GeneratedCounted(c, start, 0);
    GeneratedCounted(c, start, 1);
    GeneratedCounted(c, start, 2);
    GeneratedCounted(c, start, 3);
    GeneratedCounted(c, start, 4);
  }

  lemma GeneratedCounted(c: Config, start: nat, k: nat)
    requires Legal(c) && k < 5
    ensures |GeneratedIn(c, start, KINDS[k])| == c.mix[k]
  {
    KindsCounted(c, start, k);
    forall n: nat ensures OfKind(Generated(c, n), KINDS[k]) <==> KindOf(c, n) == KINDS[k] {
      GeneratedKind(c, n);
    }
    assert GeneratedIn(c, start, KINDS[k]) == OfKindIn(c, start, k);
  }

  /** Nonces of a window whose operation is the `k`-th. */
  ghost function OfKindIn(c: Config, start: nat, k: nat): set<nat>
    requires |c.mix| == 5 && k < 5
  {
    set n: nat | start <= n < start + 100 && KindOf(c, n) == KINDS[k]
  }

  lemma KindsCounted(c: Config, start: nat, k: nat)
    requires Legal(c) && k < 5
    ensures |OfKindIn(c, start, k)| == c.mix[k]
  {
    var lo, hi := Sum(c.mix[..k]), Sum(c.mix[..k + 1]);
    PrefixBounds(c.mix, k);
    SlotsCounted(c, start, lo, hi);
    SumLast(c.mix[..k + 1]);
    assert c.mix[..k + 1][..k] == c.mix[..k];
    forall n: nat ensures KindOf(c, n) == KINDS[k] <==> lo <= Slot(c, n) < hi {
      KindBySlot(c, n, k);
    }
    assert OfKindIn(c, start, k) == InSlots(c, start, lo, hi);
  }

  lemma KindBySlot(c: Config, n: nat, k: nat)
    requires Legal(c) && k < 5
    ensures KindOf(c, n) == KINDS[k] <==> Sum(c.mix[..k]) <= Slot(c, n) < Sum(c.mix[..k + 1])
  {
    assert c.mix[..0] == [];
    IndexHolds(c.mix, Slot(c, n), 0);
    var i := IndexFrom(c.mix, Slot(c, n), 0, 0);
    if i < k { PrefixMonotone(c.mix, i + 1, k); }
    if k < i { PrefixMonotone(c.mix, k + 1, i); }
  }

  /** The generated call is of kind `k` exactly when the nonce's slot falls into that kind's share of the hundred. */
  lemma GeneratedWhen(c: Config, nonce: nat, k: nat)
    requires Legal(c) && k < 5
    ensures OfKind(Generated(c, nonce), KINDS[k])
            <==> Sum(c.mix[..k]) <= (nonce * 73 + 19 + c.seed % 100) % 100 < Sum(c.mix[..k + 1])
  {
    KindBySlot(c, nonce, k);
    GeneratedKind(c, nonce);
    KindsApart(Generated(c, nonce), KindOf(c, nonce), KINDS[k]);
  }

  lemma PrefixBounds(mix: seq<int>, k: nat)
    requires k < |mix| && forall i | 0 <= i < |mix| :: mix[i] >= 0
    ensures 0 <= Sum(mix[..k]) <= Sum(mix[..k + 1]) <= Sum(mix)
  {
    assert mix[..0] == [] && mix[..|mix|] == mix;
    PrefixMonotone(mix, 0, k);
    PrefixMonotone(mix, k, k + 1);
    PrefixMonotone(mix, k + 1, |mix|);
  }

  // ----- initialization and verification chunks

  /** The items from `first` on, in groups of `batch`. */
  function Groups(first: nat, end: nat, batch: nat): (r: seq<seq<nat>>)
    requires batch >= 1
    decreases if first < end then end - first else 0
  {
    if first >= end then []
    else [Consecutive(first, if first + batch <= end then first + batch else end)] + Groups(first + batch, end, batch)
  }

  function Consecutive(lo: nat, hi: nat): (r: seq<nat>)
    ensures |r| == if lo <= hi then hi - lo else 0
    ensures forall k | 0 <= k < |r| :: r[k] == lo + k
  {
    if lo >= hi then [] else seq(hi - lo, k requires 0 <= k < hi - lo => lo + k)
  }

  function Concat(gs: seq<seq<nat>>): seq<nat> {
    if gs == [] then [] else gs[0] + Concat(gs[1..])
  }

  lemma {:induction false} GroupsPartition(first: nat, end: nat, batch: nat)
    requires batch >= 1 && first <= end
    ensures Concat(Groups(first, end, batch)) == Consecutive(first, end)
    ensures forall k | 0 <= k < |Groups(first, end, batch)| :: 1 <= |Groups(first, end, batch)[k]| <= batch
    decreases end - first
  {
    if first + batch <= end {
      GroupsPartition(first + batch, end, batch);
      assert Consecutive(first, end) == Consecutive(first, first + batch) + Consecutive(first + batch, end);
    } else if first < end {
      assert Groups(first, end, batch)[1..] == Groups(first + batch, end, batch) == [];
      assert Concat([]) == [];
    }
  }

  lemma {:induction false} GroupsCount(first: nat, end: nat, batch: nat)
    requires batch >= 1 && first <= end
    ensures |Groups(first, end, batch)| == (end - first + batch - 1) / batch
    decreases end - first
  {
    if first + batch <= end {
      GroupsCount(first + batch, end, batch);
      var q, r := (end - first - 1) / batch, (end - first - 1) % batch;
      assert batch * (q + 1) == batch * q + batch;
      DivModUnique(end - first + batch - 1, batch, q + 1, r);
    } else if first < end {
      DivModUnique(end - first + batch - 1, batch, 1, end - first - 1);
    } else {
      DivModUnique(batch - 1, batch, 0, batch - 1);
    }
  }

  /** The dataset and its sentinel in exactly `ChunkTotal(c)` nonempty groups of at most `batch` items. */
  lemma ChunksPartition(c: Config)
    requires c.batch >= 1
    ensures var gs := Groups(0, c.keys + 1, c.batch);
            && |gs| == ChunkTotal(c) && Concat(gs) == Consecutive(0, c.keys + 1)
            && forall k | 0 <= k < |gs| :: 1 <= |gs[k]| <= c.batch
  {
    GroupsPartition(0, c.keys + 1, c.batch);
    GroupsCount(0, c.keys + 1, c.batch);
  }

  function ReadChunk(c: Config, group: seq<nat>): Call
    requires Legal(c)
  {
    BatchGet(c.keyspace, seq(|group|, k requires 0 <= k < |group| => Key(c, group[k])))
  }

  function WriteChunk(c: Config, group: seq<nat>): Call
    requires Legal(c)
  {
    BatchPut(c.keyspace, seq(|group|, k requires 0 <= k < |group| => (Key(c, group[k]), Value(c, 0, group[k]))))
  }

  function ReadChunks(c: Config): (r: seq<Call>)
    requires Legal(c)
    ensures |r| == |Groups(0, c.keys + 1, c.batch)|
  {
    var gs := Groups(0, c.keys + 1, c.batch);
    seq(|gs|, k requires 0 <= k < |gs| => ReadChunk(c, gs[k]))
  }

  /** Initialization reads every chunk, then writes every chunk. */
  function SetupCalls(c: Config): seq<Call>
    requires Legal(c)
  {
    var gs := Groups(0, c.keys + 1, c.batch);
    ReadChunks(c) + seq(|gs|, k requires 0 <= k < |gs| => WriteChunk(c, gs[k]))
  }
}
