/**
 The dataset of a native-batch run: what keys and values are as bytes, which items initialization and
 verification walk through, and that every workload call is one a history may hold.
 */
module Dataset {
  import opened Wrappers
  import opened Encoding
  import opened Mixer
  import opened Histories
  import opened Workload
  import opened Shapes

  // ----- keys and values as bytes

  /** The digits that sixteen characters spell. */
  ghost predicate SpellsNumber(text: seq<Byte>, n: nat) {
    |text| == 16 && exists ds: seq<nat> :: Number(ds, 16) == n && SpellsDigits(text, ds)
  }

  ghost predicate SpellsDigits(text: seq<Byte>, ds: seq<nat>) {
    |ds| == |text| && forall k | 0 <= k < |ds| :: DigitValue(text[k] as char) == Some(ds[k])
  }

  lemma HexDigitsSpell(i: nat, text: seq<Byte>)
    requires i < M && |text| == 16 && forall k | 0 <= k < 16 :: text[k] == Hex16(i)[k] as int
    ensures SpellsNumber(text, i)
  {
    var ds := Digits(i, 16, 16);
    Power16();
    DigitsRoundTrip(i, 16, 16);
    forall k | 0 <= k < 16 ensures DigitValue(text[k] as char) == Some(ds[k]) {
      assert Hex16(i)[k] == HexDigit(ds[k]);
      DigitRoundTrip(ds[k]);
    }
  }

  /** A key is the hex form of the run's name, a colon and the item's number in sixteen hex digits. */
  lemma KeyLayout(c: Config, i: nat) returns (bytes: seq<Byte>)
    requires Legal(c) && i < M
    ensures Key(c, i) == ToHex(bytes) && |bytes| == |c.runId| + 17
    ensures forall k | 0 <= k < |c.runId| :: bytes[k] == c.runId[k] as int
    ensures bytes[|c.runId|] == ':' as int && SpellsNumber(bytes[|c.runId| + 1..], i)
  {
    var prefix, digits := c.runId + ":", Hex16(i);
    assert IsAscii(prefix + digits) by { NamesAreAscii(c.runId); }
    bytes := Ascii(prefix + digits);
    forall k | 0 <= k < |prefix| ensures bytes[k] == prefix[k] as int { AsciiBefore(prefix, digits, k); }
    forall k | 0 <= k < 16 ensures bytes[|prefix| + k] == digits[k] as int { AsciiAt(prefix, digits, k); }
    var tail := bytes[|c.runId| + 1..];
    assert forall k | 0 <= k < 16 :: tail[k] == bytes[|prefix| + k];
    HexDigitsSpell(i, tail);
  }

  lemma NamesAreAscii(name: string)
    requires forall k | 0 <= k < |name| :: NameChar(name[k])
    ensures IsAscii(name)
  {
    forall k | 0 <= k < |name| ensures name[k] as int < 128 { assert NameChar(name[k]); }
  }

  lemma AsciiBefore(p: string, s: string, k: nat)
    requires IsAscii(p + s) && k < |p|
    ensures Ascii(p + s)[k] == p[k] as int
  {
  }

  /** A value is the writer and the item in eight bytes each and a filler; the sentinel's first is empty. */
  lemma ValueLayout(c: Config, nonce: nat, item: nat) returns (bytes: seq<Byte>)
    requires c.valueBytes >= 16 && nonce < M && item < M
    ensures Value(c, nonce, item) == ToHex(bytes)
    ensures nonce == 0 && item == c.keys ==> bytes == []
    ensures !(nonce == 0 && item == c.keys) ==>
              && |bytes| == c.valueBytes && FromBigEndian(bytes[..8]) == nonce && FromBigEndian(bytes[8..16]) == item
              && forall k | 16 <= k < |bytes| :: bytes[k] == 'v' as int
  {
    bytes := [];
    if !(nonce == 0 && item == c.keys) {
      bytes := BigEndian8(nonce) + BigEndian8(item) + Filler(c.valueBytes - 16);
      BigEndianRoundTrip(nonce);
      BigEndianRoundTrip(item);
      assert bytes[..8] == BigEndian8(nonce) && bytes[8..16] == BigEndian8(item);
    }
  }

  // ----- initialization and verification

  ghost function KeysOf(calls: seq<Call>): seq<string> {
    if calls == [] then [] else CallKeys(calls[0]) + KeysOf(calls[1..])
  }

  ghost function ValuesOf(calls: seq<Call>): seq<string> {
    if calls == [] then [] else CallValues(calls[0]) + ValuesOf(calls[1..])
  }

  ghost function KeysFor(c: Config, items: seq<nat>): seq<string>
    requires Legal(c)
  {
    seq(|items|, k requires 0 <= k < |items| => Key(c, items[k]))
  }

  ghost function ValuesFor(c: Config, items: seq<nat>): seq<string>
    requires Legal(c)
  {
    seq(|items|, k requires 0 <= k < |items| => Value(c, 0, items[k]))
  }

  ghost function Reads(c: Config, gs: seq<seq<nat>>): seq<Call>
    requires Legal(c)
  {
    seq(|gs|, k requires 0 <= k < |gs| => ReadChunk(c, gs[k]))
  }

  ghost function Writes(c: Config, gs: seq<seq<nat>>): seq<Call>
    requires Legal(c)
  {
    seq(|gs|, k requires 0 <= k < |gs| => WriteChunk(c, gs[k]))
  }

  lemma {:induction false} ReadsWalk(c: Config, gs: seq<seq<nat>>)
    requires Legal(c)
    ensures KeysOf(Reads(c, gs)) == KeysFor(c, Concat(gs))
  {
    if gs != [] {
      assert Reads(c, gs)[1..] == Reads(c, gs[1..]);
      ReadsWalk(c, gs[1..]);
      assert CallKeys(ReadChunk(c, gs[0])) == KeysFor(c, gs[0]);
      KeysForAppend(c, gs[0], Concat(gs[1..]));
    }
  }

  lemma {:induction false} WritesWalk(c: Config, gs: seq<seq<nat>>)
    requires Legal(c)
    ensures KeysOf(Writes(c, gs)) == KeysFor(c, Concat(gs)) && ValuesOf(Writes(c, gs)) == ValuesFor(c, Concat(gs))
  {
    if gs != [] {
      assert Writes(c, gs)[1..] == Writes(c, gs[1..]);
      WritesWalk(c, gs[1..]);
      assert CallKeys(WriteChunk(c, gs[0])) == KeysFor(c, gs[0]);
      assert CallValues(WriteChunk(c, gs[0])) == ValuesFor(c, gs[0]);
      KeysForAppend(c, gs[0], Concat(gs[1..]));
      ValuesForAppend(c, gs[0], Concat(gs[1..]));
    }
  }

  lemma KeysForAppend(c: Config, a: seq<nat>, b: seq<nat>)
    requires Legal(c)
    ensures KeysFor(c, a + b) == KeysFor(c, a) + KeysFor(c, b)
  {
  }

  lemma ValuesForAppend(c: Config, a: seq<nat>, b: seq<nat>)
    requires Legal(c)
    ensures ValuesFor(c, a + b) == ValuesFor(c, a) + ValuesFor(c, b)
  {
  }

  lemma SetupSplits(c: Config, gs: seq<seq<nat>>)
    requires Legal(c) && gs == Groups(0, c.keys + 1, c.batch)
    ensures ReadChunks(c) == Reads(c, gs) && SetupCalls(c) == Reads(c, gs) + Writes(c, gs)
  {
  }

  /** Batch reads, or batch writes, of at most the configured size. */
  ghost predicate Batched(c: Config, calls: seq<Call>, write: bool) {
    forall k | 0 <= k < |calls| ::
      && (if write then calls[k].BatchPut? else calls[k].BatchGet?)
      && calls[k].ks == c.keyspace && 1 <= |CallKeys(calls[k])| <= c.batch
  }

  /** Verification reads every item and the sentinel once, in order. */
  lemma VerificationReads(c: Config)
    requires Legal(c)
    ensures |ReadChunks(c)| == ChunkTotal(c) && Batched(c, ReadChunks(c), false)
    ensures KeysOf(ReadChunks(c)) == KeysFor(c, Consecutive(0, c.keys + 1))
  {
    var gs := Groups(0, c.keys + 1, c.batch);
    ChunksPartition(c);
    SetupSplits(c, gs);
    ReadsWalk(c, gs);
  }

  /** Initialization makes those reads first and then writes every item its first value, in the same order. */
  lemma InitializationWrites(c: Config) returns (writes: seq<Call>)
    requires Legal(c)
    ensures SetupCalls(c) == ReadChunks(c) + writes && |writes| == ChunkTotal(c) && Batched(c, writes, true)
    ensures KeysOf(writes) == KeysFor(c, Consecutive(0, c.keys + 1))
    ensures ValuesOf(writes) == ValuesFor(c, Consecutive(0, c.keys + 1))
  {
    var gs := Groups(0, c.keys + 1, c.batch);
    ChunksPartition(c);
    SetupSplits(c, gs);
    WritesWalk(c, gs);
    writes := Writes(c, gs);
  }

  // ----- workload calls decode

  lemma KeySpelled(c: Config, i: nat)
    requires Legal(c) && i < M
    ensures Spelled(Key(c, i)) && |Key(c, i)| <= 2 * 4096
  {
    var bytes := KeyLayout(c, i);
  }

  lemma ValueSpelled(c: Config, nonce: nat, item: nat)
    requires Legal(c) && nonce < M && item < M
    ensures Spelled(Value(c, nonce, item)) && |Value(c, nonce, item)| <= 2 * 65_536
  {
    var bytes := ValueLayout(c, nonce, item);
  }

  lemma KeysSpelled(c: Config, keys: seq<string>, items: seq<nat>)
    requires Legal(c) && |keys| == |items|
    requires forall i | 0 <= i < |items| :: items[i] < M && keys[i] == Key(c, items[i])
    ensures AllSpelled(keys, Some(4096))
  {
    forall s | s in keys ensures Spelled(s) && |s| <= 2 * 4096 {
      var k :| 0 <= k < |keys| && keys[k] == s;
      KeySpelled(c, items[k]);
    }
  }

  lemma ValuesSpelled(c: Config, values: seq<string>, writer: nat)
    requires Legal(c) && writer < M && |values| <= 256
    requires forall i: nat | i < |values| :: values[i] == Value(c, writer, i)
    ensures AllSpelled(values, Some(65_536))
  {
    forall s | s in values ensures Spelled(s) && |s| <= 2 * 65_536 {
      var k :| 0 <= k < |values| && values[k] == s;
      ValueSpelled(c, writer, k);
    }
  }

  lemma SpelledDecodes(call: Call)
    requires IsWorkloadCall(call) && 1 <= call.ks < KEYSPACE_LIMIT && 1 <= |CallKeys(call)| <= 256
    requires AllSpelled(CallKeys(call), Some(4096)) && AllSpelled(CallValues(call), Some(65_536))
    ensures CallDecodes(2, call)
  {
  }

  ghost predicate Suits(kind: Kind, items: seq<nat>) {
    && 1 <= |items| <= 256 && (|items| == 1 || kind.BatchGetKind? || kind.BatchPutKind?)
    && forall i | 0 <= i < |items| :: items[i] < M
  }

  lemma CallOnDecodes(c: Config, kind: Kind, items: seq<nat>, writer: nat, call: Call)
    requires Legal(c) && Suits(kind, items) && writer < M && call == CallOn(c, kind, items, writer)
    ensures CallDecodes(2, call)
  {
    CallOnItems(c, kind, items, writer);
    KeysSpelled(c, CallKeys(call), items);
    ValuesSpelled(c, CallValues(call), writer);
    SpelledDecodes(call);
  }

  lemma TargetsSuit(c: Config, kind: Kind, nonce: nat)
    requires 1 <= c.keys <= 256 && 1 <= c.batch <= 256
    ensures Suits(kind, Targets(c, kind, nonce))
  {
    var items := Targets(c, kind, nonce);
    forall i | 0 <= i < |items| ensures items[i] < M { assert items[i] < c.keys; }
  }

  /** No generated call is one the parser refuses. */
  lemma GeneratedDecodes(c: Config, nonce: nat)
    requires Legal(c) && nonce < c.maxCalls
    ensures CallDecodes(2, Generated(c, nonce))
  {
    TargetsSuit(c, KindOf(c, nonce), nonce);
    CallOnDecodes(c, KindOf(c, nonce), Targets(c, KindOf(c, nonce), nonce), nonce + 1, Generated(c, nonce));
  }
}
