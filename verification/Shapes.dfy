/**
 What headers and records may hold: byte strings in canonical hex, bounded batches, replies that belong to
 their calls, and the initial state a header denotes.
 */
module Shapes {
  import opened Wrappers
  import opened Encoding
  import opened Histories
  import opened Workload

  const MAX_BATCH_ITEMS := 256
  const MAX_KEY_DIGITS := 8192
  const MAX_VALUE_DIGITS := 131072

  // ----- what a record may hold

  predicate IsHex(s: string) {
    |s| % 2 == 0 && forall k | 0 <= k < |s| :: '0' <= s[k] <= '9' || 'a' <= s[k] <= 'f'
  }

  predicate HexWithin(s: string, digits: nat) {
    IsHex(s) && |s| <= digits
  }

  predicate ArgsFit(version: nat, c: Call) {
    && (c.BatchGet? || c.BatchPut? ==> version >= 2)
    && (!c.CreateKeyspace? ==> 1 <= c.ks < KEYSPACE_LIMIT)
    && match c
       case Get(_, key) => IsHex(key)
       case Put(_, key, value) => IsHex(key) && IsHex(value)
       case Delete(_, key) => IsHex(key)
       case BatchGet(_, keys) =>
         1 <= |keys| <= MAX_BATCH_ITEMS && forall k | 0 <= k < |keys| :: HexWithin(keys[k], MAX_KEY_DIGITS)
       case BatchPut(_, pairs) =>
         1 <= |pairs| <= MAX_BATCH_ITEMS
         && forall k | 0 <= k < |pairs| ::
              HexWithin(pairs[k].0, MAX_KEY_DIGITS) && HexWithin(pairs[k].1, MAX_VALUE_DIGITS)
       case Scan(_, start, end, _) => IsHex(start) && IsHex(end)
       case DeleteRange(_, start, end) => IsHex(start) && IsHex(end)
       case CreateKeyspace(name) => name != ""
  }

  predicate ResultFits(c: Call, outcome: Outcome, reply: Reply) {
    ReplyFits(c, outcome, reply) && TextsFit(reply)
  }

  predicate TextsFit(reply: Reply) {
    match reply
    case Found(Some(value)) => IsHex(value)
    case FoundAll(values) =>
      1 <= |values| <= MAX_BATCH_ITEMS
      && forall k | 0 <= k < |values| && values[k].Some? :: HexWithin(values[k].value, MAX_VALUE_DIGITS)
    case Rows(rows) => forall k | 0 <= k < |rows| :: IsHex(rows[k].0) && IsHex(rows[k].1)
    case _ => true
  }

  // ----- the header

  datatype Header = Header(
    version: nat, chunk: nat, keyspaces: seq<(string, nat)>, kv: seq<(nat, string, string)>)

  predicate HeaderFits(h: Header) {
    && 1 <= h.version <= 2 && h.chunk >= 1
    && (forall i | 0 <= i < |h.keyspaces| :: h.keyspaces[i].0 != "" && 1 <= h.keyspaces[i].1 < KEYSPACE_LIMIT)
    && (forall i, j | 0 <= i < j < |h.keyspaces| ::
          h.keyspaces[i].0 != h.keyspaces[j].0 && h.keyspaces[i].1 != h.keyspaces[j].1)
    && (forall i | 0 <= i < |h.kv| :: IsHex(h.kv[i].1) && IsHex(h.kv[i].2)
          && exists k :: 0 <= k < |h.keyspaces| && h.keyspaces[k].1 == h.kv[i].0)
    && (forall i, j | 0 <= i < j < |h.kv| :: (h.kv[i].0, h.kv[i].1) != (h.kv[j].0, h.kv[j].1))
  }

  function Catalog(rows: seq<(string, nat)>): map<string, Kid> {
    if rows == [] then map[] else
      var last := rows[|rows| - 1];
      Catalog(rows[..|rows| - 1])[last.0 := Id(last.1)]
  }

  function Stored(rows: seq<(nat, string, string)>): map<(nat, string), string> {
    if rows == [] then map[] else
      var last := rows[|rows| - 1];
      Stored(rows[..|rows| - 1])[(last.0, last.1) := last.2]
  }

  function InitialState(h: Header): State {
    State(Stored(h.kv), Catalog(h.keyspaces))
  }

  // ----- byte strings

  /** The text is the hex form of some bytes. */
  ghost predicate Spelled(s: string) {
    exists bytes: seq<Byte> :: s == ToHex(bytes)
  }

  /** Every text is the hex form of some bytes, at most `limit` of them if there is a limit. */
  ghost predicate AllSpelled(ss: seq<string>, limit: Option<nat>) {
    forall s | s in ss :: Spelled(s) && (limit.Some? ==> |s| <= 2 * limit.value)
  }

  lemma {:induction false} HexReads(s: string) returns (bytes: seq<Byte>)
    requires IsHex(s)
    ensures ToHex(bytes) == s
  {
    bytes := [];
    if s != "" {
      HexShorter(s);
      var rest := HexReads(s[2..]);
      var high := DigitOf(s[0]);
      var low := DigitOf(s[1]);
      bytes := [high * 16 + low] + rest;
      DigitsSplit(high, low);
      HexFirst(high * 16 + low, high, low, rest);
      assert s == [s[0], s[1]] + s[2..];
    }
  }

  lemma HexShorter(s: string)
    requires IsHex(s) && s != ""
    ensures |s| >= 2 && IsHex(s[2..])
  {
  }

  lemma DigitsSplit(high: nat, low: nat)
    requires low < 16
    ensures (high * 16 + low) / 16 == high && (high * 16 + low) % 16 == low
  {
  }

  lemma HexFirst(b: Byte, high: nat, low: nat, rest: seq<Byte>)
    requires high < 16 && low < 16 && high == b / 16 && low == b % 16
    ensures ToHex([b] + rest) == [HexDigit(high), HexDigit(low)] + ToHex(rest)
  {
    assert ([b] + rest)[1..] == rest;
  }

  lemma DigitOf(c: char) returns (n: nat)
    requires '0' <= c <= '9' || 'a' <= c <= 'f'
    ensures n < 16 && HexDigit(n) == c
  {
    n := if c <= '9' then c as int - '0' as int else c as int - 'a' as int + 10;
    assert "0123456789abcdef"[n] == c;
  }

  lemma {:induction false} HexIsText(bytes: seq<Byte>)
    ensures IsHex(ToHex(bytes))
  {
    if bytes != [] {
      HexIsText(bytes[1..]);
      DigitIsText(bytes[0] / 16);
      DigitIsText(bytes[0] % 16);
      TextPair(HexDigit(bytes[0] / 16), HexDigit(bytes[0] % 16), ToHex(bytes[1..]));
    }
  }

  lemma DigitIsText(n: nat)
    requires n < 16
    ensures '0' <= HexDigit(n) <= '9' || 'a' <= HexDigit(n) <= 'f'
  {
  }

  lemma TextPair(a: char, b: char, s: string)
    requires ('0' <= a <= '9' || 'a' <= a <= 'f') && ('0' <= b <= '9' || 'a' <= b <= 'f') && IsHex(s)
    ensures IsHex([a, b] + s)
  {
  }

  /** The digit check accepts exactly the hex forms of byte strings. */
  lemma HexExact(s: string)
    ensures IsHex(s) <==> Spelled(s)
  {
    if IsHex(s) { var bytes := HexReads(s); }
    if bytes: seq<Byte> :| s == ToHex(bytes) { HexIsText(bytes); }
  }

  lemma AllHexExact(ss: seq<string>)
    ensures (forall k | 0 <= k < |ss| :: IsHex(ss[k])) <==> AllSpelled(ss, None)
  {
    forall s | s in ss ensures IsHex(s) <==> Spelled(s) { HexExact(s); }
    assert forall k | 0 <= k < |ss| :: ss[k] in ss;
  }

  lemma AllWithinExact(ss: seq<string>, limit: nat)
    ensures (forall k | 0 <= k < |ss| :: HexWithin(ss[k], 2 * limit)) <==> AllSpelled(ss, Some(limit))
  {
    forall s | s in ss ensures IsHex(s) <==> Spelled(s) { HexExact(s); }
    assert forall k | 0 <= k < |ss| :: ss[k] in ss;
  }

  // ----- what a record means

  /** The ends of the interval a call names. */
  ghost function Bounds(c: Call): seq<string> {
    if c.Scan? || c.DeleteRange? then [c.start, c.end] else []
  }

  /** Every key, value and bound is a byte string; batches belong to version 2 and are bounded. */
  ghost predicate CallDecodes(version: nat, c: Call) {
    if c.CreateKeyspace? then c.name != ""
    else
      && 1 <= c.ks < KEYSPACE_LIMIT
      && if c.BatchGet? || c.BatchPut? then
           && version >= 2 && 1 <= |CallKeys(c)| <= 256
           && AllSpelled(CallKeys(c), Some(4096)) && AllSpelled(CallValues(c), Some(65_536))
         else AllSpelled(CallKeys(c) + CallValues(c) + Bounds(c), None)
  }

  /** The values a reply carries. */
  ghost function Carried(values: seq<Option<string>>): seq<string> {
    if values == [] then []
    else (if values[0].Some? then [values[0].value] else []) + Carried(values[1..])
  }

  ghost function RowTexts(rows: seq<(string, string)>): seq<string> {
    if rows == [] then [] else [rows[0].0, rows[0].1] + RowTexts(rows[1..])
  }

  /** Which replies belong to a call with a given outcome. */
  ghost predicate ReplyBelongs(c: Call, outcome: Outcome, reply: Reply) {
    match reply
    case Precommit => outcome == Refused
    case Empty => outcome == Unknown || (outcome == Ok && (c.Put? || c.Delete? || c.BatchPut?))
    case Chunks(_) => c.DeleteRange? && outcome != Refused
    case Found(_) => c.Get? && outcome == Ok
    case FoundAll(values) => c.BatchGet? && outcome == Ok && |values| == |c.keys|
    case Rows(_) => c.Scan? && outcome == Ok
    case Allocated(n) => c.CreateKeyspace? && outcome == Ok && 1 <= n < KEYSPACE_LIMIT
  }

  /** Every value and row of a reply is a byte string, those of a batch bounded. */
  ghost predicate ReplySpelled(reply: Reply) {
    match reply
    case Found(value) => AllSpelled(Carried([value]), None)
    case FoundAll(values) => 1 <= |values| <= 256 && AllSpelled(Carried(values), Some(65_536))
    case Rows(rows) => AllSpelled(RowTexts(rows), None)
    case _ => true
  }

  ghost predicate ReplyDecodes(c: Call, outcome: Outcome, reply: Reply) {
    ReplyBelongs(c, outcome, reply) && ReplySpelled(reply)
  }

  lemma ArgsExact(version: nat, c: Call)
    ensures ArgsFit(version, c) <==> CallDecodes(version, c)
  {
    match c
    case BatchGet(ks, keys) => BatchGetExact(version, ks, keys);
    case BatchPut(ks, pairs) => BatchPutExact(version, ks, pairs);
    case CreateKeyspace(_) =>
    case _ => PointExact(version, c);
  }

  lemma PointExact(version: nat, c: Call)
    requires !c.BatchGet? && !c.BatchPut? && !c.CreateKeyspace?
    ensures ArgsFit(version, c) <==> CallDecodes(version, c)
  {
    var texts := CallKeys(c) + CallValues(c) + Bounds(c);
    match c
    case Get(_, key) => OneExact(key, texts);
    case Put(_, key, value) => TwoExact(key, value, texts);
    case Delete(_, key) => OneExact(key, texts);
    case Scan(_, start, end, _) => TwoExact(start, end, texts);
    case DeleteRange(_, start, end) => TwoExact(start, end, texts);
  }

  lemma OneExact(a: string, texts: seq<string>)
    requires texts == [a]
    ensures AllSpelled(texts, None) <==> IsHex(a)
  {
    AllHexExact(texts);
    assert texts[0] == a;
  }

  lemma TwoExact(a: string, b: string, texts: seq<string>)
    requires texts == [a, b]
    ensures AllSpelled(texts, None) <==> IsHex(a) && IsHex(b)
  {
    AllHexExact(texts);
    assert texts[0] == a && texts[1] == b;
  }

  lemma BatchGetExact(version: nat, ks: nat, keys: seq<string>)
    ensures ArgsFit(version, BatchGet(ks, keys)) <==> CallDecodes(version, BatchGet(ks, keys))
  {
    AllWithinExact(keys, 4096);
    assert AllSpelled([], Some(65_536));
  }

  lemma BatchPutExact(version: nat, ks: nat, pairs: seq<(string, string)>)
    ensures ArgsFit(version, BatchPut(ks, pairs)) <==> CallDecodes(version, BatchPut(ks, pairs))
  {
    PairsExact(pairs, CallKeys(BatchPut(ks, pairs)), CallValues(BatchPut(ks, pairs)));
  }

  lemma PairsExact(pairs: seq<(string, string)>, keys: seq<string>, values: seq<string>)
    requires |pairs| == |keys| == |values|
    requires forall k | 0 <= k < |pairs| :: keys[k] == pairs[k].0 && values[k] == pairs[k].1
    ensures (forall k | 0 <= k < |pairs| ::
               HexWithin(pairs[k].0, MAX_KEY_DIGITS) && HexWithin(pairs[k].1, MAX_VALUE_DIGITS))
            <==> AllSpelled(keys, Some(4096)) && AllSpelled(values, Some(65_536))
  {
    AllWithinExact(keys, 4096);
    AllWithinExact(values, 65_536);
  }

  lemma {:induction false} CarriedTexts(values: seq<Option<string>>, s: string)
    ensures s in Carried(values) <==> exists k :: 0 <= k < |values| && values[k] == Some(s)
  {
    if values != [] {
      CarriedTexts(values[1..], s);
      assert forall k | 1 <= k < |values| :: values[k] == values[1..][k - 1];
      if k :| 0 <= k < |values[1..]| && values[1..][k] == Some(s) { assert values[k + 1] == Some(s); }
    }
  }

  lemma {:induction false} RowTextsAre(rows: seq<(string, string)>, s: string)
    ensures s in RowTexts(rows) <==> exists k :: 0 <= k < |rows| && (rows[k].0 == s || rows[k].1 == s)
  {
    if rows != [] {
      RowTextsAre(rows[1..], s);
      assert forall k | 1 <= k < |rows| :: rows[k] == rows[1..][k - 1];
      if k :| 0 <= k < |rows[1..]| && (rows[1..][k].0 == s || rows[1..][k].1 == s) {
        assert rows[k + 1] == rows[1..][k];
      }
    }
  }

  lemma CarriedExact(values: seq<Option<string>>, limit: Option<nat>)
    ensures AllSpelled(Carried(values), limit) <==>
              forall k | 0 <= k < |values| && values[k].Some? ::
                IsHex(values[k].value) && (limit.Some? ==> |values[k].value| <= 2 * limit.value)
  {
    forall s ensures s in Carried(values) <==> exists k :: 0 <= k < |values| && values[k] == Some(s) {
      CarriedTexts(values, s);
    }
    forall k | 0 <= k < |values| && values[k].Some?
      ensures values[k].value in Carried(values) && (IsHex(values[k].value) <==> Spelled(values[k].value))
    {
      HexExact(values[k].value);
    }
  }

  lemma RowsExact(rows: seq<(string, string)>)
    ensures AllSpelled(RowTexts(rows), None) <==> forall k | 0 <= k < |rows| :: IsHex(rows[k].0) && IsHex(rows[k].1)
  {
    forall s ensures s in RowTexts(rows) <==> exists k :: 0 <= k < |rows| && (rows[k].0 == s || rows[k].1 == s) {
      RowTextsAre(rows, s);
    }
    forall k | 0 <= k < |rows|
      ensures rows[k].0 in RowTexts(rows) && (IsHex(rows[k].0) <==> Spelled(rows[k].0))
      ensures rows[k].1 in RowTexts(rows) && (IsHex(rows[k].1) <==> Spelled(rows[k].1))
    {
      HexExact(rows[k].0);
      HexExact(rows[k].1);
    }
  }

  lemma ResultExact(c: Call, outcome: Outcome, reply: Reply)
    ensures ResultFits(c, outcome, reply) <==> ReplyDecodes(c, outcome, reply)
  {
    ReplyExact(c, outcome, reply);
    TextsExact(reply);
  }

  lemma ReplyExact(c: Call, outcome: Outcome, reply: Reply)
    ensures ReplyFits(c, outcome, reply) <==> ReplyBelongs(c, outcome, reply)
  {
  }

  lemma TextsExact(reply: Reply)
    ensures TextsFit(reply) <==> ReplySpelled(reply)
  {
    match reply
    case Found(value) => FoundExact(value);
    case FoundAll(values) => FoundAllExact(values);
    case Rows(rows) => RowsExact(rows);
    case _ =>
  }

  lemma FoundExact(value: Option<string>)
    ensures AllSpelled(Carried([value]), None) <==> (value.Some? ==> IsHex(value.value))
  {
    CarriedExact([value], None);
    assert [value][0] == value;
  }

  lemma FoundAllExact(values: seq<Option<string>>)
    ensures AllSpelled(Carried(values), Some(65_536)) <==>
              forall k | 0 <= k < |values| && values[k].Some? :: HexWithin(values[k].value, MAX_VALUE_DIGITS)
  {
    CarriedExact(values, Some(65_536));
  }

  // ----- the initial state

  /** The state holds exactly the header's rows. */
  ghost predicate Initially(h: Header, s: State) {
    && (forall ks: nat, key, value :: HoldsEntry(s, ks, key, value) <==> (ks, key, value) in h.kv)
    && (forall name, n: nat :: HoldsName(s, name, n) <==> (name, n) in h.keyspaces)
    && (forall name | name in s.catalog :: s.catalog[name].Id?)
  }

  ghost predicate HoldsEntry(s: State, ks: nat, key: string, value: string) {
    (ks, key) in s.kv && s.kv[(ks, key)] == value
  }

  ghost predicate HoldsName(s: State, name: string, n: nat) {
    name in s.catalog && s.catalog[name] == Id(n)
  }

  lemma {:induction false} StoredExact(rows: seq<(nat, string, string)>, ks: nat, key: string, value: string)
    requires forall i, j | 0 <= i < j < |rows| :: (rows[i].0, rows[i].1) != (rows[j].0, rows[j].1)
    ensures ((ks, key) in Stored(rows) && Stored(rows)[(ks, key)] == value) <==> (ks, key, value) in rows
  {
    if rows != [] {
      var init, last := rows[..|rows| - 1], rows[|rows| - 1];
      StoredExact(init, ks, key, value);
      assert rows == init + [last];
      assert forall k | 0 <= k < |init| :: rows[k] == init[k];
    }
  }

  lemma {:induction false} CatalogExact(rows: seq<(string, nat)>, name: string, n: nat)
    requires forall i, j | 0 <= i < j < |rows| :: rows[i].0 != rows[j].0
    ensures (name in Catalog(rows) && Catalog(rows)[name] == Id(n)) <==> (name, n) in rows
    ensures name in Catalog(rows) ==> Catalog(rows)[name].Id?
  {
    if rows != [] {
      var init, last := rows[..|rows| - 1], rows[|rows| - 1];
      CatalogExact(init, name, n);
      assert rows == init + [last];
      assert forall k | 0 <= k < |init| :: rows[k] == init[k];
    }
  }

  lemma InitialExact(h: Header)
    requires HeaderFits(h)
    ensures Initially(h, InitialState(h))
  {
    var s := InitialState(h);
    forall ks: nat, key, value ensures HoldsEntry(s, ks, key, value) <==> (ks, key, value) in h.kv {
      StoredExact(h.kv, ks, key, value);
    }
    forall name, n: nat ensures HoldsName(s, name, n) <==> (name, n) in h.keyspaces {
      CatalogExact(h.keyspaces, name, n);
    }
    forall name | name in s.catalog ensures s.catalog[name].Id? { CatalogExact(h.keyspaces, name, 0); }
  }

  lemma InitialDetermined(h: Header, s: State, t: State)
    requires Initially(h, s) && Initially(h, t)
    ensures s == t
  {
    forall e | e in s.kv ensures e in t.kv && t.kv[e] == s.kv[e] { assert HoldsEntry(s, e.0, e.1, s.kv[e]); }
    forall e | e in t.kv ensures e in s.kv { assert HoldsEntry(t, e.0, e.1, t.kv[e]); }
    assert s.kv == t.kv;
    forall name | name in s.catalog ensures name in t.catalog && t.catalog[name] == s.catalog[name] {
      assert HoldsName(s, name, s.catalog[name].n);
    }
    forall name | name in t.catalog ensures name in s.catalog { assert HoldsName(t, name, t.catalog[name].n); }
    assert s.catalog == t.catalog;
  }
}
