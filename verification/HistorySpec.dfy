/**
 What a legal execution of a recorded history is, stated without certificates, search order or
 symbolic identities: client events happen in their recorded order, effects happen in between,
 and a keyspace creation takes any unused nonzero 24-bit number.
 */
module HistorySpec {
  import opened Wrappers
  import opened KeyOrder
  import opened Histories
  import opened Certificates

  // ----- the documented effect of each operation

  /** The key is in the keyspace and in `[start, end)`; an empty end is no bound. */
  ghost predicate Stored(s: State, c: Call, key: string)
    requires c.Scan? || c.DeleteRange?
  {
    (c.ks, key) in s.kv && (key == c.start || Lt(c.start, key)) && (c.end != "" ==> Lt(key, c.end))
  }

  /** Some name in the catalog has this number. */
  ghost predicate Registered(s: State, ks: nat) {
    Id(ks) in s.catalog.Values
  }

  /** The keys fill exactly `n` chunks. */
  ghost predicate FillsChunks(keys: seq<string>, chunk: nat, n: nat) {
    |keys| <= n * chunk && (n > 0 ==> (n - 1) * chunk < |keys|)
  }

  /** The keys reach into chunk `n` when chunks are counted from one. */
  ghost predicate ReachesChunk(keys: seq<string>, chunk: nat, n: nat) {
    n > 0 ==> (n - 1) * chunk < |keys|
  }

  /** An operation that observes and never changes anything. */
  ghost predicate ReadOnly(c: Call) {
    match c
    case Get(_, _) => true
    case BatchGet(_, _) => true
    case Scan(_, _, _, _) => true
    case _ => false
  }

  ghost predicate Increasing(keys: seq<string>) {
    forall i, j | 0 <= i < j < |keys| :: Lt(keys[i], keys[j])
  }

  ghost function RowKeys(rows: seq<(string, string)>): (r: seq<string>)
    ensures |r| == |rows| && forall k | 0 <= k < |r| :: r[k] == rows[k].0
  {
    seq(|rows|, k requires 0 <= k < |rows| => rows[k].0)
  }

  /** A sorted page over the interval: everything left out comes after a full page. */
  ghost predicate IsPage(s: State, c: Call, rows: seq<(string, string)>)
    requires c.Scan?
  {
    && |rows| <= c.limit && Increasing(RowKeys(rows))
    && (forall k | 0 <= k < |rows| :: Stored(s, c, rows[k].0) && s.kv[(c.ks, rows[k].0)] == rows[k].1)
    && (forall key | Stored(s, c, key) && key !in RowKeys(rows) ::
          |rows| == c.limit && forall k | 0 <= k < |rows| :: Lt(RowKeys(rows)[k], key))
  }

  /** The immutable snapshot a range deletion works from. */
  ghost predicate IsSnapshot(s: State, c: Call, keys: seq<string>)
    requires c.DeleteRange?
  {
    Increasing(keys) && forall key :: key in keys <==> Stored(s, c, key)
  }

  ghost function At(kv: map<(nat, string), string>, e: (nat, string)): Option<string> {
    if e in kv then Some(kv[e]) else None
  }

  /** The value of the last pair for `key`, if the batch has one. */
  ghost function LastPair(pairs: seq<(string, string)>, key: string): Option<string> {
    if pairs == [] then None
    else if LastPair(pairs[1..], key).Some? then LastPair(pairs[1..], key)
    else if pairs[0].0 == key then Some(pairs[0].1) else None
  }

  ghost predicate LastWins(
    kv: map<(nat, string), string>, ks: nat, pairs: seq<(string, string)>, kv': map<(nat, string), string>)
  {
    forall e :: At(kv', e) == if e.0 == ks && LastPair(pairs, e.1).Some? then LastPair(pairs, e.1) else At(kv, e)
  }

  ghost predicate Allocates(op: Operation, s: State, s': State, n: nat)
    requires op.call.CreateKeyspace?
  {
    && 1 <= n < KEYSPACE_LIMIT
    && (op.outcome == Ok ==> op.reply == Allocated(n))
    && (forall name | name in s.catalog :: s.catalog[name] != Id(n))
    && s' == s.(catalog := s.catalog[op.call.name := Id(n)])
  }

  /** The effect of an operation other than a range deletion or a creation. */
  ghost predicate PointEffect(op: Operation, s: State, s': State)
    requires !op.call.DeleteRange? && !op.call.CreateKeyspace?
  {
    Registered(s, op.call.ks) && s'.catalog == s.catalog &&
    match op.call
    case Put(ks, key, value) => s'.kv == s.kv[(ks, key) := value]
    case Delete(ks, key) => s'.kv == s.kv - {(ks, key)}
    case BatchPut(ks, pairs) => LastWins(s.kv, ks, pairs, s'.kv)
    case Get(ks, key) => s' == s && op.reply == Found(At(s.kv, (ks, key)))
    case BatchGet(ks, keys) =>
      && s' == s && op.reply.FoundAll? && |op.reply.values| == |keys|
      && forall k | 0 <= k < |keys| :: op.reply.values[k] == At(s.kv, (ks, keys[k]))
    case Scan(_, _, _, _) => s' == s && op.reply.Rows? && IsPage(s, op.call, op.reply.rows)
  }

  ghost predicate RangeEffect(h: History, op: Operation, s: State, p: Option<Progress>, s': State, p': Progress)
    requires op.call.DeleteRange? && h.chunk >= 1
  {
    Registered(s, op.call.ks) && s'.catalog == s.catalog && p'.Range? &&
    match p
    case None =>
      && s' == s && p'.count == 0 && IsSnapshot(s, op.call, p'.keys)
      && (op.outcome == Ok ==> op.reply.Chunks? && FillsChunks(p'.keys, h.chunk, op.reply.committed))
      && (op.outcome == Unknown && op.reply.Chunks? ==> ReachesChunk(p'.keys, h.chunk, op.reply.committed))
    case Some(before) =>
      && before.Range? && before.count * h.chunk < |before.keys|
      && (op.outcome == Unknown && op.reply.Chunks? ==> before.count <= op.reply.committed)
      && p' == Range(before.keys, before.count + 1)
      && s'.kv == s.kv - (set j | before.count * h.chunk <= j < (before.count + 1) * h.chunk && j < |before.keys|
                            :: (op.call.ks, before.keys[j]))
  }

  /** One effect of operation `i` in the documented model. */
  ghost predicate SpecEffect(h: History, i: nat, s: State, p: Option<Progress>, s': State, p': Progress)
    requires i < |h.ops| && h.chunk >= 1
  {
    var op := h.ops[i];
    p != Some(Done) &&
    if op.outcome == Refused || (op.outcome == Unknown && ReadOnly(op.call)) then s' == s && p' == Done
    else if op.call.CreateKeyspace? then
      p' == Done && op.call.name !in s.catalog && exists n :: Allocates(op, s, s', n)
    else if op.call.DeleteRange? then RangeEffect(h, op, s, p, s', p')
    else p' == Done && PointEffect(op, s, s')
  }

  // ----- executions

  /** A response may be observed once what it reports has happened: the reported number of chunks, the whole
      of any other confirmed or refused operation, and nothing in particular when the outcome is unknown. */
  ghost predicate Justified(op: Operation, p: Option<Progress>) {
    match op.reply
    case Chunks(n) => p.Some? && p.value.Range? && n <= p.value.count
    case _ => op.outcome == Unknown || p == Some(Done)
  }

  lemma JustifiedExact(h: History, i: nat, p: Option<Progress>)
    requires WellFormed(h) && i < |h.ops|
    ensures Justified(h.ops[i], p) <==> Satisfied(h, i, p)
  {
    assert OperationFits(h, i);
  }

  ghost predicate Observes(h: History, c: Config, c': Config)
    requires WellFormed(h)
  {
    && c.cursor < |h.events| && c' == c.(cursor := c.cursor + 1)
    && (h.events[c.cursor].Ret? ==>
        h.events[c.cursor].op < |h.ops| &&
        Justified(h.ops[h.events[c.cursor].op], ProgressOf(c.progress, h.events[c.cursor].op)))
  }

  /** The checker's barrier is the documented one. */
  lemma BarrierExact(h: History, progress: map<nat, Progress>, k: nat)
    requires WellFormed(h) && k < |h.events| && h.events[k].Ret?
    ensures h.events[k].op < |h.ops|
    ensures BarrierMet(h, progress, k) <==> Justified(h.ops[h.events[k].op], ProgressOf(progress, h.events[k].op))
  {
    assert EventFits(h, k);
    JustifiedExact(h, h.events[k].op, ProgressOf(progress, h.events[k].op));
  }

  lemma ObservesExact(h: History, c: Config, c': Config)
    requires WellFormed(h) && c.cursor < |h.events| && c' == c.(cursor := c.cursor + 1)
    ensures Observes(h, c, c') <==> (h.events[c.cursor].Ret? ==> BarrierMet(h, c.progress, c.cursor))
  {
    if h.events[c.cursor].Ret? { BarrierExact(h, c.progress, c.cursor); }
  }

  ghost predicate Affects(h: History, c: Config, i: nat, c': Config)
    requires WellFormed(h)
  {
    && i < |h.ops| && h.ops[i].invocation < c.cursor
    && i in c'.progress
    && c' == Config(c'.state, c.progress[i := c'.progress[i]], c.cursor)
    && SpecEffect(h, i, c.state, ProgressOf(c.progress, i), c'.state, c'.progress[i])
  }

  ghost predicate Steps(h: History, c: Config, c': Config)
    requires WellFormed(h)
  {
    Observes(h, c, c') || exists i :: Affects(h, c, i, c')
  }

  ghost predicate Execution(h: History, cs: seq<Config>)
    requires WellFormed(h)
  {
    && cs != [] && cs[0] == Config(h.initial, map[], 0)
    && forall k | 0 <= k < |cs| - 1 :: Steps(h, cs[k], cs[k + 1])
  }

  /** The recorded events admit a legal execution of the model. */
  ghost predicate Explained(h: History)
    requires WellFormed(h)
  {
    exists cs: seq<Config> :: Execution(h, cs) && cs[|cs| - 1].cursor == |h.events|
  }

  // ----- the model functions meet the documented effects

  /** An increasing list that skips nothing smaller is a prefix of the sorted listing. */
  lemma {:induction false} PrefixOf(all: seq<string>, some: seq<string>, n: nat)
    requires Increasing(all) && Increasing(some) && n <= |some|
    requires forall x | x in some :: x in all
    requires forall x, k | x in all && x !in some && 0 <= k < |some| :: Lt(some[k], x)
    ensures n <= |all| && forall k | 0 <= k < n :: some[k] == all[k]
  {
    if n > 0 {
      PrefixOf(all, some, n - 1);
      var x := some[n - 1];
      assert x in some;
      var m :| 0 <= m < |all| && all[m] == x;
      assert m >= n - 1;
      if m > n - 1 {
        var y := all[n - 1];
        assert y in all && Lt(y, x);
        if y in some {
          var k :| 0 <= k < |some| && some[k] == y;
          assert k > n - 1;
        }
        Antisymmetric(y, x);
      }
    }
  }

  lemma HostedExact(s: State, ks: nat)
    ensures Hosted(s, ks) <==> Registered(s, ks)
  {
  }

  lemma RangeExact(key: string, c: Call)
    requires c.Scan? || c.DeleteRange?
    ensures InRange(key, c) <==> (key == c.start || Lt(c.start, key)) && (c.end != "" ==> Lt(key, c.end))
  {
    Total(key, key);
  }

  /** The chunk count is the number of chunks the keys fill. */
  lemma ChunkCountExact(keys: seq<string>, chunk: nat, n: nat)
    requires chunk >= 1
    ensures n == ChunkCount(keys, chunk) <==> FillsChunks(keys, chunk, n)
    ensures n <= ChunkCount(keys, chunk) <==> ReachesChunk(keys, chunk, n)
  {
    var m, q := |keys|, ChunkCount(keys, chunk);
    assert q * chunk <= m + chunk - 1 < q * chunk + chunk;
    if n <= q { Scaled(n, q, chunk); } else { Scaled(q, n - 1, chunk); }
    if n < q { Scaled(n, q - 1, chunk); }
    if n > 0 { assert (n - 1) * chunk == n * chunk - chunk; }
    if q > 0 { assert (q - 1) * chunk == q * chunk - chunk; }
  }

  lemma Scaled(a: nat, b: nat, k: nat)
    requires a <= b
    ensures a * k <= b * k
  {
    assert b * k == a * k + (b - a) * k;
  }

  lemma KeysAreStored(s: State, c: Call)
    requires c.Scan? || c.DeleteRange?
    ensures forall key :: key in KeysIn(s, c) <==> Stored(s, c, key)
  {
    forall key ensures key in KeysIn(s, c) <==> Stored(s, c, key) { RangeExact(key, c); }
  }

  lemma SnapshotDetermined(s: State, c: Call, keys: seq<string>)
    requires c.DeleteRange?
    ensures IsSnapshot(s, c, keys) <==> keys == KeysIn(s, c)
  {
    var all := KeysIn(s, c);
    KeysAreStored(s, c);
    if IsSnapshot(s, c, keys) {
      PrefixOf(all, keys, |keys|);
      PrefixOf(keys, all, |all|);
    }
  }

  lemma PageOfListing(s: State, c: Call)
    requires c.Scan?
    ensures IsPage(s, c, ScanRows(s, c))
  {
    var all := KeysIn(s, c);
    KeysAreStored(s, c);
    var page := ScanRows(s, c);
    assert RowKeys(page) == all[..|page|];
    forall key | Stored(s, c, key) && key !in RowKeys(page)
      ensures |page| == c.limit && forall k | 0 <= k < |page| :: Lt(RowKeys(page)[k], key)
    {
      assert key in all;
    }
  }

  lemma PageDetermined(s: State, c: Call, rows: seq<(string, string)>)
    requires c.Scan? && IsPage(s, c, rows)
    ensures rows == ScanRows(s, c)
  {
    var all, keys, page := KeysIn(s, c), RowKeys(rows), ScanRows(s, c);
    KeysAreStored(s, c);
    PrefixOf(all, keys, |keys|);
    if |keys| < |all| {
      assert all[|keys|] in all && all[|keys|] !in keys;
    }
    forall k | 0 <= k < |rows| ensures rows[k] == page[k] {
      assert rows[k].0 == keys[k] == all[k];
    }
  }

  lemma {:induction false} PutAllLastWins(kv: map<(nat, string), string>, ks: nat, pairs: seq<(string, string)>)
    ensures LastWins(kv, ks, pairs, PutAll(kv, ks, pairs))
    decreases |pairs|
  {
    if pairs != [] {
      PutAllLastWins(kv[(ks, pairs[0].0) := pairs[0].1], ks, pairs[1..]);
    }
  }

  lemma LastWinsDetermined(kv: map<(nat, string), string>, ks: nat, pairs: seq<(string, string)>,
                           a: map<(nat, string), string>, b: map<(nat, string), string>)
    requires LastWins(kv, ks, pairs, a) && LastWins(kv, ks, pairs, b)
    ensures a == b
  {
    assert forall e :: At(a, e) == At(b, e);
    assert forall e :: (e in a <==> At(a, e).Some?) && (e in b <==> At(b, e).Some?);
  }
}
