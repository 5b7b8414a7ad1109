/** Parsing a record sequence into a history. */
module Parser {
  import opened Wrappers
  import opened Histories
  import opened EventLog
  import opened Shapes

  // ----- observed keyspace identities, in increasing order

  predicate Ascending(s: seq<nat>) {
    forall i, j | 0 <= i < j < |s| :: s[i] < s[j]
  }

  function Insert(s: seq<nat>, x: nat): (r: seq<nat>)
    requires Ascending(s)
    ensures Ascending(r) && forall y :: y in r <==> y in s || y == x
  {
    if s == [] then [x]
    else if x < s[0] then [x] + s
    else if x == s[0] then s
    else
      assert s == [s[0]] + s[1..];
      var rest := Insert(s[1..], x);
      assert forall k | 0 <= k < |rest| :: rest[k] in rest && s[0] < rest[k];
      [s[0]] + rest
  }

  function Identities(rows: seq<(string, nat)>): (r: seq<nat>)
    ensures Ascending(r) && forall n :: n in r <==> exists k :: 0 <= k < |rows| && rows[k].1 == n
  {
    if rows == [] then [] else
      var init := rows[..|rows| - 1];
      assert rows == init + [rows[|rows| - 1]];
      Insert(Identities(init), rows[|rows| - 1].1)
  }

  // ----- which record sequences are histories

  ghost predicate InvokesAt(log: seq<Record>, k: nat, id: int)
    requires k < |log|
  {
    log[k].Invoke? && log[k].id == id
  }

  /** Whether the record at `k` may follow the ones before it. */
  ghost predicate PositionFits(version: nat, log: seq<Record>, k: nat)
    requires k < |log|
  {
    var e := log[k];
    && e.seqno >= 0 && (k > 0 ==> log[k - 1].seqno < e.seqno) && e.id >= 0
    && if e.Invoke? then CallDecodes(version, e.call) && forall j | 0 <= j < k :: !InvokesAt(log, j, e.id)
       else
         && !e.observation.malformed
         && (forall j | 0 <= j < k && log[j].Return? :: log[j].id != e.id)
         && (exists j :: 0 <= j < k && InvokesAt(log, j, e.id))
         && (forall j | 0 <= j < k && InvokesAt(log, j, e.id) :: ReplyDecodes(log[j].call, e.outcome, e.reply))
  }

  ghost predicate PrefixFits(version: nat, log: seq<Record>, n: nat) {
    n <= |log| && forall k | 0 <= k < n :: PositionFits(version, log, k)
  }

  /** The sequence number of the record before position `n`, or -1. */
  predicate Precedes(log: seq<Record>, n: nat, previous: int) {
    n <= |log| && if n == 0 then previous == -1 else previous == log[n - 1].seqno && previous >= 0
  }

  lemma PrefixNext(version: nat, log: seq<Record>, n: nat)
    requires n < |log| && PrefixFits(version, log, n) && PositionFits(version, log, n)
    ensures PrefixFits(version, log, n + 1) && Precedes(log, n + 1, log[n].seqno)
  {
  }

  lemma PrefixBroken(version: nat, log: seq<Record>, n: nat)
    requires n < |log| && !PositionFits(version, log, n)
    ensures !PrefixFits(version, log, |log|)
  {
  }

  ghost predicate Parseable(header: Header, log: seq<Record>) {
    HeaderFits(header) && PrefixFits(header.version, log, |log|) && exists k :: 0 <= k < |log| && log[k].Invoke?
  }

  // ----- the history a record sequence denotes

  datatype Partial = Partial(events: seq<Event>, ops: seq<Operation>, index: map<int, nat>, ids: seq<nat>)

  /** Operation `i` is the call recorded at its invocation, with the terminal recorded for it, if any. */
  ghost predicate OperationParsed(log: seq<Record>, events: seq<Event>, op: Operation, i: nat) {
    && op.invocation < |events| <= |log| && InvokesAt(log, op.invocation, op.id) && op.call == log[op.invocation].call
    && events[op.invocation] == Inv(i)
    && match op.response
       case Some(r) =>
         && op.invocation < r < |events| && log[r].Return? && log[r].id == op.id && events[r] == Ret(i)
         && op.outcome == log[r].outcome && op.reply == log[r].reply
       case None =>
         && op.outcome == Unknown && op.reply == Empty
         && forall k | 0 <= k < |events| && log[k].Return? :: log[k].id != op.id
  }

  ghost predicate EventParsed(log: seq<Record>, ops: seq<Operation>, e: Event, k: nat)
    requires k < |log|
  {
    match e
    case Inv(i) => log[k].Invoke? && i < |ops| && ops[i].invocation == k
    case Ret(i) => log[k].Return? && i < |ops| && ops[i].response == Some(k)
  }

  /** `events` and `ops` are exactly the first `|events|` records, operations in invocation order. */
  ghost predicate Described(log: seq<Record>, events: seq<Event>, ops: seq<Operation>) {
    && |events| <= |log|
    && (forall i | 0 <= i < |ops| :: OperationParsed(log, events, ops[i], i))
    && (forall k | 0 <= k < |events| :: EventParsed(log, ops, events[k], k))
    && (forall i, j | 0 <= i < j < |ops| :: ops[i].invocation < ops[j].invocation)
  }

  /** Whether the operation names keyspace `n`, in its arguments or in the identity it was given. */
  ghost predicate Names(op: Operation, n: nat) {
    if op.call.CreateKeyspace? then op.outcome == Ok && op.reply == Allocated(n) else op.call.ks == n
  }

  ghost predicate Named(ops: seq<Operation>, n: nat) {
    exists i :: 0 <= i < |ops| && Names(ops[i], n)
  }

  /** The observed identities are the header's and the operations'. */
  ghost predicate Sourced(header: Header, ops: seq<Operation>, ids: seq<nat>) {
    forall n :: n in ids <==> (exists k :: 0 <= k < |header.keyspaces| && header.keyspaces[k].1 == n) || Named(ops, n)
  }

  ghost predicate Parsed(header: Header, log: seq<Record>, h: History) {
    && h.chunk == header.chunk && Initially(header, h.initial)
    && |h.events| == |log| && Described(log, h.events, h.ops) && Ascending(h.ids) && Sourced(header, h.ops, h.ids)
  }

  ghost predicate Indexed(ops: seq<Operation>, index: map<int, nat>) {
    && (forall id | id in index :: index[id] < |ops| && ops[index[id]].id == id)
    && (forall i | 0 <= i < |ops| :: ops[i].id in index && index[ops[i].id] == i)
  }

  ghost predicate Typed(ops: seq<Operation>) {
    forall i | 0 <= i < |ops| :: ReplyFits(ops[i].call, ops[i].outcome, ops[i].reply)
  }

  ghost predicate IdsFit(header: Header, ops: seq<Operation>, ids: seq<nat>) {
    Ascending(ids) && Sourced(header, ops, ids) && forall n | n in ids :: 1 <= n < KEYSPACE_LIMIT
  }

  ghost predicate Good(header: Header, log: seq<Record>, p: Partial) {
    && Described(log, p.events, p.ops) && Indexed(p.ops, p.index) && Typed(p.ops) && IdsFit(header, p.ops, p.ids)
    && forall k | 0 <= k < |p.events| :: log[k].id in p.index
  }

  // ----- one record

  function Observe(ids: seq<nat>, c: Call): seq<nat>
    requires Ascending(ids)
  {
    if c.CreateKeyspace? then ids else Insert(ids, c.ks)
  }

  function Called(p: Partial, e: Record): Partial
    requires e.Invoke? && e.id >= 0 && Ascending(p.ids)
  {
    Partial(p.events + [Inv(|p.ops|)], p.ops + [Operation(e.id, e.call, |p.events|, None, Unknown, Empty)],
            p.index[e.id := |p.ops|], Observe(p.ids, e.call))
  }

  function Answered(p: Partial, i: nat, e: Record): Partial
    requires e.Return? && i < |p.ops| && Ascending(p.ids)
  {
    var op := p.ops[i];
    Partial(p.events + [Ret(i)],
            p.ops[i := op.(response := Some(|p.events|), outcome := e.outcome, reply := e.reply)],
            p.index,
            if op.call.CreateKeyspace? && e.outcome == Ok && e.reply.Allocated? then Insert(p.ids, e.reply.id)
            else p.ids)
  }

  lemma CalledDescribed(log: seq<Record>, p: Partial, e: Record)
    requires Described(log, p.events, p.ops) && |p.events| < |log| && e == log[|p.events|] && e.Invoke? && e.id >= 0
             && Ascending(p.ids)
    requires forall k | 0 <= k < |p.events| :: log[k].id != e.id
    ensures Described(log, Called(p, e).events, Called(p, e).ops)
  {
    var q := Called(p, e);
    forall i | 0 <= i < |q.ops| ensures OperationParsed(log, q.events, q.ops[i], i) {
      if i < |p.ops| {
        assert OperationParsed(log, p.events, p.ops[i], i);
      }
    }
    forall k | 0 <= k < |q.events| ensures EventParsed(log, q.ops, q.events[k], k) {
      if k < |p.events| { assert EventParsed(log, p.ops, p.events[k], k); }
    }
    forall i, j | 0 <= i < j < |q.ops| ensures q.ops[i].invocation < q.ops[j].invocation {
      assert OperationParsed(log, p.events, p.ops[i], i);
    }
  }

  lemma AnsweredDescribed(log: seq<Record>, p: Partial, i: nat, e: Record)
    requires Described(log, p.events, p.ops) && |p.events| < |log| && e == log[|p.events|] && e.Return?
             && Ascending(p.ids)
    requires i < |p.ops| && p.ops[i].id == e.id && p.ops[i].response == None && Indexed(p.ops, p.index)
    ensures Described(log, Answered(p, i, e).events, Answered(p, i, e).ops)
  {
    var q := Answered(p, i, e);
    forall j | 0 <= j < |q.ops| ensures OperationParsed(log, q.events, q.ops[j], j) {
      assert OperationParsed(log, p.events, p.ops[j], j);
      assert j != i ==> p.ops[j].id != e.id;
    }
    forall k | 0 <= k < |q.events| ensures EventParsed(log, q.ops, q.events[k], k) {
      if k < |p.events| { assert EventParsed(log, p.ops, p.events[k], k); }
    }
  }

  lemma CalledGood(header: Header, log: seq<Record>, p: Partial)
    requires Good(header, log, p) && |p.events| < |log| && log[|p.events|].Invoke? && log[|p.events|].id >= 0
    requires ArgsFit(header.version, log[|p.events|].call) && log[|p.events|].id !in p.index
    ensures Good(header, log, Called(p, log[|p.events|]))
  {
    var e := log[|p.events|];
    CalledDescribed(log, p, e);
    CalledIds(header, p, e);
  }

  lemma CalledIds(header: Header, p: Partial, e: Record)
    requires IdsFit(header, p.ops, p.ids) && e.Invoke? && e.id >= 0 && ArgsFit(header.version, e.call)
    ensures IdsFit(header, Called(p, e).ops, Called(p, e).ids)
  {
    forall n ensures Named(Called(p, e).ops, n) <==> Named(p.ops, n) || (!e.call.CreateKeyspace? && e.call.ks == n) {
      NamedAppend(p.ops, Operation(e.id, e.call, |p.events|, None, Unknown, Empty), n);
    }
  }

  lemma NamedAppend(ops: seq<Operation>, op: Operation, n: nat)
    ensures Named(ops + [op], n) <==> Named(ops, n) || Names(op, n)
  {
    if i :| 0 <= i < |ops| && Names(ops[i], n) { assert (ops + [op])[i] == ops[i]; }
    if Names(op, n) { assert (ops + [op])[|ops|] == op; }
  }

  lemma NamedUpdate(ops: seq<Operation>, i: nat, op: Operation, n: nat)
    requires i < |ops| && (Names(ops[i], n) ==> Names(op, n))
    ensures Named(ops[i := op], n) <==> Named(ops, n) || Names(op, n)
  {
    if j :| 0 <= j < |ops| && Names(ops[j], n) { assert Names(ops[i := op][j], n); }
    if Names(op, n) { assert Names(ops[i := op][i], n); }
  }

  /** Answering operation `i` can only add the identity it was given. */
  lemma AnsweredIds(header: Header, p: Partial, i: nat, e: Record)
    requires IdsFit(header, p.ops, p.ids) && e.Return? && i < |p.ops| && ResultFits(p.ops[i].call, e.outcome, e.reply)
    requires p.ops[i].outcome == Unknown
    ensures IdsFit(header, Answered(p, i, e).ops, Answered(p, i, e).ids)
  {
    var q := Answered(p, i, e);
    forall n ensures n in q.ids <==> n in p.ids || Names(q.ops[i], n) {
      if Names(q.ops[i], n) && !q.ops[i].call.CreateKeyspace? { assert Names(p.ops[i], n) && Named(p.ops, n); }
    }
    forall n ensures Named(q.ops, n) <==> Named(p.ops, n) || Names(q.ops[i], n) {
      NamedUpdate(p.ops, i, q.ops[i], n);
    }
  }

  lemma AnsweredGood(header: Header, log: seq<Record>, p: Partial, i: nat, e: Record)
    requires Good(header, log, p) && |p.events| < |log| && e == log[|p.events|] && e.Return? && e.id in p.index
             && i == p.index[e.id]
    requires p.ops[i].response == None && ResultFits(p.ops[i].call, e.outcome, e.reply)
    ensures Good(header, log, Answered(p, i, e))
  {
    AnsweredDescribed(log, p, i, e);
    assert OperationParsed(log, p.events, p.ops[i], i);
    AnsweredIds(header, p, i, e);
    var q := Answered(p, i, e);
    assert Indexed(q.ops, q.index);
    forall k | 0 <= k < |q.events| ensures log[k].id in q.index {}
  }

  // ----- the two directions of acceptance at one record

  /** The earlier call an indexed identity names. */
  lemma IndexNamesCall(header: Header, log: seq<Record>, p: Partial, id: int)
    requires Good(header, log, p)
    ensures id in p.index <==> exists j :: 0 <= j < |p.events| && InvokesAt(log, j, id)
    ensures id in p.index ==> forall j | 0 <= j < |p.events| && InvokesAt(log, j, id) ::
            j == p.ops[p.index[id]].invocation
  {
    if id in p.index {
      assert OperationParsed(log, p.events, p.ops[p.index[id]], p.index[id]);
    }
    forall j | 0 <= j < |p.events| && InvokesAt(log, j, id)
      ensures id in p.index && j == p.ops[p.index[id]].invocation
    {
      assert EventParsed(log, p.ops, p.events[j], j);
      var i := p.events[j].op;
      assert OperationParsed(log, p.events, p.ops[i], i);
    }
  }

  lemma AnsweredBefore(header: Header, log: seq<Record>, p: Partial, id: int)
    requires Good(header, log, p) && id in p.index
    ensures p.ops[p.index[id]].response.Some? <==> exists j :: 0 <= j < |p.events| && log[j].Return? && log[j].id == id
  {
    assert OperationParsed(log, p.events, p.ops[p.index[id]], p.index[id]);
  }

  predicate RecordFits(version: nat, p: Partial, previous: int, e: Record)
    requires forall id | id in p.index :: p.index[id] < |p.ops|
  {
    && previous < e.seqno && e.id >= 0
    && if e.Invoke? then e.id !in p.index && ArgsFit(version, e.call)
       else
         && e.id in p.index && p.ops[p.index[e.id]].response == None && !e.observation.malformed
         && ResultFits(p.ops[p.index[e.id]].call, e.outcome, e.reply)
  }

  lemma RecordFitsPosition(header: Header, log: seq<Record>, p: Partial, previous: int)
    requires Good(header, log, p) && |p.events| < |log|
    requires Precedes(log, |p.events|, previous)
    ensures RecordFits(header.version, p, previous, log[|p.events|]) <==> PositionFits(header.version, log, |p.events|)
  {
    var e := log[|p.events|];
    IndexNamesCall(header, log, p, e.id);
    if e.Invoke? { ArgsExact(header.version, e.call); }
    if e.id in p.index {
      if e.Return? { ResultExact(p.ops[p.index[e.id]].call, e.outcome, e.reply); }
      AnsweredBefore(header, log, p, e.id);
      assert OperationParsed(log, p.events, p.ops[p.index[e.id]], p.index[e.id]);
    }
  }

  lemma GoodOperation(header: Header, log: seq<Record>, p: Partial, i: nat)
    requires header.chunk >= 1 && Good(header, log, p) && i < |p.ops|
    ensures OperationFits(History(p.events, p.ops, header.chunk, InitialState(header), p.ids), i)
  {
    assert OperationParsed(log, p.events, p.ops[i], i);
    var op := p.ops[i];
    if !op.call.CreateKeyspace? {
      assert Names(op, op.call.ks);
    } else if op.outcome == Ok {
      assert Names(op, op.reply.id);
    }
  }

  /** The initial catalog holds distinct observed identities. */
  lemma CatalogFits(header: Header, ops: seq<Operation>, ids: seq<nat>)
    requires HeaderFits(header) && Sourced(header, ops, ids)
    ensures var catalog := Catalog(header.keyspaces);
            && (forall name | name in catalog :: catalog[name].Id? && catalog[name].n in ids)
            && (forall a, b | a in catalog && b in catalog && a != b :: catalog[a] != catalog[b])
  {
    var rows := header.keyspaces;
    var catalog := Catalog(rows);
    forall name | name in catalog ensures catalog[name].Id? && (name, catalog[name].n) in rows {
      CatalogExact(rows, name, 0);
      CatalogExact(rows, name, catalog[name].n);
    }
    forall name | name in catalog ensures catalog[name].n in ids {
      var i :| 0 <= i < |rows| && rows[i] == (name, catalog[name].n);
    }
    forall a, b | a in catalog && b in catalog && a != b ensures catalog[a] != catalog[b] {
      var i :| 0 <= i < |rows| && rows[i] == (a, catalog[a].n);
      var j :| 0 <= j < |rows| && rows[j] == (b, catalog[b].n);
      assert i != j;
    }
  }

  lemma GoodIsWellFormed(header: Header, log: seq<Record>, p: Partial)
    requires HeaderFits(header) && Good(header, log, p)
    ensures WellFormed(History(p.events, p.ops, header.chunk, InitialState(header), p.ids))
  {
    var h := History(p.events, p.ops, header.chunk, InitialState(header), p.ids);
    CatalogFits(header, p.ops, p.ids);
    assert h.initial.catalog == Catalog(header.keyspaces);
    forall i | 0 <= i < |h.ops| ensures OperationFits(h, i) { GoodOperation(header, log, p, i); }
    forall k | 0 <= k < |h.events| ensures EventFits(h, k) { assert EventParsed(log, p.ops, p.events[k], k); }
    forall i, j | 0 <= i < j < |h.ops| ensures h.ops[i].id != h.ops[j].id {
      assert p.index[p.ops[i].id] == i && p.index[p.ops[j].id] == j;
    }
  }

  lemma SomeOperation(log: seq<Record>, p: Partial)
    requires Described(log, p.events, p.ops) && |p.events| == |log|
    ensures p.ops != [] <==> exists k :: 0 <= k < |log| && log[k].Invoke?
  {
    if p.ops != [] { assert OperationParsed(log, p.events, p.ops[0], 0); }
    forall k | 0 <= k < |log| && log[k].Invoke? ensures p.ops != [] { assert EventParsed(log, p.ops, p.events[k], k); }
  }

  // ----- parsing

  /** The validator's work on one record. */
  function Applied(p: Partial, e: Record): (q: Partial)
    requires e.id >= 0 && Ascending(p.ids) && (e.Return? ==> e.id in p.index && p.index[e.id] < |p.ops|)
    ensures |q.events| == |p.events| + 1
  {
    if e.Invoke? then Called(p, e) else Answered(p, p.index[e.id], e)
  }

  lemma AppliedGood(header: Header, log: seq<Record>, p: Partial, previous: int)
    requires Good(header, log, p) && |p.events| < |log| && RecordFits(header.version, p, previous, log[|p.events|])
    ensures Good(header, log, Applied(p, log[|p.events|]))
  {
    var e := log[|p.events|];
    if e.Invoke? {
      CalledGood(header, log, p);
    } else {
      AnsweredGood(header, log, p, p.index[e.id], e);
    }
  }

  /** Whether the next record fits decides the log so far. */
  lemma RecordDecides(header: Header, log: seq<Record>, p: Partial, previous: int)
    requires Good(header, log, p) && |p.events| < |log|
    requires PrefixFits(header.version, log, |p.events|) && Precedes(log, |p.events|, previous)
    ensures RecordFits(header.version, p, previous, log[|p.events|]) ==>
              PrefixFits(header.version, log, |p.events| + 1) && Precedes(log, |p.events| + 1, log[|p.events|].seqno)
    ensures !RecordFits(header.version, p, previous, log[|p.events|]) ==> !PrefixFits(header.version, log, |log|)
  {
    RecordFitsPosition(header, log, p, previous);
    if PositionFits(header.version, log, |p.events|) {
      PrefixNext(header.version, log, |p.events|);
    } else {
      PrefixBroken(header.version, log, |p.events|);
    }
  }

  /** The records so far fit and `p` is their history. */
  ghost predicate Parsing(header: Header, log: seq<Record>, p: Partial, previous: int) {
    && Good(header, log, p) && PrefixFits(header.version, log, |p.events|)
    && Precedes(log, |p.events|, previous)
  }

  lemma ParseNext(header: Header, log: seq<Record>, p: Partial, previous: int)
    requires Parsing(header, log, p, previous) && |p.events| < |log|
    ensures RecordFits(header.version, p, previous, log[|p.events|]) ==>
              Parsing(header, log, Applied(p, log[|p.events|]), log[|p.events|].seqno)
    ensures !RecordFits(header.version, p, previous, log[|p.events|]) ==> !PrefixFits(header.version, log, |log|)
  {
    RecordDecides(header, log, p, previous);
    if RecordFits(header.version, p, previous, log[|p.events|]) {
      AppliedGood(header, log, p, previous);
    }
  }

  lemma GoodParse(header: Header, log: seq<Record>, p: Partial)
    requires HeaderFits(header) && Good(header, log, p) && |p.events| == |log|
    ensures var h := History(p.events, p.ops, header.chunk, InitialState(header), p.ids);
            Parsed(header, log, h) && WellFormed(h)
  {
    GoodIsWellFormed(header, log, p);
    InitialExact(header);
  }

  lemma NothingParsed(header: Header, log: seq<Record>)
    requires HeaderFits(header)
    ensures Good(header, log, Partial([], [], map[], Identities(header.keyspaces)))
  {
    var ids := Identities(header.keyspaces);
    forall n ensures n in ids <==> exists k :: 0 <= k < |header.keyspaces| && header.keyspaces[k].1 == n {}
  }

  /** Takes the records one by one. */
  method ParseRecords(header: Header, log: seq<Record>) returns (result: Option<Partial>)
    requires HeaderFits(header)
    ensures result.Some? <==> PrefixFits(header.version, log, |log|)
    ensures result.Some? ==> Good(header, log, result.value) && |result.value.events| == |log|
  {
    var p := Partial([], [], map[], Identities(header.keyspaces));
    var previous := -1;
    NothingParsed(header, log);
    while |p.events| < |log|
      invariant Parsing(header, log, p, previous)
      decreases |log| - |p.events|
    {
      var e := log[|p.events|];
      ParseNext(header, log, p, previous);
      if !RecordFits(header.version, p, previous, e) {
        return None;
      }
      previous := e.seqno;
      p := Applied(p, e);
    }
    return Some(p);
  }

  /** Accepts exactly the well-ordered, matched and typed record sequences with some operation. */
  method Parse(header: Header, log: seq<Record>) returns (result: Option<History>)
    ensures result.Some? <==> Parseable(header, log)
    ensures result.Some? ==> Parsed(header, log, result.value) && WellFormed(result.value)
  {
    if !HeaderFits(header) {
      return None;
    }
    var parsed := ParseRecords(header, log);
    if parsed.None? {
      return None;
    }
    var p := parsed.value;
    SomeOperation(log, p);
    if p.ops == [] {
      return None;
    }
    GoodParse(header, log, p);
    return Some(History(p.events, p.ops, header.chunk, InitialState(header), p.ids));
  }

  // ----- the parse is determined

  lemma {:induction false} SameInvocations(log: seq<Record>, events: seq<Event>, ops: seq<Operation>,
                                           events': seq<Event>, ops': seq<Operation>, i: nat)
    requires Described(log, events, ops) && Described(log, events', ops') && |events| == |events'| && i < |ops|
    ensures i < |ops'| && ops'[i].invocation == ops[i].invocation
  {
    if i > 0 { SameInvocations(log, events, ops, events', ops', i - 1); }
    assert OperationParsed(log, events, ops[i], i);
    var k := ops[i].invocation;
    assert EventParsed(log, ops', events'[k], k);
    var j := events'[k].op;
    if i > 0 { assert j > i - 1; }
    assert OperationParsed(log, events', ops'[i], i);
    var m := ops'[i].invocation;
    assert EventParsed(log, ops, events[m], m);
  }

  lemma SameOperation(log: seq<Record>, events: seq<Event>, ops: seq<Operation>, events': seq<Event>,
                      ops': seq<Operation>, i: nat)
    requires Described(log, events, ops) && Described(log, events', ops') && |events| == |events'| && i < |ops|
    requires forall j, k | 0 <= j < k < |log| && log[j].Return? && log[k].Return? :: log[j].id != log[k].id
    ensures i < |ops'| && ops'[i] == ops[i]
  {
    SameInvocations(log, events, ops, events', ops', i);
    assert OperationParsed(log, events, ops[i], i) && OperationParsed(log, events', ops'[i], i);
  }

  lemma SameEvent(log: seq<Record>, events: seq<Event>, events': seq<Event>, ops: seq<Operation>, k: nat)
    requires Described(log, events, ops) && Described(log, events', ops) && |events| == |events'| && k < |events|
    ensures events[k] == events'[k]
  {
    assert EventParsed(log, ops, events[k], k) && EventParsed(log, ops, events'[k], k);
    var i, j := events[k].op, events'[k].op;
    assert OperationParsed(log, events, ops[i], i) && OperationParsed(log, events', ops[j], j);
    assert OperationParsed(log, events, ops[j], j);
  }

  lemma SameFirst(s: seq<nat>, t: seq<nat>)
    requires Ascending(s) && Ascending(t) && s != [] && t != [] && s[0] in t && t[0] in s
    ensures s[0] == t[0]
  {
    var i :| 0 <= i < |t| && t[i] == s[0];
    var j :| 0 <= j < |s| && s[j] == t[0];
  }

  lemma InTail(s: seq<nat>, n: nat)
    requires Ascending(s) && s != []
    ensures n in s[1..] <==> n in s && n != s[0]
  {
    assert s == [s[0]] + s[1..];
  }

  lemma {:induction false} SameAscending(s: seq<nat>, t: seq<nat>)
    requires Ascending(s) && Ascending(t) && forall n :: n in s <==> n in t
    ensures s == t
  {
    assert (forall k | 0 <= k < |t| :: t[k] in s) && (forall k | 0 <= k < |s| :: s[k] in t);
    assert |t| > 0 ==> t[0] in s;
    assert |s| > 0 ==> s[0] in t;
    if s != [] && t != [] {
      SameFirst(s, t);
      forall n ensures n in s[1..] <==> n in t[1..] { InTail(s, n); InTail(t, n); }
      SameAscending(s[1..], t[1..]);
    }
  }

  /** A record sequence denotes one history. */
  lemma ParseDetermined(header: Header, log: seq<Record>, h: History, h': History)
    requires Parseable(header, log) && Parsed(header, log, h) && Parsed(header, log, h')
    ensures h == h'
  {
    forall j, k | 0 <= j < k < |log| && log[j].Return? && log[k].Return? ensures log[j].id != log[k].id {
      assert PositionFits(header.version, log, k);
    }
    forall i | 0 <= i < |h.ops| ensures i < |h'.ops| && h'.ops[i] == h.ops[i] {
      SameOperation(log, h.events, h.ops, h'.events, h'.ops, i);
    }
    if |h.ops| < |h'.ops| {
      SameOperation(log, h'.events, h'.ops, h.events, h.ops, |h.ops|);
    }
    if |h'.ops| < |h.ops| {
      SameOperation(log, h.events, h.ops, h'.events, h'.ops, |h'.ops|);
    }
    assert h.ops == h'.ops;
    forall k | 0 <= k < |log| ensures h.events[k] == h'.events[k] {
      SameEvent(log, h.events, h'.events, h.ops, k);
    }
    SameAscending(h.ids, h'.ids);
    InitialDetermined(header, h.initial, h'.initial);
  }
}
