/**
 The sequential model of the history checker: operations recorded by clients, the key/value and
 catalog state they act on, and the effects each operation may have on that state.

 Event positions stand for sequence numbers, which parsing requires to be strictly increasing.
 */
module Histories {
  import opened Wrappers
  import opened KeyOrder

  const KEYSPACE_LIMIT: nat := 0x100_0000

  /** A catalog entry's identity: a number, or the symbol of an allocation nobody observed. */
  datatype Kid = Id(n: nat) | Symbol(operation: nat)

  datatype State = State(kv: map<(nat, string), string>, catalog: map<string, Kid>)

  datatype Call =
    | Get(ks: nat, key: string)
    | Put(ks: nat, key: string, value: string)
    | Delete(ks: nat, key: string)
    | BatchGet(ks: nat, keys: seq<string>)
    | BatchPut(ks: nat, pairs: seq<(string, string)>)
    | Scan(ks: nat, start: string, end: string, limit: nat)
    | DeleteRange(ks: nat, start: string, end: string)
    | CreateKeyspace(name: string)

  datatype Outcome = Ok | Refused | Unknown

  datatype Reply =
    | Empty
    | Precommit
    | Found(value: Option<string>)
    | FoundAll(values: seq<Option<string>>)
    | Rows(rows: seq<(string, string)>)
    | Chunks(committed: nat)
    | Allocated(id: nat)

  datatype Operation = Operation(
    id: nat, call: Call, invocation: nat, response: Option<nat>, outcome: Outcome, reply: Reply)

  /** An event of the log, naming its operation by index. */
  datatype Event = Inv(op: nat) | Ret(op: nat)

  datatype History = History(
    events: seq<Event>, ops: seq<Operation>, chunk: nat, initial: State, ids: seq<nat>)

  predicate IsRead(c: Call) {
    c.Get? || c.Scan? || c.BatchGet?
  }

  predicate InRange(key: string, c: Call)
    requires c.Scan? || c.DeleteRange?
  {
    Le(c.start, key) && (c.end == "" || Lt(key, c.end))
  }

  predicate ReplyFits(c: Call, outcome: Outcome, reply: Reply) {
    match outcome
    case Refused => reply == Precommit
    case Unknown => reply == Empty || (c.DeleteRange? && reply.Chunks?)
    case Ok =>
      match c
      case Get(_, _) => reply.Found?
      case Put(_, _, _) => reply == Empty
      case Delete(_, _) => reply == Empty
      case BatchGet(_, keys) => reply.FoundAll? && |reply.values| == |keys|
      case BatchPut(_, _) => reply == Empty
      case Scan(_, _, _, _) => reply.Rows?
      case DeleteRange(_, _, _) => reply.Chunks?
      case CreateKeyspace(_) => reply.Allocated? && 1 <= reply.id < KEYSPACE_LIMIT
  }

  /** What parsing a record sequence establishes: `events` and `ops` describe one another. */
  ghost predicate WellFormed(h: History) {
    && h.chunk >= 1
    && (forall i, j | 0 <= i < j < |h.ops| :: h.ops[i].id != h.ops[j].id)
    && (forall i | 0 <= i < |h.ops| :: OperationFits(h, i))
    && (forall k | 0 <= k < |h.events| :: EventFits(h, k))
    && (forall i, j | 0 <= i < j < |h.ids| :: h.ids[i] != h.ids[j])
    && (forall n | n in h.ids :: 1 <= n < KEYSPACE_LIMIT)
    && (forall name | name in h.initial.catalog :: h.initial.catalog[name].Id? && h.initial.catalog[name].n in h.ids)
    && (forall a, b | a in h.initial.catalog && b in h.initial.catalog && a != b ::
          h.initial.catalog[a] != h.initial.catalog[b])
  }

  ghost predicate OperationFits(h: History, i: nat)
    requires i < |h.ops|
  {
    var op := h.ops[i];
    && op.invocation < |h.events| && h.events[op.invocation] == Inv(i)
    && ReplyFits(op.call, op.outcome, op.reply)
    && (match op.response
        case Some(r) => op.invocation < r < |h.events| && h.events[r] == Ret(i)
        case None => op.outcome == Unknown && op.reply == Empty)
    && (!op.call.CreateKeyspace? ==> op.call.ks in h.ids)
    && (op.call.CreateKeyspace? && op.outcome == Ok ==> op.reply.id in h.ids)
  }

  ghost predicate EventFits(h: History, k: nat)
    requires k < |h.events|
  {
    match h.events[k]
    case Inv(i) => i < |h.ops| && h.ops[i].invocation == k
    case Ret(i) => i < |h.ops| && h.ops[i].response == Some(k)
  }

  /** How far an operation's effects have gone. Only a range deletion takes several steps. */
  datatype Progress = Done | Range(keys: seq<string>, count: nat)

  datatype Detail =
    | Omit
    | Atomic
    | Create(kid: Kid)
    | Select(selected: seq<string>)
    | Chunk(deleted: seq<string>)

  datatype Successor = Successor(state: State, progress: Progress, detail: Detail)

  function Lookup(s: State, ks: nat, key: string): Option<string> {
    if (ks, key) in s.kv then Some(s.kv[(ks, key)]) else None
  }

  /** The whole batch in order: a later pair for the same key wins. */
  function PutAll(kv: map<(nat, string), string>, ks: nat, pairs: seq<(string, string)>): map<(nat, string), string>
    decreases |pairs|
  {
    if pairs == [] then kv else PutAll(kv[(ks, pairs[0].0) := pairs[0].1], ks, pairs[1..])
  }

  function Remove(kv: map<(nat, string), string>, ks: nat, keys: seq<string>): map<(nat, string), string> {
    map e | e in kv && !(e.0 == ks && e.1 in keys) :: kv[e]
  }

  /** The stored keys inside a scan's or range deletion's interval, in increasing order. */
  function KeysIn(s: State, c: Call): seq<string>
    requires c.Scan? || c.DeleteRange?
  {
    Sorted(set e | e in s.kv && e.0 == c.ks && InRange(e.1, c) :: e.1)
  }

  lemma KeysInStored(s: State, c: Call)
    requires c.Scan? || c.DeleteRange?
    ensures forall key | key in KeysIn(s, c) :: (c.ks, key) in s.kv && InRange(key, c)
  {
  }

  function ScanRows(s: State, c: Call): seq<(string, string)>
    requires c.Scan?
  {
    var keys := KeysIn(s, c);
    KeysInStored(s, c);
    var n := if |keys| <= c.limit then |keys| else c.limit;
    seq(n, k requires 0 <= k < n => assert keys[k] in keys; (keys[k], s.kv[(c.ks, keys[k])]))
  }

  function ChunkCount(keys: seq<string>, chunk: nat): nat
    requires chunk >= 1
  {
    (|keys| + chunk - 1) / chunk
  }

  function ChunkAt(keys: seq<string>, chunk: nat, count: nat): seq<string>
    requires count * chunk <= |keys|
  {
    if (count + 1) * chunk <= |keys| then keys[count * chunk .. (count + 1) * chunk] else keys[count * chunk ..]
  }

  predicate Hosted(s: State, ks: nat) {
    exists name | name in s.catalog :: s.catalog[name] == Id(ks)
  }

  function Symbols(s: State): set<string> {
    set name | name in s.catalog && s.catalog[name].Symbol?
  }

  predicate CanAllocate(h: History, s: State, kid: Kid) {
    && (kid.Symbol? ==> |Symbols(s)| < KEYSPACE_LIMIT - 1 - |h.ids|)
    && (forall name | name in s.catalog :: s.catalog[name] != kid)
  }

  function Candidates(h: History, op: Operation): seq<Kid> {
    if op.outcome == Ok && op.reply.Allocated? then [Id(op.reply.id)]
    else seq(|h.ids|, k requires 0 <= k < |h.ids| => Id(h.ids[k])) + [Symbol(op.id)]
  }

  function Creations(h: History, s: State, name: string, kids: seq<Kid>): (r: seq<Successor>)
    ensures forall x | x in r :: x.detail.Create? && x.detail.kid in kids && CanAllocate(h, s, x.detail.kid)
              && x == Successor(s.(catalog := s.catalog[name := x.detail.kid]), Done, Create(x.detail.kid))
    ensures forall kid | kid in kids && CanAllocate(h, s, kid) ::
              Successor(s.(catalog := s.catalog[name := kid]), Done, Create(kid)) in r
  {
    if kids == [] then [] else
      var kid := kids[0];
      (if CanAllocate(h, s, kid) then [Successor(s.(catalog := s.catalog[name := kid]), Done, Create(kid))] else [])
      + Creations(h, s, name, kids[1..])
  }

  /** Every effect operation `i` may have next in state `s`, given its progress so far. */
  function Transitions(h: History, i: nat, s: State, p: Option<Progress>): seq<Successor>
    requires i < |h.ops| && h.chunk >= 1
  {
    var op := h.ops[i];
    if p == Some(Done) then []
    else if op.outcome == Refused || (op.outcome == Unknown && IsRead(op.call)) then
      [Successor(s, Done, Omit)]
    else if op.call.CreateKeyspace? then
      if op.call.name in s.catalog then [] else Creations(h, s, op.call.name, Candidates(h, op))
    else if !Hosted(s, op.call.ks) then []
    else match op.call
      case Put(ks, key, value) => [Successor(s.(kv := s.kv[(ks, key) := value]), Done, Atomic)]
      case BatchPut(ks, pairs) => [Successor(s.(kv := PutAll(s.kv, ks, pairs)), Done, Atomic)]
      case Delete(ks, key) => [Successor(s.(kv := Remove(s.kv, ks, [key])), Done, Atomic)]
      case Get(ks, key) => if op.reply == Found(Lookup(s, ks, key)) then [Successor(s, Done, Atomic)] else []
      case BatchGet(ks, keys) =>
        if op.reply == FoundAll(seq(|keys|, k requires 0 <= k < |keys| => Lookup(s, ks, keys[k])))
        then [Successor(s, Done, Atomic)] else []
      case Scan(_, _, _, _) => if op.reply == Rows(ScanRows(s, op.call)) then [Successor(s, Done, Atomic)] else []
      case DeleteRange(_, _, _) => RangeTransitions(h, op, s, p)
  }

  /** Selecting the keys once, then deleting them chunk by chunk. */
  function RangeTransitions(h: History, op: Operation, s: State, p: Option<Progress>): seq<Successor>
    requires op.call.DeleteRange? && h.chunk >= 1 && p != Some(Done)
  {
    match p
    case None =>
      var keys := KeysIn(s, op.call);
      var total := ChunkCount(keys, h.chunk);
      if op.outcome == Ok && op.reply != Chunks(total) then []
      else if op.outcome == Unknown && op.reply.Chunks? && total < op.reply.committed then []
      else [Successor(s, Range(keys, 0), Select(keys))]
    case Some(Range(keys, count)) =>
      if count * h.chunk >= |keys| then []
      else if op.outcome == Unknown && op.reply.Chunks? && count >= op.reply.committed + 1 then []
      else
        var deleted := ChunkAt(keys, h.chunk, count);
        [Successor(s.(kv := Remove(s.kv, op.call.ks, deleted)), Range(keys, count + 1), Chunk(deleted))]
  }

  /** Whether the effects so far justify the recorded response of operation `i`. */
  predicate Satisfied(h: History, i: nat, p: Option<Progress>)
    requires i < |h.ops|
  {
    var op := h.ops[i];
    if op.call.DeleteRange? && op.outcome != Refused then
      (op.outcome == Unknown && op.reply == Empty)
      || (p.Some? && p.value.Range? && op.reply.Chunks? && p.value.count >= op.reply.committed)
    else op.outcome == Unknown || p == Some(Done)
  }

  function ProgressOf(progress: map<nat, Progress>, i: nat): Option<Progress> {
    if i in progress then Some(progress[i]) else None
  }
}
