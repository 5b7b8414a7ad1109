/**
 The event log of a native-batch run and the ledger its validator keeps: which calls are issued,
 active and completed, which workers are busy, which nonces were used, the highest concurrency and
 the per-phase item accounting.
 */
module EventLog {
  import opened Wrappers
  import opened Counting
  import opened Histories
  import opened Mixer
  import opened Workload

  // ----- records

  /** A recognized traffic phase keeps its name; anything else is not a traffic phase. */
  datatype Phase = Initialization | Verify | Traffic(name: string) | Unrecognized(name: string)

  datatype Failure =
    | NotLeader(leader: Option<nat>) | AdmissionCount | AdmissionBytes | AdmissionOversize
    | ReadQuorum | ReadApply | RpcStatus(code: nat) | Protocol | Deadline | Capacity | Input

  datatype Attempt = Attempt(ordinal: int, node: int, elapsed: int, failure: Option<Failure>)

  datatype Stop = Terminal | DeadlineStop | AttemptLimit | ClientRejected

  datatype Observation = Observation(
    attempts: seq<Attempt>, elapsed: int, stop: Stop, reason: Option<Failure>,
    receipt: Option<(int, int)>, malformed: bool)

  datatype Record =
    | Invoke(seqno: int, time: int, id: int, client: int, phase: Phase, nonce: Option<int>, call: Call)
    | Return(seqno: int, time: int, id: int, outcome: Outcome, reply: Reply, observation: Observation)

  datatype Span = Span(start: int, end: int)

  datatype Run = Run(c: Config, setup: Span, measurement: Span, verification: Span, elapsed: int)

  function SpanOf(r: Run, p: Phase): Span {
    match p
    case Initialization => r.setup
    case Verify => r.verification
    case _ => r.measurement
  }

  /** What a call or an attempt ended with, without its details. */
  datatype Cause =
    | Succeeded | LeaderElsewhere | CountLimit | BytesLimit | SizeLimit | QuorumUnconfirmed | ApplyUnconfirmed
    | StatusCode | Violation | TimeUsedUp | ClientCapacity | ClientInput

  /** The order in which causes are numbered. */
  const POPULATIONS: seq<Cause> := [
    Succeeded, LeaderElsewhere, CountLimit, BytesLimit, SizeLimit, QuorumUnconfirmed, ApplyUnconfirmed,
    StatusCode, Violation, TimeUsedUp, ClientCapacity, ClientInput]

  function CauseOf(reason: Option<Failure>): Cause {
    match reason
    case None => Succeeded
    case Some(NotLeader(_)) => LeaderElsewhere
    case Some(AdmissionCount) => CountLimit
    case Some(AdmissionBytes) => BytesLimit
    case Some(AdmissionOversize) => SizeLimit
    case Some(ReadQuorum) => QuorumUnconfirmed
    case Some(ReadApply) => ApplyUnconfirmed
    case Some(RpcStatus(_)) => StatusCode
    case Some(Protocol) => Violation
    case Some(Deadline) => TimeUsedUp
    case Some(Capacity) => ClientCapacity
    case Some(Input) => ClientInput
  }

  /** The place of the reason's cause among the populations, or nothing if the reason invalidates the run. */
  function Population(reason: Option<Failure>): (p: Option<nat>)
    ensures p.Some? ==> p.value < 12 && p.value != 8 && POPULATIONS[p.value] == CauseOf(reason)
    ensures p.None? <==>
            reason.Some? && (reason.value == NotLeader(Some(0)) || reason.value == Protocol
                             || (reason.value.RpcStatus? && reason.value.code > 16))
  {
    match reason
    case None => Some(0)
    case Some(NotLeader(leader)) => if leader == Some(0) then None else Some(1)
    case Some(AdmissionCount) => Some(2)
    case Some(AdmissionBytes) => Some(3)
    case Some(AdmissionOversize) => Some(4)
    case Some(ReadQuorum) => Some(5)
    case Some(ReadApply) => Some(6)
    case Some(RpcStatus(code)) => if code <= 16 then Some(7) else None
    case Some(Protocol) => None
    case Some(Deadline) => Some(9)
    case Some(Capacity) => Some(10)
    case Some(Input) => Some(11)
  }

  /** Success, refused when local or refused by the server, unknown otherwise. */
  function OutcomeFor(population: nat, local: bool): Outcome {
    if population == 0 then Ok else if local || 1 <= population <= 4 then Refused else Unknown
  }

  // ----- one terminal observation

  /** The stop classification the reason and the attempts justify. */
  predicate StopFits(c: Config, o: Observation, population: nat) {
    if o.attempts == [] then o.stop == (if population == 9 then DeadlineStop else ClientRejected)
    else match o.stop
      case AttemptLimit => population == 1 && |o.attempts| == c.maxAttempts
      case DeadlineStop => population == 1
      case Terminal => population != 1
      case ClientRejected => false
  }

  predicate ReceiptFits(o: Observation, outcome: Outcome, read: bool) {
    if outcome == Ok && !read then o.receipt.Some? && 1 <= o.receipt.value.0 < M && 1 <= o.receipt.value.1 < M
    else o.receipt == None
  }

  /** Where a refused attempt sends the next one: its hint if usable, else the next peer. */
  function Following(peers: seq<nat>, node: nat, hint: Option<nat>): nat
    requires node in peers
  {
    if hint.Some? && hint.value in peers && hint.value != node then hint.value
    else peers[(IndexOf(peers, node) + 1) % |peers|]
  }

  function IndexOf(s: seq<nat>, x: nat): (i: nat)
    requires x in s
    ensures i < |s| && s[i] == x && x !in s[..i]
  {
    if s[0] == x then 0 else
      assert s == [s[0]] + s[1..];
      1 + IndexOf(s[1..], x)
  }

  predicate AttemptFits(c: Config, o: Observation, k: nat)
    requires k < |o.attempts|
  {
    var a := o.attempts[k];
    && a.ordinal == k + 1 && 1 <= a.node && a.node in c.peers && 0 <= a.elapsed <= o.elapsed
    && Population(a.failure).Some?
    && (if k == |o.attempts| - 1 then a.failure == o.reason
        else && Population(a.failure) == Some(1)
             && o.attempts[k + 1].node == Following(c.peers, a.node, a.failure.value.leader))
  }

  function AttemptTime(attempts: seq<Attempt>): int {
    if attempts == [] then 0 else AttemptTime(attempts[..|attempts| - 1]) + attempts[|attempts| - 1].elapsed
  }

  predicate AttemptsFit(c: Config, o: Observation) {
    && (forall k | 0 <= k < |o.attempts| :: AttemptFits(c, o, k))
    && AttemptTime(o.attempts) <= o.elapsed
  }

  /** The attempt loop. */
  method CheckAttempts(c: Config, o: Observation) returns (ok: bool)
    ensures ok <==> AttemptsFit(c, o)
  {
    var total := 0;
    for k := 0 to |o.attempts|
      invariant forall j | 0 <= j < k :: AttemptFits(c, o, j)
      invariant total == AttemptTime(o.attempts[..k])
    {
      if !AttemptFits(c, o, k) {
        return false;
      }
      assert o.attempts[..k + 1][..k] == o.attempts[..k];
      total := total + o.attempts[k].elapsed;
    }
    assert o.attempts[..|o.attempts|] == o.attempts;
    return total <= o.elapsed;
  }

  /** A return record consistent with the call it ends. */
  predicate ReturnFits(r: Run, call: Record, e: Record)
    requires call.Invoke? && e.Return?
  {
    var o := e.observation;
    var local := o.attempts == [];
    var read := IsRead(call.call);
    && e.time <= SpanOf(r, call.phase).end && !o.malformed
    && 0 <= o.elapsed <= e.time - call.time && |o.attempts| <= r.c.maxAttempts
    && match Population(o.reason)
       case None => false
       case Some(p) =>
         && (local ==> p in {9, 10, 11}) && (!local ==> p !in {10, 11}) && (!read ==> p !in {5, 6})
         && e.outcome == OutcomeFor(p, local) && StopFits(r.c, o, p)
         && (o.stop == DeadlineStop || p == 9 ==> o.elapsed >= r.c.deadlineMs * 1_000_000)
         && ReceiptFits(o, e.outcome, read) && AttemptsFit(r.c, o)
  }

  // ----- the ledger

  datatype Row = Row(
    calls: int, inputItems: int, successfulItems: int, unknownWriteItems: int, refusedItems: int,
    attempts: int, reasons: map<Cause, int>)

  datatype Ledger = Ledger(
    issued: map<int, Record>, active: map<int, Record>, completed: map<int, Record>,
    nonces: set<int>, workers: set<int>, lastTime: int, peak: int, rows: map<(Phase, Kind), Row>)

  predicate StepFits(r: Run, s: Ledger, position: nat, e: Record) {
    e.seqno == position && s.lastTime <= e.time <= r.elapsed && 0 <= e.id < r.c.maxCalls
  }

  /** What an invocation must be on its own: a known worker and operation, and what its phase allows. */
  predicate InvokeShape(r: Run, e: Record)
    requires Legal(r.c) && e.Invoke?
  {
    && 0 <= e.client < r.c.workers && IsWorkloadCall(e.call)
    && (match e.phase
        case Initialization => e.nonce == None && e.client == 0
        case Verify => e.nonce == None && e.client == 0
        case Traffic(_) =>
          && e.nonce.Some? && 0 <= e.nonce.value < r.c.maxCalls - 3 * ChunkTotal(r.c)
          && e.call == Generated(r.c, e.nonce.value)
        case Unrecognized(_) => false)
    && SpanOf(r, e.phase).start <= e.time <= SpanOf(r, e.phase).end
  }

  predicate InvokeFits(r: Run, s: Ledger, e: Record)
    requires Legal(r.c) && e.Invoke?
  {
    && e.id == |s.issued| && e.client !in s.workers && InvokeShape(r, e)
    && (e.phase.Traffic? ==> e.nonce.value !in s.nonces)
  }

  function Invoked(s: Ledger, e: Record): Ledger
    requires e.Invoke?
  {
    var active := s.active[e.id := e];
    s.(issued := s.issued[e.id := e], active := active, lastTime := e.time, workers := s.workers + {e.client},
       nonces := if e.phase.Traffic? && e.nonce.Some? then s.nonces + {e.nonce.value} else s.nonces,
       peak := Max(s.peak, |active|))
  }

  const NEW_ROW := Row(0, 0, 0, 0, 0, 0, map[])

  function Counted(row: Row, call: Record, e: Record): Row
    requires call.Invoke? && e.Return?
  {
    var n := Items(call.call);
    var reason := CauseOf(e.observation.reason);
    Row(row.calls + 1, row.inputItems + n,
        row.successfulItems + (if e.outcome == Ok then n else 0),
        row.unknownWriteItems + (if e.outcome == Unknown && !IsRead(call.call) then n else 0),
        row.refusedItems + (if e.outcome == Refused then n else 0),
        row.attempts + |e.observation.attempts|,
        row.reasons[reason := (if reason in row.reasons then row.reasons[reason] else 0) + 1])
  }

  function Returned(s: Ledger, call: Record, e: Record): Ledger
    requires call.Invoke? && e.Return?
  {
    var key := (call.phase, KindIn(call.call));
    s.(active := s.active - {e.id}, completed := s.completed[e.id := e], workers := s.workers - {call.client},
       lastTime := e.time,
       rows := s.rows[key := Counted(if key in s.rows then s.rows[key] else NEW_ROW, call, e)])
  }

  /** Whether the ledger's active calls are invocations, as they are by construction. */
  predicate Sane(s: Ledger) {
    forall id | id in s.active :: s.active[id].Invoke?
  }

  /** The ledger after one more event, if the validator accepts it. */
  function Step(r: Run, s: Ledger, position: nat, e: Record): (t: Option<Ledger>)
    requires Legal(r.c) && Sane(s)
    ensures t.Some? ==> Sane(t.value)
  {
    if !StepFits(r, s, position, e) then None
    else if e.Invoke? then
      if InvokeFits(r, s, e) && Max(s.peak, |s.active[e.id := e]|) <= r.c.workers then Some(Invoked(s, e)) else None
    else if e.id in s.active && ReturnFits(r, s.active[e.id], e) then Some(Returned(s, s.active[e.id], e)) else None
  }

  const EMPTY := Ledger(map[], map[], map[], {}, {}, 0, 0, map[])

  /** The ledger of a log every event of which is accepted. */
  function Replay(r: Run, log: seq<Record>): (t: Option<Ledger>)
    requires Legal(r.c)
    ensures t.Some? ==> Sane(t.value)
  {
    if log == [] then Some(EMPTY)
    else match Replay(r, log[..|log| - 1])
      case None => None
      case Some(s) => Step(r, s, |log| - 1, log[|log| - 1])
  }

  lemma {:induction false} RejectedPrefix(r: Run, log: seq<Record>, n: nat)
    requires Legal(r.c) && n <= |log| && Replay(r, log[..n]) == None
    ensures Replay(r, log) == None
    decreases |log| - n
  {
    if n == |log| {
      assert log[..n] == log;
    } else {
      assert log[..n + 1][..n] == log[..n];
      RejectedPrefix(r, log, n + 1);
    }
  }

  /** One event of the loop, updating the ledger's tables. */
  method TakeEvent(r: Run, s: Ledger, position: nat, e: Record) returns (t: Option<Ledger>)
    requires Legal(r.c) && Sane(s)
    ensures t == Step(r, s, position, e)
  {
    if !StepFits(r, s, position, e) {
      return None;
    }
    if e.Invoke? {
      if !InvokeFits(r, s, e) {
        return None;
      }
      var next := Invoked(s, e);
      return if next.peak <= r.c.workers then Some(next) else None;
    }
    if e.id !in s.active || !ReturnFits(r, s.active[e.id], e) {
      return None;
    }
    return Some(Returned(s, s.active[e.id], e));
  }

  lemma ReplayNext(r: Run, log: seq<Record>, i: nat, s: Ledger)
    requires Legal(r.c) && i < |log| && Replay(r, log[..i]) == Some(s)
    ensures Sane(s) && Replay(r, log[..i + 1]) == Step(r, s, i, log[i])
  {
    assert log[..i + 1][..i] == log[..i];
  }

  /** The event loop. */
  method ValidateEvents(r: Run, log: seq<Record>) returns (result: Option<Ledger>)
    requires Legal(r.c)
    ensures result == Replay(r, log)
  {
    var s := EMPTY;
    for i := 0 to |log|
      invariant Replay(r, log[..i]) == Some(s)
    {
      ReplayNext(r, log, i, s);
      var next := TakeEvent(r, s, i, log[i]);
      if next.None? {
        RejectedPrefix(r, log, i + 1);
        return None;
      }
      s := next.value;
    }
    assert log[..|log|] == log;
    return Some(s);
  }
}
