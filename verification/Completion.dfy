/**
 When a log is complete: every call returned, the nonces have no gap, initialization and verification made
 exactly the prescribed calls and succeeded, and traffic covered the configured operations.
 */
module Completion {
  import opened Wrappers
  import opened Counting
  import opened Histories
  import opened Workload
  import opened EventLog
  import opened LogTheorems

  // ----- what the validator asks of its ledger

  /** The calls of one phase in issue order. */
  function PhaseIds(issued: Calls, n: nat, phase: Phase): (ids: seq<int>)
    ensures forall k | 0 <= k < |ids| ::
              0 <= ids[k] < n && ids[k] in issued && issued[ids[k]].Invoke? && issued[ids[k]].phase == phase
    ensures forall j, k | 0 <= j < k < |ids| :: ids[j] < ids[k]
    ensures forall id | 0 <= id < n && id in issued && issued[id].Invoke? && issued[id].phase == phase :: id in ids
  {
    if n == 0 then []
    else if n - 1 in issued && issued[n - 1].Invoke? && issued[n - 1].phase == phase then
      PhaseIds(issued, n - 1, phase) + [n - 1]
    else PhaseIds(issued, n - 1, phase)
  }

  /** The phase made exactly these calls, in this order. */
  predicate PhaseRuns(issued: Calls, phase: Phase, calls: seq<Call>) {
    var ids := PhaseIds(issued, |issued|, phase);
    |ids| == |calls| && forall k | 0 <= k < |ids| :: issued[ids[k]].call == calls[k]
  }

  predicate Succeeds(s: Ledger, id: int) {
    id in s.completed && s.completed[id].Return? && s.completed[id].outcome == Ok
  }

  predicate StartsEmpty(s: Ledger, id: int)
    requires id in s.issued && s.issued[id].Invoke? && Succeeds(s, id)
  {
    s.issued[id].call.BatchGet? && s.completed[id].reply.FoundAll? ==>
      forall k | 0 <= k < |s.completed[id].reply.values| :: s.completed[id].reply.values[k] == None
  }

  predicate KeepsSentinel(c: Config, s: Ledger, id: int)
    requires Legal(c) && id in s.issued && s.issued[id].Invoke? && Succeeds(s, id)
  {
    s.issued[id].call.BatchGet? && s.completed[id].reply.FoundAll? ==>
      var keys, values := s.issued[id].call.keys, s.completed[id].reply.values;
      forall k | 0 <= k < |keys| && k < |values| && keys[k] == Key(c, c.keys) && Key(c, c.keys) !in keys[..k] ::
        values[k] == Some("")
  }

  /** Every call of the phase succeeded and found what it must. */
  predicate PhaseAnswered(c: Config, s: Ledger, phase: Phase)
    requires Legal(c)
  {
    forall id | id in PhaseIds(s.issued, |s.issued|, phase) ::
      Succeeds(s, id) && if phase == Initialization then StartsEmpty(s, id) else KeepsSentinel(c, s, id)
  }

  predicate FinalFits(r: Run, s: Ledger, limited: bool)
    requires Legal(r.c)
  {
    && Closed(s) && (limited ==> |s.nonces| == r.c.maxCalls - 3 * ChunkTotal(r.c))
    && PhaseRuns(s.issued, Initialization, SetupCalls(r.c)) && PhaseRuns(s.issued, Verify, ReadChunks(r.c))
    && PhaseAnswered(r.c, s, Initialization) && PhaseAnswered(r.c, s, Verify)
  }

  /** Some traffic call of this kind succeeded. */
  predicate KindSucceeds(s: Ledger, kind: Kind) {
    exists id | id in s.issued ::
      s.issued[id].Invoke? && s.issued[id].phase.Traffic? && KindIn(s.issued[id].call) == kind && Succeeds(s, id)
  }

  predicate Covered(c: Config, s: Ledger) {
    && (KindSucceeds(s, GetKind) || KindSucceeds(s, BatchGetKind))
    && (KindSucceeds(s, PutKind) || KindSucceeds(s, DeleteKind) || KindSucceeds(s, BatchPutKind))
    && forall k | 0 <= k < |c.mix| && k < 5 && c.mix[k] > 0 :: KindSucceeds(s, KINDS[k])
  }

  // ----- the same, asked of the log

  /** The calls of a phase, in the order in which they were made. */
  ghost function PhaseCalls(log: seq<Record>, phase: Phase): seq<Call> {
    if log == [] then [] else
      var e := log[|log| - 1];
      PhaseCalls(log[..|log| - 1], phase) + if e.Invoke? && e.phase == phase then [e.call] else []
  }

  ghost predicate Answers(log: seq<Record>, j: nat, k: nat) {
    j < |log| && k < |log| && log[j].Invoke? && log[k].Return? && log[j].id == log[k].id
  }

  /** The setup reads found nothing. */
  ghost predicate FoundNothing(call: Call, e: Record)
    requires e.Return?
  {
    call.BatchGet? && e.reply.FoundAll? ==> forall v | v in e.reply.values :: v == None
  }

  /** Where the sentinel is first read, its empty value was found. */
  ghost predicate FoundSentinel(c: Config, call: Call, e: Record)
    requires Legal(c) && e.Return?
  {
    call.BatchGet? && e.reply.FoundAll? ==>
      forall n | 0 <= n < |call.keys| && n < |e.reply.values| && call.keys[n] == Key(c, c.keys)
                 && (forall m | 0 <= m < n :: call.keys[m] != Key(c, c.keys)) ::
        e.reply.values[n] == Some("")
  }

  /** Setup and verification calls are confirmed, with the data they must find. */
  ghost predicate AnswerFits(c: Config, log: seq<Record>, j: nat, k: nat)
    requires Legal(c) && Answers(log, j, k)
  {
    && (log[j].phase == Initialization ==> log[k].outcome == Ok && FoundNothing(log[j].call, log[k]))
    && (log[j].phase == Verify ==> log[k].outcome == Ok && FoundSentinel(c, log[j].call, log[k]))
  }

  /** The answers to setup and verification calls. */
  ghost predicate AnswersFit(c: Config, log: seq<Record>)
    requires Legal(c)
  {
    forall j: nat, k: nat | Answers(log, j, k) :: AnswerFits(c, log, j, k)
  }

  ghost predicate AllReturned(log: seq<Record>) {
    forall j | 0 <= j < |log| && log[j].Invoke? :: ReturnedAfter(log, j)
  }

  /** The traffic nonces are the numbers below their count, all that are allowed if the run was limited. */
  ghost predicate NoncesDense(r: Run, log: seq<Record>, limited: bool)
    requires Legal(r.c)
  {
    exists m: nat :: m >= 1 && NoncesUsed(log, Numbers(0, m)) && (limited ==> m == r.c.maxCalls - 3 * ChunkTotal(r.c))
  }

  /** A complete log. */
  ghost predicate Complete(r: Run, log: seq<Record>, limited: bool)
    requires Legal(r.c)
  {
    && AllReturned(log) && NoncesDense(r, log, limited)
    && PhaseCalls(log, Initialization) == SetupCalls(r.c) && PhaseCalls(log, Verify) == ReadChunks(r.c)
    && AnswersFit(r.c, log)
  }

  /** Some traffic call of the kind was confirmed. */
  ghost predicate Confirms(log: seq<Record>, kind: Kind) {
    exists j: nat, k: nat :: Answers(log, j, k) && log[j].phase.Traffic? && OfKind(log[j].call, kind)
                             && log[k].outcome == Ok
  }

  /** Confirmed traffic read, wrote and used every configured operation. */
  ghost predicate Exercises(c: Config, log: seq<Record>)
    requires |c.mix| == 5
  {
    && (Confirms(log, GetKind) || Confirms(log, BatchGetKind))
    && (Confirms(log, PutKind) || Confirms(log, DeleteKind) || Confirms(log, BatchPutKind))
    && (c.mix[0] > 0 ==> Confirms(log, GetKind)) && (c.mix[1] > 0 ==> Confirms(log, PutKind))
    && (c.mix[2] > 0 ==> Confirms(log, DeleteKind)) && (c.mix[3] > 0 ==> Confirms(log, BatchGetKind))
    && (c.mix[4] > 0 ==> Confirms(log, BatchPutKind))
  }

  // ----- the ledger answers for the log

  /** The calls behind a list of identities. */
  ghost predicate CallsOf(issued: Calls, ids: seq<int>, calls: seq<Call>) {
    && |calls| == |ids|
    && forall k | 0 <= k < |ids| :: ids[k] in issued && issued[ids[k]].Invoke? && calls[k] == issued[ids[k]].call
  }

  lemma {:induction false} PhaseCallsAre(log: seq<Record>, issued: Calls, phase: Phase, n: nat)
    requires n <= |log| && Dense(log)
    requires forall k | 0 <= k < |log| && log[k].Invoke? :: log[k].id in issued && issued[log[k].id] == log[k]
    ensures CallsOf(issued, PhaseIds(issued, Invocations(log[..n]), phase), PhaseCalls(log[..n], phase))
  {
    if n == 0 {
      assert log[..0] == [];
    } else {
      PhaseCallsAre(log, issued, phase, n - 1);
      PhaseCallsNext(log, phase, n - 1);
      CallsOfStep(issued, phase, Invocations(log[..n - 1]), PhaseCalls(log[..n - 1], phase),
                  Invocations(log[..n]), PhaseCalls(log[..n], phase), log[n - 1]);
    }
  }

  lemma CallsOfStep(issued: Calls, phase: Phase, m: nat, calls: seq<Call>, m': nat, calls': seq<Call>, e: Record)
    requires CallsOf(issued, PhaseIds(issued, m, phase), calls)
    requires m' == m + (if e.Invoke? then 1 else 0)
    requires calls' == calls + (if e.Invoke? && e.phase == phase then [e.call] else [])
    requires e.Invoke? ==> e.id == m && m in issued && issued[m] == e
    ensures CallsOf(issued, PhaseIds(issued, m', phase), calls')
  {
    if e.Invoke? {
      PhaseIdsStep(issued, m, phase);
      CallsOfNext(issued, PhaseIds(issued, m, phase), calls, e, phase);
    }
  }

  lemma PhaseIdsStep(issued: Calls, n: nat, phase: Phase)
    requires n in issued && issued[n].Invoke?
    ensures PhaseIds(issued, n + 1, phase) == PhaseIds(issued, n, phase) + if issued[n].phase == phase then [n] else []
  {
  }

  lemma CallsOfNext(issued: Calls, ids: seq<int>, calls: seq<Call>, e: Record, phase: Phase)
    requires e.Invoke? && e.id in issued && issued[e.id] == e && CallsOf(issued, ids, calls)
    ensures CallsOf(issued, ids + (if e.phase == phase then [e.id] else []),
                    calls + (if e.phase == phase then [e.call] else []))
  {
  }

  lemma PhaseCallsNext(log: seq<Record>, phase: Phase, n: nat)
    requires n < |log|
    ensures Invocations(log[..n + 1]) == Invocations(log[..n]) + if log[n].Invoke? then 1 else 0
    ensures PhaseCalls(log[..n + 1], phase)
            == PhaseCalls(log[..n], phase) + if log[n].Invoke? && log[n].phase == phase then [log[n].call] else []
  {
    assert log[..n + 1][..n] == log[..n] && log[..n + 1][n] == log[n];
  }

  /** A phase made the prescribed calls in the ledger exactly when it did in the log. */
  lemma PhaseRunsExact(log: seq<Record>, issued: Calls, phase: Phase, calls: seq<Call>)
    requires Dense(log) && Issues(log, issued)
    ensures PhaseRuns(issued, phase, calls) <==> PhaseCalls(log, phase) == calls
  {
    PhaseCallsAre(log, issued, phase, |log|);
    assert log[..|log|] == log;
  }

  /** The ledger's completed call is the answer in the log. */
  lemma AnswerIs(log: seq<Record>, s: Ledger, j: nat, k: nat)
    requires Issues(log, s.issued) && Activity(log, s.issued, s.active, s.completed) && Answers(log, j, k)
    ensures log[j].id in s.issued && s.issued[log[j].id] == log[j]
    ensures log[j].id in s.completed && s.completed[log[j].id] == log[k]
  {
  }

  lemma AnswerExists(log: seq<Record>, s: Ledger, id: int) returns (j: nat, k: nat)
    requires Issues(log, s.issued) && Activity(log, s.issued, s.active, s.completed)
    requires id in s.issued && id !in s.active
    ensures Answers(log, j, k) && log[j].id == id
  {
    assert Listed(log, s.issued, id) && IsReturned(log, id);
    j :| 0 <= j < |log| && log[j].Invoke? && log[j].id == id && log[j] == s.issued[id];
    k :| 0 <= k < |log| && log[k].Return? && log[k].id == id;
  }

  lemma EmptyExact(s: Ledger, id: int, call: Record, e: Record)
    requires id in s.issued && s.issued[id] == call && call.Invoke? && id in s.completed && s.completed[id] == e
    requires e.Return? && e.outcome == Ok
    ensures StartsEmpty(s, id) <==> FoundNothing(call.call, e)
  {
    if e.reply.FoundAll? {
      assert forall k | 0 <= k < |e.reply.values| :: e.reply.values[k] in e.reply.values;
    }
  }

  lemma SentinelExact(c: Config, s: Ledger, id: int, call: Record, e: Record)
    requires Legal(c) && id in s.issued && s.issued[id] == call && call.Invoke? && id in s.completed
    requires s.completed[id] == e && e.Return? && e.outcome == Ok
    ensures KeepsSentinel(c, s, id) <==> FoundSentinel(c, call.call, e)
  {
    if call.call.BatchGet? {
      var keys := call.call.keys;
      forall n | 0 <= n < |keys|
        ensures Key(c, c.keys) !in keys[..n] <==> forall m | 0 <= m < n :: keys[m] != Key(c, c.keys)
      {
        assert forall m | 0 <= m < n :: keys[..n][m] == keys[m];
      }
    }
  }

  lemma AnswersExact(c: Config, log: seq<Record>, s: Ledger)
    requires Legal(c) && Issues(log, s.issued) && Activity(log, s.issued, s.active, s.completed) && s.active == map[]
    ensures PhaseAnswered(c, s, Initialization) && PhaseAnswered(c, s, Verify) <==> AnswersFit(c, log)
  {
    if PhaseAnswered(c, s, Initialization) && PhaseAnswered(c, s, Verify) {
      forall j: nat, k: nat | Answers(log, j, k) ensures AnswerFits(c, log, j, k) { AnsweredFits(c, log, s, j, k); }
    }
    if AnswersFit(c, log) {
      FitsAnswered(c, log, s, Initialization);
      FitsAnswered(c, log, s, Verify);
    }
  }

  lemma AnsweredFits(c: Config, log: seq<Record>, s: Ledger, j: nat, k: nat)
    requires Legal(c) && Issues(log, s.issued) && Activity(log, s.issued, s.active, s.completed) && Answers(log, j, k)
    requires PhaseAnswered(c, s, Initialization) && PhaseAnswered(c, s, Verify)
    ensures AnswerFits(c, log, j, k)
  {
    var id := log[j].id;
    AnswerIs(log, s, j, k);
    if log[j].phase == Initialization {
      assert id in PhaseIds(s.issued, |s.issued|, Initialization);
      EmptyExact(s, id, log[j], log[k]);
    }
    if log[j].phase == Verify {
      assert id in PhaseIds(s.issued, |s.issued|, Verify);
      SentinelExact(c, s, id, log[j], log[k]);
    }
  }

  lemma FitsAnswered(c: Config, log: seq<Record>, s: Ledger, phase: Phase)
    requires Legal(c) && Issues(log, s.issued) && Activity(log, s.issued, s.active, s.completed) && s.active == map[]
    requires AnswersFit(c, log) && (phase == Initialization || phase == Verify)
    ensures PhaseAnswered(c, s, phase)
  {
    forall id | id in PhaseIds(s.issued, |s.issued|, phase)
      ensures Succeeds(s, id) && if phase == Initialization then StartsEmpty(s, id) else KeepsSentinel(c, s, id)
    {
      var j, k := AnswerExists(log, s, id);
      AnswerIs(log, s, j, k);
      assert AnswerFits(c, log, j, k);
      if phase == Initialization {
        EmptyExact(s, id, log[j], log[k]);
      } else {
        SentinelExact(c, s, id, log[j], log[k]);
      }
    }
  }

  lemma NoncesDetermined(log: seq<Record>, a: set<int>, b: set<int>)
    requires NoncesUsed(log, a) && NoncesUsed(log, b)
    ensures a == b
  {
    forall n | n in a ensures n in b { var k :| 0 <= k < |log| && IsTraffic(log[k]) && log[k].nonce == Some(n); }
    forall n | n in b ensures n in a { var k :| 0 <= k < |log| && IsTraffic(log[k]) && log[k].nonce == Some(n); }
  }

  lemma NoncesExact(r: Run, log: seq<Record>, nonces: set<int>, limited: bool)
    requires Legal(r.c) && NoncesUsed(log, nonces)
    ensures NoncesDense(r, log, limited) <==>
              && nonces != {} && nonces == Numbers(0, |nonces|)
              && (limited ==> |nonces| == r.c.maxCalls - 3 * ChunkTotal(r.c))
  {
    if NoncesDense(r, log, limited) {
      var m: nat :| m >= 1 && NoncesUsed(log, Numbers(0, m))
                    && (limited ==> m == r.c.maxCalls - 3 * ChunkTotal(r.c));
      NoncesDetermined(log, nonces, Numbers(0, m));
      BelowSize(nonces, m);
    }
    if nonces != {} && nonces == Numbers(0, |nonces|) { assert |nonces| >= 1 && NoncesUsed(log, Numbers(0, |nonces|)); }
  }

  lemma BelowSize(nonces: set<int>, m: nat)
    requires nonces == Numbers(0, m) && m >= 1
    ensures |nonces| == m && nonces != {} && nonces == Numbers(0, |nonces|)
  {
    assert 0 in nonces;
  }

  lemma NoneActive(workers: nat, log: seq<Record>, s: Ledger, j: nat)
    requires Tracks(workers, log, s) && s.active == map[] && j < |log| && log[j].Invoke?
    ensures ReturnedAfter(log, j)
  {
    PreviousReturned(log, s.issued, s.active, s.completed, {}, j);
  }

  lemma CallOf(log: seq<Record>, issued: Calls, id: int) returns (j: nat)
    requires Issues(log, issued) && id in issued
    ensures j < |log| && log[j].Invoke? && log[j].id == id && log[j] == issued[id]
  {
    assert Listed(log, issued, id);
    j :| 0 <= j < |log| && log[j].Invoke? && log[j].id == id && log[j] == issued[id];
  }

  lemma ReturnedInactive(log: seq<Record>, issued: Calls, active: Calls, completed: Calls, id: int)
    requires Issues(log, issued) && Activity(log, issued, active, completed) && AllReturned(log)
    ensures id !in active
  {
    if id in issued {
      var j := CallOf(log, issued, id);
      assert ReturnedAfter(log, j);
    }
  }

  lemma ReturnedExact(workers: nat, log: seq<Record>, s: Ledger)
    requires Tracks(workers, log, s)
    ensures s.active == map[] <==> AllReturned(log)
  {
    if s.active == map[] {
      forall j | 0 <= j < |log| && log[j].Invoke? ensures ReturnedAfter(log, j) { NoneActive(workers, log, s, j); }
    }
    if AllReturned(log) {
      forall id ensures id !in s.active { ReturnedInactive(log, s.issued, s.active, s.completed, id); }
      assert s.active == map[];
    }
  }

  lemma FinalCombines(r: Run, log: seq<Record>, s: Ledger, limited: bool)
    requires Legal(r.c) && (s.active == map[] <==> AllReturned(log))
    requires NoncesDense(r, log, limited) <==>
               && s.nonces != {} && s.nonces == Numbers(0, |s.nonces|)
               && (limited ==> |s.nonces| == r.c.maxCalls - 3 * ChunkTotal(r.c))
    requires PhaseRuns(s.issued, Initialization, SetupCalls(r.c))
             <==> PhaseCalls(log, Initialization) == SetupCalls(r.c)
    requires PhaseRuns(s.issued, Verify, ReadChunks(r.c)) <==> PhaseCalls(log, Verify) == ReadChunks(r.c)
    requires s.active == map[] ==>
               (PhaseAnswered(r.c, s, Initialization) && PhaseAnswered(r.c, s, Verify) <==> AnswersFit(r.c, log))
    ensures FinalFits(r, s, limited) <==> Complete(r, log, limited)
  {
  }

  /** The closing conditions on the ledger hold exactly of complete logs. */
  lemma FinalExact(r: Run, log: seq<Record>, s: Ledger, limited: bool)
    requires Legal(r.c) && Tracks(r.c.workers, log, s) && NoncesUsed(log, s.nonces)
    ensures FinalFits(r, s, limited) <==> Complete(r, log, limited)
  {
    ReturnedExact(r.c.workers, log, s);
    NoncesExact(r, log, s.nonces, limited);
    PhaseRunsExact(log, s.issued, Initialization, SetupCalls(r.c));
    PhaseRunsExact(log, s.issued, Verify, ReadChunks(r.c));
    if s.active == map[] { AnswersExact(r.c, log, s); }
    FinalCombines(r, log, s, limited);
  }

  lemma ConfirmsExact(log: seq<Record>, s: Ledger, kind: Kind)
    requires Issues(log, s.issued) && Activity(log, s.issued, s.active, s.completed)
    requires forall id | id in s.issued :: s.issued[id].Invoke? && IsWorkloadCall(s.issued[id].call)
    ensures KindSucceeds(s, kind) <==> Confirms(log, kind)
  {
    if KindSucceeds(s, kind) {
      var id :|
        && id in s.issued && s.issued[id].Invoke? && s.issued[id].phase.Traffic?
        && KindIn(s.issued[id].call) == kind
                && Succeeds(s, id);
      var j, k := AnswerExists(log, s, id);
      AnswerIs(log, s, j, k);
      KindDecides(log[j].call, kind);
    }
    if j: nat, k: nat :| Answers(log, j, k) && log[j].phase.Traffic? && OfKind(log[j].call, kind)
                         && log[k].outcome == Ok {
      AnswerIs(log, s, j, k);
      KindDecides(log[j].call, kind);
    }
  }

  /** The coverage asked of the ledger is coverage by the log. */
  lemma CoverageExact(c: Config, log: seq<Record>, s: Ledger)
    requires |c.mix| == 5 && Issues(log, s.issued) && Activity(log, s.issued, s.active, s.completed)
    requires forall id | id in s.issued :: s.issued[id].Invoke? && IsWorkloadCall(s.issued[id].call)
    ensures Covered(c, s) <==> Exercises(c, log)
  {
    ConfirmsExact(log, s, GetKind);
    ConfirmsExact(log, s, PutKind);
    ConfirmsExact(log, s, DeleteKind);
    ConfirmsExact(log, s, BatchGetKind);
    ConfirmsExact(log, s, BatchPutKind);
    EveryKind(c, s);
  }

  lemma EveryKind(c: Config, s: Ledger)
    requires |c.mix| == 5
    ensures (forall k | 0 <= k < |c.mix| && k < 5 && c.mix[k] > 0 :: KindSucceeds(s, KINDS[k])) <==>
              && (c.mix[0] > 0 ==> KindSucceeds(s, GetKind)) && (c.mix[1] > 0 ==> KindSucceeds(s, PutKind))
              && (c.mix[2] > 0 ==> KindSucceeds(s, DeleteKind)) && (c.mix[3] > 0 ==> KindSucceeds(s, BatchGetKind))
              && (c.mix[4] > 0 ==> KindSucceeds(s, BatchPutKind))
  {
    assert KINDS[0] == GetKind && KINDS[1] == PutKind && KINDS[2] == DeleteKind && KINDS[3] == BatchGetKind
        && KINDS[4] == BatchPutKind;
  }
}
