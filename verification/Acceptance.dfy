/** The verdict on a native-batch run: its log, ledger, initialization, verification and history. */
module Acceptance {
  import opened Wrappers
  import opened Histories
  import opened Workload
  import opened EventLog
  import opened LogTheorems
  import opened LogExact
  import opened Completion
  import opened Accounting
  import opened Shapes
  import opened Parser
  import opened Provenance
  import opened Writers
  import Certificates
  import Checker

  const RANGE_CHUNK := 1024
  const MAX_STATES := 400000

  /** The header of every native run: one keyspace and no data. */
  function NativeHeader(c: Config, name: string): Header {
    Header(2, RANGE_CHUNK, [(name, c.keyspace)], [])
  }

  /** A record of a complete run: everything but the history verdict and the coverage. */
  ghost predicate Recorded(r: Run, name: string, log: seq<Record>, limited: bool) {
    && Legal(r.c) && Parseable(NativeHeader(r.c, name), log) && Acceptable(r, log) && Complete(r, log, limited)
  }

  /** Recorded runs are those whose ledger exists and meets the closing conditions. */
  lemma RecordedExact(r: Run, log: seq<Record>, limited: bool)
    requires Legal(r.c)
    ensures Replay(r, log).Some? <==> Acceptable(r, log)
    ensures Replay(r, log).Some? ==> (FinalFits(r, Replay(r, log).value, limited) <==> Complete(r, log, limited))
    ensures Replay(r, log).Some? ==> (Covered(r.c, Replay(r, log).value) <==> Exercises(r.c, log))
  {
    ReplayExact(r, log);
    if Replay(r, log).Some? {
      ReplayTracks(r, log);
      ReplayNonces(r, log);
      IssuedAreWorkload(r, log);
      FinalExact(r, log, Replay(r, log).value, limited);
      CoverageExact(r.c, log, Replay(r, log).value);
    }
  }

  // ----- what an accepted record's history is

  /** The log record that invoked operation `i`. */
  ghost function InvokerOf(log: seq<Record>, h: History, i: nat): Record
    requires i < |h.ops| && h.ops[i].invocation < |log|
  {
    log[h.ops[i].invocation]
  }

  lemma InvokerFacts(header: Header, log: seq<Record>, h: History, i: nat)
    requires Parsed(header, log, h) && i < |h.ops|
    ensures h.ops[i].invocation < |log| && InvokerOf(log, h, i).Invoke?
    ensures InvokerOf(log, h, i).call == h.ops[i].call && InvokerOf(log, h, i).id == h.ops[i].id
  {
    assert OperationParsed(log, h.events, h.ops[i], i);
  }

  lemma HistoryIsAtomic(r: Run, name: string, log: seq<Record>, h: History)
    requires Legal(r.c) && Replay(r, log).Some? && Parsed(NativeHeader(r.c, name), log, h)
    ensures Linearizability.AtomicOnly(h)
  {
    var s := Replay(r, log).value;
    ReplayTracks(r, log);
    IssuedAreWorkload(r, log);
    forall i | 0 <= i < |h.ops| ensures !h.ops[i].call.DeleteRange? {
      InvokerFacts(NativeHeader(r.c, name), log, h, i);
      assert s.issued[InvokerOf(log, h, i).id] == InvokerOf(log, h, i);
    }
  }

  /** The phases and nonces the validator admits. */
  ghost predicate Admitted(c: Config, e: Record)
    requires Legal(c) && e.Invoke?
  {
    match e.phase
    case Initialization => true
    case Verify => true
    case Traffic(_) => e.nonce.Some? && 0 <= e.nonce.value < c.maxCalls && e.call == Generated(c, e.nonce.value)
    case Unrecognized(_) => false
  }

  lemma {:induction false} InvokesAdmitted(r: Run, log: seq<Record>, k: nat)
    requires Legal(r.c) && Replay(r, log).Some? && k < |log| && log[k].Invoke?
    ensures Admitted(r.c, log[k])
  {
    if k < |log| - 1 {
      assert Replay(r, log[..|log| - 1]).Some?;
      assert log[..|log| - 1][k] == log[k];
      InvokesAdmitted(r, log[..|log| - 1], k);
    } else {
      LastAdmitted(r, log);
    }
  }

  lemma LastAdmitted(r: Run, log: seq<Record>)
    requires Legal(r.c) && Replay(r, log).Some? && log != [] && log[|log| - 1].Invoke?
    ensures Admitted(r.c, log[|log| - 1])
  {
    var s := Replay(r, log[..|log| - 1]).value;
    assert InvokeFits(r, s, log[|log| - 1]);
    ShapeAdmitted(r, log[|log| - 1]);
  }

  lemma ShapeAdmitted(r: Run, e: Record)
    requires Legal(r.c) && e.Invoke? && InvokeShape(r, e)
    ensures Admitted(r.c, e)
  {
  }

  // ----- one writer per value

  ghost predicate OriginFits(issued: Calls, e: Record, o: Origin)
    requires e.Invoke?
  {
    match o
    case FromTraffic(nonce) => e.phase.Traffic? && e.nonce == Some(nonce)
    case FromSetup(place) =>
      var ids := PhaseIds(issued, |issued|, Initialization);
      place < |ids| && ids[place] == e.id
  }

  /** A call of a phase is at its place in the phase's list. */
  lemma PhasePosition(issued: Calls, phase: Phase, calls: seq<Call>, e: Record) returns (k: nat)
    requires e.Invoke? && e.phase == phase && 0 <= e.id < |issued| && e.id in issued && issued[e.id] == e
             && PhaseRuns(issued, phase, calls)
    ensures k < |calls| && k < |PhaseIds(issued, |issued|, phase)| && PhaseIds(issued, |issued|, phase)[k] == e.id
            && e.call == calls[k]
  {
    var ids := PhaseIds(issued, |issued|, phase);
    assert e.id in ids;
    k :| 0 <= k < |ids| && ids[k] == e.id;
  }

  lemma SetupOrigin(c: Config, issued: Calls, e: Record, x: string) returns (o: Origin)
    requires Legal(c) && e.Invoke? && e.phase == Initialization && 0 <= e.id < |issued| && e.id in issued
             && issued[e.id] == e
    requires PhaseRuns(issued, Initialization, SetupCalls(c)) && Writes(e.call, x)
    ensures Stamped(c, o, x) && OriginFits(issued, e, o)
  {
    var k := PhasePosition(issued, Initialization, SetupCalls(c), e);
    var gs := Groups(0, c.keys + 1, c.batch);
    SetupStamped(c, gs, k, x);
    o := FromSetup(k);
  }

  lemma VerifyWritesNothing(c: Config, issued: Calls, e: Record, x: string)
    requires Legal(c) && e.Invoke? && e.phase == Verify && 0 <= e.id < |issued| && e.id in issued && issued[e.id] == e
    requires PhaseRuns(issued, Verify, ReadChunks(c))
    ensures !Writes(e.call, x)
  {
    var k := PhasePosition(issued, Verify, ReadChunks(c), e);
    WriteChunkWrites(c, Groups(0, c.keys + 1, c.batch)[k], x);
  }

  lemma WriterOrigin(r: Run, s: Ledger, e: Record, x: string) returns (o: Origin)
    requires Legal(r.c) && e.Invoke? && Admitted(r.c, e) && 0 <= e.id < |s.issued| && e.id in s.issued
             && s.issued[e.id] == e
    requires PhaseRuns(s.issued, Initialization, SetupCalls(r.c)) && PhaseRuns(s.issued, Verify, ReadChunks(r.c))
             && Writes(e.call, x)
    ensures Stamped(r.c, o, x) && OriginFits(s.issued, e, o)
  {
    if e.phase == Verify {
      VerifyWritesNothing(r.c, s.issued, e, x);
    }
    if e.phase.Traffic? {
      TrafficStamped(r.c, e.nonce.value, x);
      o := FromTraffic(e.nonce.value);
    } else {
      o := SetupOrigin(r.c, s.issued, e, x);
    }
  }

  lemma SameOrigin(log: seq<Record>, issued: Calls, nonces: set<int>, j: nat, k: nat, o: Origin)
    requires NoncesUsed(log, nonces) && j < |log| && k < |log| && log[j].Invoke? && log[k].Invoke?
    requires OriginFits(issued, log[j], o) && OriginFits(issued, log[k], o)
    ensures log[j].id == log[k].id
  {
    assert o.FromTraffic? ==> IsTraffic(log[j]) && IsTraffic(log[k]);
  }

  /** The facts about a recorded log that identify writers. */
  ghost predicate Identifiable(r: Run, log: seq<Record>, s: Ledger) {
    && Legal(r.c) && NoncesUsed(log, s.nonces) && Issues(log, s.issued)
    && (forall k | 0 <= k < |log| && log[k].Invoke? :: Admitted(r.c, log[k]))
    && PhaseRuns(s.issued, Initialization, SetupCalls(r.c)) && PhaseRuns(s.issued, Verify, ReadChunks(r.c))
  }

  lemma RecordedIdentifiable(r: Run, name: string, log: seq<Record>, limited: bool)
    requires Recorded(r, name, log, limited)
    ensures Replay(r, log).Some? && Identifiable(r, log, Replay(r, log).value)
  {
    RecordedExact(r, log, limited);
    ReplayNonces(r, log);
    ReplayTracks(r, log);
    forall k | 0 <= k < |log| && log[k].Invoke? ensures Admitted(r.c, log[k]) {
      InvokesAdmitted(r, log, k);
    }
  }

  lemma RecordOrigin(r: Run, log: seq<Record>, s: Ledger, k: nat, x: string) returns (o: Origin)
    requires Identifiable(r, log, s) && k < |log| && log[k].Invoke? && Writes(log[k].call, x)
    ensures Stamped(r.c, o, x) && OriginFits(s.issued, log[k], o)
  {
    assert log[k].id in s.issued;
    o := WriterOrigin(r, s, log[k], x);
  }

  lemma RecordWriterUnique(r: Run, log: seq<Record>, s: Ledger, j: nat, k: nat, x: string)
    requires Identifiable(r, log, s) && j < |log| && k < |log| && log[j].Invoke? && log[k].Invoke?
    requires Writes(log[j].call, x) && Writes(log[k].call, x)
    ensures log[j].id == log[k].id
  {
    var o := RecordOrigin(r, log, s, j, x);
    var o' := RecordOrigin(r, log, s, k, x);
    OriginUnique(r.c, o, o', x);
    SameOrigin(log, s.issued, s.nonces, j, k, o);
  }

  /** No two operations of a recorded run write the same value. */
  lemma WriterUnique(r: Run, name: string, log: seq<Record>, limited: bool, h: History, a: nat, b: nat, x: string)
    requires Recorded(r, name, log, limited) && Parsed(NativeHeader(r.c, name), log, h) && WellFormed(h)
    requires a < |h.ops| && b < |h.ops| && Writes(h.ops[a].call, x) && Writes(h.ops[b].call, x)
    ensures a == b
  {
    RecordedIdentifiable(r, name, log, limited);
    InvokerFacts(NativeHeader(r.c, name), log, h, a);
    InvokerFacts(NativeHeader(r.c, name), log, h, b);
    RecordWriterUnique(r, log, Replay(r, log).value, h.ops[a].invocation, h.ops[b].invocation, x);
  }

  /** In a recorded run whose history is linearizable, every value read was written by exactly one
      operation, which was not refused, began before the read ended and is not stale. */
  lemma ReadsIdentifyWriter(r: Run, name: string, log: seq<Record>, limited: bool, h: History, i: nat, e: Entry,
                            x: string)
    requires Recorded(r, name, log, limited) && Parsed(NativeHeader(r.c, name), log, h) && WellFormed(h)
    requires Linearizability.Linearizable(h) && i < |h.ops| && Reports(h.ops[i], e, Some(x))
    ensures exists w: nat ::
              Source(h, i, e, Some(x), w) && forall v: nat | v < |h.ops| && Writes(h.ops[v].call, x) :: v == w
  {
    RecordedExact(r, log, limited);
    HistoryIsAtomic(r, name, log, h);
    ReadProvenance(h, i, e, Some(x));
    StartsWithoutData(NativeHeader(r.c, name), h.initial);
    var w: nat :| Source(h, i, e, Some(x), w);
    LeavesWrites(h.ops[w].call, e, x);
    forall v: nat | v < |h.ops| && Writes(h.ops[v].call, x) ensures v == w {
      WriterUnique(r, name, log, limited, h, v, w, x);
    }
  }

  lemma StartsWithoutData(header: Header, s: State)
    requires Initially(header, s) && header.kv == []
    ensures s.kv == map[]
  {
    forall e ensures e !in s.kv {
      if e in s.kv { assert HoldsEntry(s, e.0, e.1, s.kv[e]); }
    }
  }

  // ----- the verdict

  datatype Ruling = Accepted(history: History) | Rejected | NotLinearizable | Undecided

  /** Parsing, the event loop, the closing conditions, the history verdict and the coverage, in that order. */
  method Validate(r: Run, name: string, log: seq<Record>, limited: bool) returns (v: Ruling)
    ensures v.Accepted? ==>
      && Recorded(r, name, log, limited) && Exercises(r.c, log)
      && Parsed(NativeHeader(r.c, name), log, v.history) && WellFormed(v.history)
      && Linearizability.Linearizable(v.history)
    ensures v.NotLinearizable? ==>
      && Recorded(r, name, log, limited)
      && forall h | Parsed(NativeHeader(r.c, name), log, h) && WellFormed(h) :: !Linearizability.Linearizable(h)
    ensures v.Undecided? ==> Recorded(r, name, log, limited)
    ensures v.Rejected? ==> !Recorded(r, name, log, limited) || !Exercises(r.c, log)
  {
    if !Legal(r.c) {
      return Rejected;
    }
    var parsed := Parse(NativeHeader(r.c, name), log);
    if parsed.None? {
      return Rejected;
    }
    var h := parsed.value;
    var ledger := ValidateEvents(r, log);
    RecordedExact(r, log, limited);
    if ledger.None? || !FinalFits(r, ledger.value, limited) {
      return Rejected;
    }
    HistoryIsAtomic(r, name, log, h);
    Linearizability.ExplainedIffLinearizable(h);
    var verdict := Checker.Check(h, MAX_STATES);
    if verdict.Inconclusive? {
      return Undecided;
    }
    if verdict.Invalid? {
      forall h' | Parsed(NativeHeader(r.c, name), log, h') && WellFormed(h') ensures h' == h {
        ParseDetermined(NativeHeader(r.c, name), log, h', h);
      }
      return NotLinearizable;
    }
    var confirmed := Certificates.VerifyWitness(h, verdict.certificate);
    assert confirmed;
    if !Covered(r.c, ledger.value) {
      return Rejected;
    }
    return Accepted(h);
  }
}
