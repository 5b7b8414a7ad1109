/** The per-phase metric rows of a run: what each counter counts, and what the counters conserve. */
module Accounting {
  import opened Wrappers
  import opened Histories
  import opened Workload
  import opened EventLog
  import opened LogTheorems

  type RowKey = (Phase, Kind)

  /** What a counter of a row accumulates; a read of unknown outcome has no counter of its own. */
  datatype Measure =
    | CallCount | InputItem | Successful | UnknownWrite | UnknownRead | RefusedItem | AttemptCount
    | Reason(cause: Cause)

  /** What it is for a call to end with a cause. */
  ghost predicate EndsBy(reason: Option<Failure>, cause: Cause) {
    match cause
    case Succeeded => reason == None
    case LeaderElsewhere => reason.Some? && reason.value.NotLeader?
    case CountLimit => reason.Some? && reason.value.AdmissionCount?
    case BytesLimit => reason.Some? && reason.value.AdmissionBytes?
    case SizeLimit => reason.Some? && reason.value.AdmissionOversize?
    case QuorumUnconfirmed => reason.Some? && reason.value.ReadQuorum?
    case ApplyUnconfirmed => reason.Some? && reason.value.ReadApply?
    case StatusCode => reason.Some? && reason.value.RpcStatus?
    case Violation => reason.Some? && reason.value.Protocol?
    case TimeUsedUp => reason.Some? && reason.value.Deadline?
    case ClientCapacity => reason.Some? && reason.value.Capacity?
    case ClientInput => reason.Some? && reason.value.Input?
  }

  lemma EndsByItsCause(reason: Option<Failure>, cause: Cause)
    ensures EndsBy(reason, cause) <==> CauseOf(reason) == cause
  {
  }

  /** What one terminal contributes. */
  ghost function Amount(m: Measure, call: Record, e: Record): int
    requires call.Invoke? && e.Return?
  {
    var n := |CallKeys(call.call)|;
    match m
    case CallCount => 1
    case InputItem => n
    case Successful => if e.outcome == Ok then n else 0
    case UnknownWrite => if e.outcome == Unknown && CallWrites(call.call) then n else 0
    case UnknownRead => if e.outcome == Unknown && !CallWrites(call.call) then n else 0
    case RefusedItem => if e.outcome == Refused then n else 0
    case AttemptCount => |e.observation.attempts|
    case Reason(cause) => if EndsBy(e.observation.reason, cause) then 1 else 0
  }

  ghost predicate CallWrites(c: Call) {
    c.Put? || c.Delete? || c.BatchPut?
  }

  /** A terminal counts in the row of its call's phase and operation. */
  ghost function Share(issued: Calls, key: RowKey, m: Measure, e: Record): int {
    if e.Return? && e.id in issued && issued[e.id].Invoke? && issued[e.id].phase == key.0
       && OfKind(issued[e.id].call, key.1)
    then Amount(m, issued[e.id], e) else 0
  }

  /** A measure summed over the terminals of the calls of one phase and operation. */
  ghost function Tally(log: seq<Record>, issued: Calls, key: RowKey, m: Measure): int {
    if log == [] then 0 else Tally(log[..|log| - 1], issued, key, m) + Share(issued, key, m, log[|log| - 1])
  }

  lemma TallyNext(log: seq<Record>, issued: Calls, key: RowKey, m: Measure, e: Record)
    ensures Tally(log + [e], issued, key, m) == Tally(log, issued, key, m) + Share(issued, key, m, e)
  {
    assert (log + [e])[..|log|] == log;
  }

  /** Issuing further calls does not change what earlier terminals contributed. */
  lemma {:induction false} TallyStable(log: seq<Record>, issued: Calls, e: Record, key: RowKey, m: Measure)
    requires e.id !in issued && ReturnsIn(log, issued)
    ensures Tally(log, issued[e.id := e], key, m) == Tally(log, issued, key, m)
  {
    if log != [] {
      var init := log[..|log| - 1];
      forall k | 0 <= k < |init| && init[k].Return? ensures init[k].id in issued { assert init[k] == log[k]; }
      TallyStable(init, issued, e, key, m);
    }
  }

  // ----- the rows are the tallies

  function RowAt(rows: map<RowKey, Row>, key: RowKey): Row {
    if key in rows then rows[key] else NEW_ROW
  }

  function ReasonAt(row: Row, cause: Cause): int {
    if cause in row.reasons then row.reasons[cause] else 0
  }

  function Counter(row: Row, m: Measure): int
    requires m != UnknownRead
  {
    match m
    case CallCount => row.calls
    case InputItem => row.inputItems
    case Successful => row.successfulItems
    case UnknownWrite => row.unknownWriteItems
    case RefusedItem => row.refusedItems
    case AttemptCount => row.attempts
    case Reason(cause) => ReasonAt(row, cause)
  }

  ghost predicate RowsTallied(log: seq<Record>, issued: Calls, rows: map<RowKey, Row>) {
    && (forall key, m | m != UnknownRead :: Counter(RowAt(rows, key), m) == Tally(log, issued, key, m))
    && forall key | key in rows :: rows[key].calls >= 1
  }

  lemma CountedAdds(row: Row, call: Record, e: Record, m: Measure)
    requires call.Invoke? && IsWorkloadCall(call.call) && e.Return? && m != UnknownRead
    ensures Counter(Counted(row, call, e), m) == Counter(row, m) + Amount(m, call, e)
  {
    KindDecides(call.call, KindIn(call.call));
    if m.Reason? { EndsByItsCause(e.observation.reason, m.cause); }
  }

  lemma TalliedReturn(log: seq<Record>, s: Ledger, e: Record)
    requires RowsTallied(log, s.issued, s.rows) && e.Return? && e.id in s.issued && s.issued[e.id].Invoke?
    requires IsWorkloadCall(s.issued[e.id].call)
    ensures RowsTallied(log + [e], s.issued, Returned(s, s.issued[e.id], e).rows)
  {
    var call := s.issued[e.id];
    var rows := Returned(s, call, e).rows;
    var own := (call.phase, KindIn(call.call));
    assert rows == s.rows[own := Counted(RowAt(s.rows, own), call, e)];
    forall key, m | m != UnknownRead ensures Counter(RowAt(rows, key), m) == Tally(log + [e], s.issued, key, m) {
      TallyNext(log, s.issued, key, m, e);
      KindDecides(call.call, key.1);
      assert Counter(RowAt(s.rows, key), m) == Tally(log, s.issued, key, m);
      if key == own { CountedAdds(RowAt(s.rows, own), call, e, m); }
    }
  }

  lemma TalliedInvoke(log: seq<Record>, issued: Calls, rows: map<RowKey, Row>, e: Record)
    requires RowsTallied(log, issued, rows) && e.Invoke? && e.id !in issued
    requires ReturnsIn(log, issued)
    ensures RowsTallied(log + [e], issued[e.id := e], rows)
  {
    forall key, m | m != UnknownRead
      ensures Counter(RowAt(rows, key), m) == Tally(log + [e], issued[e.id := e], key, m)
    {
      TallyNext(log, issued[e.id := e], key, m, e);
      TallyStable(log, issued, e, key, m);
      assert Counter(RowAt(rows, key), m) == Tally(log, issued, key, m);
    }
  }

  lemma TalliedEmpty(issued: Calls)
    ensures RowsTallied([], issued, map[])
  {
    forall key: RowKey, m: Measure | m != UnknownRead ensures Counter(RowAt(map[], key), m) == 0 {}
  }

  /** Every counter of every row equals its measure of the log. */
  lemma {:induction false} RowsAreTallies(r: Run, log: seq<Record>)
    requires Legal(r.c) && Replay(r, log).Some?
    ensures RowsTallied(log, Replay(r, log).value.issued, Replay(r, log).value.rows)
  {
    if log == [] {
      TalliedEmpty(map[]);
    } else {
      RowsAreTallies(r, log[..|log| - 1]);
      LastStep(r, log);
      ReturnsIssued(r, log[..|log| - 1]);
      IssuedAreWorkload(r, log[..|log| - 1]);
      TalliedGrow(log, Replay(r, log[..|log| - 1]).value, Replay(r, log).value);
    }
  }

  lemma TalliedGrow(log: seq<Record>, s: Ledger, t: Ledger)
    requires log != [] && RowsTallied(log[..|log| - 1], s.issued, s.rows)
    requires ReturnsIn(log[..|log| - 1], s.issued) && WorkloadOnly(s.issued)
    requires var e := log[|log| - 1];
             if e.Invoke? then e.id !in s.issued && t == Invoked(s, e)
             else e.id in s.issued && s.issued[e.id].Invoke? && t == Returned(s, s.issued[e.id], e)
    ensures RowsTallied(log, t.issued, t.rows)
  {
    var init, e := log[..|log| - 1], log[|log| - 1];
    assert init + [e] == log;
    if e.Invoke? {
      TalliedInvoke(init, s.issued, s.rows, e);
    } else {
      TalliedReturn(init, s, e);
    }
  }

  // ----- conservation

  ghost function Classified(log: seq<Record>, issued: Calls, key: RowKey): int {
    Tally(log, issued, key, Successful) + Tally(log, issued, key, RefusedItem)
    + Tally(log, issued, key, UnknownWrite) + Tally(log, issued, key, UnknownRead)
  }

  ghost predicate WorkloadOnly(issued: Calls) {
    forall id | id in issued :: issued[id].Invoke? && IsWorkloadCall(issued[id].call)
  }

  lemma {:induction false} IssuedAreWorkload(r: Run, log: seq<Record>)
    requires Legal(r.c) && Replay(r, log).Some?
    ensures WorkloadOnly(Replay(r, log).value.issued)
  {
    if log != [] { IssuedAreWorkload(r, log[..|log| - 1]); }
  }

  /** Every item has exactly one outcome class, and only writes are counted as unknown writes. */
  lemma {:induction false} ItemsConserved(log: seq<Record>, issued: Calls, key: RowKey)
    requires WorkloadOnly(issued)
    ensures Tally(log, issued, key, InputItem) == Classified(log, issued, key)
    ensures Tally(log, issued, key, if key.1 in {GetKind, BatchGetKind} then UnknownWrite else UnknownRead) == 0
    ensures Tally(log, issued, key, UnknownRead) >= 0
  {
    if log != [] {
      ItemsConserved(log[..|log| - 1], issued, key);
    }
  }

  ghost function ReasonSum(log: seq<Record>, issued: Calls, key: RowKey, n: nat): int
    requires n <= 12
  {
    if n == 0 then 0 else ReasonSum(log, issued, key, n - 1) + Tally(log, issued, key, Reason(POPULATIONS[n - 1]))
  }

  /** Whether a terminal's cause is among the first `n`. */
  ghost predicate Among(e: Record, n: nat)
    requires e.Return? && n <= 12
  {
    exists k :: 0 <= k < n && POPULATIONS[k] == CauseOf(e.observation.reason)
  }

  /** A cause stands at one place among the twelve. */
  lemma AmongNext(e: Record, n: nat)
    requires e.Return? && n < 12
    ensures Among(e, n + 1) <==> Among(e, n) || POPULATIONS[n] == CauseOf(e.observation.reason)
    ensures Among(e, n) ==> POPULATIONS[n] != CauseOf(e.observation.reason)
  {
  }

  lemma AmongAll(e: Record)
    requires e.Return?
    ensures Among(e, 12)
  {
    var cause := CauseOf(e.observation.reason);
    assert cause == POPULATIONS[0] || cause == POPULATIONS[1] || cause == POPULATIONS[2] || cause == POPULATIONS[3]
        || cause == POPULATIONS[4] || cause == POPULATIONS[5] || cause == POPULATIONS[6] || cause == POPULATIONS[7]
        || cause == POPULATIONS[8] || cause == POPULATIONS[9] || cause == POPULATIONS[10] || cause == POPULATIONS[11];
  }

  lemma {:induction false} ReasonSumNext(log: seq<Record>, issued: Calls, key: RowKey, e: Record, n: nat)
    requires n <= 12
    ensures ReasonSum(log + [e], issued, key, n) == ReasonSum(log, issued, key, n)
      + if e.Return? && Among(e, n) then Share(issued, key, CallCount, e) else 0
  {
    if n > 0 {
      ReasonSumNext(log, issued, key, e, n - 1);
      TallyNext(log, issued, key, Reason(POPULATIONS[n - 1]), e);
      if e.Return? {
        AmongNext(e, n - 1);
        EndsByItsCause(e.observation.reason, POPULATIONS[n - 1]);
      }
    }
  }

  lemma {:induction false} ReasonSumEmpty(issued: Calls, key: RowKey, n: nat)
    requires n <= 12
    ensures ReasonSum([], issued, key, n) == 0
  {
    if n > 0 { ReasonSumEmpty(issued, key, n - 1); }
  }

  /** The twelve reason counts sum to the number of calls. */
  lemma {:induction false} ReasonsConserved(log: seq<Record>, issued: Calls, key: RowKey)
    ensures ReasonSum(log, issued, key, 12) == Tally(log, issued, key, CallCount)
  {
    if log == [] {
      ReasonSumEmpty(issued, key, 12);
    } else {
      var init, e := log[..|log| - 1], log[|log| - 1];
      assert init + [e] == log;
      ReasonsConserved(init, issued, key);
      ReasonSumNext(init, issued, key, e, 12);
      if e.Return? { AmongAll(e); }
    }
  }

  function RowReasons(row: Row, n: nat): int
    requires n <= 12
  {
    if n == 0 then 0 else RowReasons(row, n - 1) + ReasonAt(row, POPULATIONS[n - 1])
  }

  lemma {:induction false} RowReasonsAre(log: seq<Record>, issued: Calls, rows: map<RowKey, Row>, key: RowKey, n: nat)
    requires RowsTallied(log, issued, rows) && n <= 12
    ensures RowReasons(RowAt(rows, key), n) == ReasonSum(log, issued, key, n)
  {
    if n > 0 {
      RowReasonsAre(log, issued, rows, key, n - 1);
      var m := Reason(POPULATIONS[n - 1]);
      assert Counter(RowAt(rows, key), m) == Tally(log, issued, key, m);
    }
  }

  /** Item classes of a row sum to its input, except that reads of unknown outcome are left over; reasons sum to
      calls. */
  lemma RowsConserve(r: Run, log: seq<Record>, key: RowKey)
    requires Legal(r.c) && Replay(r, log).Some? && key in Replay(r, log).value.rows
    ensures var row := Replay(r, log).value.rows[key];
            && row.inputItems == row.successfulItems + row.refusedItems + row.unknownWriteItems
                 + Tally(log, Replay(r, log).value.issued, key, UnknownRead)
            && (key.1 in {GetKind, BatchGetKind} ==> row.unknownWriteItems == 0)
            && (key.1 !in {GetKind, BatchGetKind} ==>
                row.inputItems == row.successfulItems + row.refusedItems + row.unknownWriteItems)
            && row.inputItems >= row.successfulItems + row.refusedItems + row.unknownWriteItems
            && RowReasons(row, 12) == row.calls
  {
    var s := Replay(r, log).value;
    RowsAreTallies(r, log);
    IssuedAreWorkload(r, log);
    ItemsConserved(log, s.issued, key);
    ReasonsConserved(log, s.issued, key);
    RowReasonsAre(log, s.issued, s.rows, key, 12);
    var row := RowAt(s.rows, key);
    assert Counter(row, InputItem) == Tally(log, s.issued, key, InputItem);
    assert Counter(row, Successful) == Tally(log, s.issued, key, Successful);
    assert Counter(row, UnknownWrite) == Tally(log, s.issued, key, UnknownWrite);
    assert Counter(row, RefusedItem) == Tally(log, s.issued, key, RefusedItem);
    assert Counter(row, CallCount) == Tally(log, s.issued, key, CallCount);
  }

  // ----- no terminal is lost between the rows

  ghost function TotalCalls(rows: map<RowKey, Row>): int
    decreases |rows|
  {
    if rows == map[] then 0 else
      var key :| key in rows;
      rows[key].calls + TotalCalls(rows - {key})
  }

  lemma {:induction false} TotalRemove(rows: map<RowKey, Row>, key: RowKey)
    requires key in rows
    ensures TotalCalls(rows) == rows[key].calls + TotalCalls(rows - {key})
    decreases |rows|
  {
    var first :| first in rows && TotalCalls(rows) == rows[first].calls + TotalCalls(rows - {first});
    if first != key {
      TotalRemove(rows - {first}, key);
      TotalRemove(rows - {key}, first);
      assert rows - {first} - {key} == rows - {key} - {first};
    }
  }

  lemma TotalUpdate(rows: map<RowKey, Row>, key: RowKey, row: Row)
    ensures TotalCalls(rows[key := row]) == TotalCalls(rows) - RowAt(rows, key).calls + row.calls
  {
    TotalRemove(rows[key := row], key);
    if key in rows {
      TotalRemove(rows, key);
      assert rows[key := row] - {key} == rows - {key};
    } else {
      assert rows[key := row] - {key} == rows;
    }
  }

  /** The rows' call counts sum to the number of terminals, which is every record that is not an invocation. */
  lemma {:induction false} CallsConserved(r: Run, log: seq<Record>)
    requires Legal(r.c) && Replay(r, log).Some?
    ensures TotalCalls(Replay(r, log).value.rows) == |log| - Invocations(log) == |Replay(r, log).value.completed|
  {
    if log != [] {
      var init, e := log[..|log| - 1], log[|log| - 1];
      CallsConserved(r, init);
      LastStep(r, log);
      var s := Replay(r, init).value;
      if e.Return? {
        var call := s.issued[e.id];
        var key := (call.phase, KindIn(call.call));
        TotalUpdate(s.rows, key, Counted(RowAt(s.rows, key), call, e));
      }
    }
  }

  /** When no call is left active, the log has one terminal for each invocation. */
  lemma TerminalsComplete(r: Run, log: seq<Record>)
    requires Legal(r.c) && Replay(r, log).Some? && Replay(r, log).value.active == map[]
    ensures var s := Replay(r, log).value;
            |log| == 2 * |s.issued| && |s.completed| == |s.issued| == TotalCalls(s.rows)
  {
    var s := Replay(r, log).value;
    CallsConserved(r, log);
    ReplayTracks(r, log);
    assert s.completed.Keys == s.issued.Keys;
    assert |s.completed| == |s.completed.Keys| == |s.issued.Keys| == |s.issued|;
  }
}
