/** What every accepted event log guarantees about the calls it records. */
module LogTheorems {
  import opened Wrappers
  import opened Counting
  import opened Workload
  import opened EventLog

  // ----- well-formed concurrent histories, stated on the log alone

  ghost predicate IsReturned(log: seq<Record>, id: int) {
    exists k :: 0 <= k < |log| && log[k].Return? && log[k].id == id
  }

  function Invocations(log: seq<Record>): nat {
    if log == [] then 0 else Invocations(log[..|log| - 1]) + if log[|log| - 1].Invoke? then 1 else 0
  }

  /** Identities count invocations in log order. */
  ghost predicate Dense(log: seq<Record>) {
    forall k | 0 <= k < |log| && log[k].Invoke? :: log[k].id == Invocations(log[..k])
  }

  /** Every return ends a call invoked earlier, and no call returns twice. */
  ghost predicate ReturnsMatched(log: seq<Record>) {
    && (forall k | 0 <= k < |log| && log[k].Return? ::
          exists j :: 0 <= j < k && log[j].Invoke? && log[j].id == log[k].id)
    && (forall j, k | 0 <= j < k < |log| && log[j].Return? && log[k].Return? :: log[j].id != log[k].id)
  }

  /** A client's next invocation comes after the return of its previous one. */
  ghost predicate Alternates(log: seq<Record>) {
    forall j, k | 0 <= j < k < |log| && log[j].Invoke? && log[k].Invoke? && log[j].client == log[k].client ::
      exists m :: j < m < k && log[m].Return? && log[m].id == log[j].id
  }

  /** Calls invoked and not yet returned. */
  ghost function InFlight(log: seq<Record>): set<int> {
    set k | 0 <= k < |log| && log[k].Invoke? && !IsReturned(log, log[k].id) :: log[k].id
  }

  /** The highest concurrency of any prefix. */
  ghost predicate IsPeak(log: seq<Record>, peak: int) {
    && (forall n | 0 <= n <= |log| :: |InFlight(log[..n])| <= peak)
    && (exists n :: 0 <= n <= |log| && |InFlight(log[..n])| == peak)
  }

  ghost predicate WellFormedLog(log: seq<Record>) {
    Dense(log) && ReturnsMatched(log) && Alternates(log)
  }

  // ----- what the ledger records about the log

  type Calls = map<int, Record>

  ghost predicate Listed(log: seq<Record>, issued: Calls, id: int)
    requires id in issued
  {
    exists k :: 0 <= k < |log| && log[k].Invoke? && log[k].id == id && log[k] == issued[id]
  }

  ghost predicate Issues(log: seq<Record>, issued: Calls) {
    && (forall k | 0 <= k < |log| && log[k].Invoke? :: log[k].id in issued && issued[log[k].id] == log[k])
    && (forall id | id in issued :: Listed(log, issued, id))
    && (forall id :: id in issued <==> 0 <= id < |issued|) && |issued| == Invocations(log)
  }

  /** Active calls are the issued ones that have not returned; completed ones carry their return. */
  ghost predicate Activity(log: seq<Record>, issued: Calls, active: Calls, completed: Calls) {
    && (forall id | id in active :: id in issued && active[id] == issued[id])
    && (forall id | id in issued :: id in active <==> !IsReturned(log, id))
    && (forall k | 0 <= k < |log| && log[k].Return? ::
          log[k].id in issued && log[k].id in completed && completed[log[k].id] == log[k])
    && completed.Keys == issued.Keys - active.Keys
  }

  ghost predicate ClientsIn(active: Calls, workers: set<int>) {
    forall id | id in active :: active[id].Invoke? && active[id].client in workers
  }

  ghost predicate DistinctClients(active: Calls) {
    forall a, b | a in active && b in active && a != b ::
      active[a].Invoke? && active[b].Invoke? && active[a].client != active[b].client
  }

  /** Busy workers and active calls correspond one to one. */
  ghost predicate Busy(count: nat, active: Calls, workers: set<int>) {
    && ClientsIn(active, workers)
    && (forall w | w in workers :: exists id :: id in active && active[id].Invoke? && active[id].client == w)
    && DistinctClients(active)
    && (forall w | w in workers :: 0 <= w < count)
  }

  lemma ReturnedNext(log: seq<Record>, e: Record, id: int)
    ensures IsReturned(log + [e], id) <==> IsReturned(log, id) || (e.Return? && e.id == id)
  {
    var next := log + [e];
    if k :| 0 <= k < |log| && log[k].Return? && log[k].id == id { assert next[k] == log[k]; }
    if e.Return? && e.id == id { assert next[|log|] == e; }
    if k :| 0 <= k < |next| && next[k].Return? && next[k].id == id { assert k < |log| ==> next[k] == log[k]; }
  }

  lemma InvocationsNext(log: seq<Record>, e: Record)
    ensures Invocations(log + [e]) == Invocations(log) + if e.Invoke? then 1 else 0
  {
    assert (log + [e])[..|log|] == log;
  }

  lemma ListedNext(log: seq<Record>, e: Record, issued: Calls, id: int)
    requires id in issued && Listed(log, issued, id)
    ensures Listed(log + [e], issued, id)
  {
    var k :| 0 <= k < |log| && log[k].Invoke? && log[k].id == id && log[k] == issued[id];
    assert (log + [e])[k] == log[k];
  }

  lemma IssuesInvoke(log: seq<Record>, issued: Calls, e: Record)
    requires Issues(log, issued) && e.Invoke? && e.id == |issued|
    ensures Issues(log + [e], issued[e.id := e])
  {
    var next, t := log + [e], issued[e.id := e];
    InvocationsNext(log, e);
    NumberedNext(issued, e, t);
    forall id | id in t ensures Listed(next, t, id) { ListedInvoke(log, e, issued, id); }
    forall k | 0 <= k < |next| && next[k].Invoke? ensures next[k].id in t && t[next[k].id] == next[k] {
      if k < |log| { assert next[k] == log[k]; }
    }
  }

  lemma NumberedNext(issued: Calls, e: Record, t: Calls)
    requires e.id == |issued| && t == issued[e.id := e] && forall id :: id in issued <==> 0 <= id < |issued|
    ensures |t| == |issued| + 1 && forall id :: id in t <==> 0 <= id < |t|
  {
    assert t.Keys == issued.Keys + {e.id};
  }

  lemma ListedInvoke(log: seq<Record>, e: Record, issued: Calls, id: int)
    requires e.Invoke? && id in issued[e.id := e] && (id != e.id ==> Listed(log, issued, id))
    ensures Listed(log + [e], issued[e.id := e], id)
  {
    var next := log + [e];
    if id == e.id {
      assert next[|log|] == e;
    } else {
      var k :| 0 <= k < |log| && log[k].Invoke? && log[k].id == id && log[k] == issued[id];
      assert next[k] == log[k];
    }
  }

  lemma IssuesReturn(log: seq<Record>, issued: Calls, e: Record)
    requires Issues(log, issued) && e.Return?
    ensures Issues(log + [e], issued)
  {
    InvocationsNext(log, e);
    forall id | id in issued ensures Listed(log + [e], issued, id) { ListedNext(log, e, issued, id); }
  }

  lemma ActivityInvoke(log: seq<Record>, issued: Calls, active: Calls, completed: Calls, e: Record)
    requires Activity(log, issued, active, completed) && e.Invoke? && e.id !in issued
    ensures Activity(log + [e], issued[e.id := e], active[e.id := e], completed)
  {
    var next := log + [e];
    forall id ensures IsReturned(next, id) <==> IsReturned(log, id) { ReturnedNext(log, e, id); }
    assert !IsReturned(log, e.id);
    forall k | 0 <= k < |next| && next[k].Return? ensures k < |log| && next[k] == log[k] {}
    assert issued[e.id := e].Keys == issued.Keys + {e.id} && active[e.id := e].Keys == active.Keys + {e.id};
  }

  lemma ActivityReturn(log: seq<Record>, issued: Calls, active: Calls, completed: Calls, e: Record)
    requires Activity(log, issued, active, completed) && e.Return? && e.id in active
    ensures Activity(log + [e], issued, active - {e.id}, completed[e.id := e])
  {
    var next := log + [e];
    forall id ensures IsReturned(next, id) <==> IsReturned(log, id) || id == e.id { ReturnedNext(log, e, id); }
    forall k | 0 <= k < |next| && next[k].Return?
      ensures next[k].id in issued && next[k].id in completed[e.id := e] && completed[e.id := e][next[k].id] == next[k]
    {
      if k < |log| {
        assert next[k] == log[k];
        assert IsReturned(log, log[k].id);
      }
    }
  }

  lemma BusyInvoke(count: nat, active: Calls, workers: set<int>, e: Record)
    requires Busy(count, active, workers) && e.Invoke? && e.id !in active && 0 <= e.client < count
             && e.client !in workers
    ensures Busy(count, active[e.id := e], workers + {e.client})
  {
    var t := active[e.id := e];
    forall w | w in workers + {e.client} ensures exists id :: id in t && t[id].Invoke? && t[id].client == w {
      if w == e.client {
        assert t[e.id] == e;
      } else {
        var id :| id in active && active[id].Invoke? && active[id].client == w;
        assert t[id] == active[id];
      }
    }
  }

  lemma BusyReturn(count: nat, active: Calls, workers: set<int>, id: int)
    requires Busy(count, active, workers) && id in active && active[id].Invoke?
    ensures Busy(count, active - {id}, workers - {active[id].client})
  {
    var t := active - {id};
    forall w | w in workers - {active[id].client} ensures exists j :: j in t && t[j].Invoke? && t[j].client == w {
      var j :| j in active && active[j].Invoke? && active[j].client == w;
      assert j in t;
    }
  }

  // ----- the log stays well formed

  lemma DenseNext(log: seq<Record>, e: Record)
    requires Dense(log) && (e.Invoke? ==> e.id == Invocations(log))
    ensures Dense(log + [e])
  {
    var next := log + [e];
    forall k | 0 <= k < |next| && next[k].Invoke? ensures next[k].id == Invocations(next[..k]) {
      assert next[..k] == log[..k];
      if k < |log| { assert next[k] == log[k]; } else { assert log[..k] == log; }
    }
  }

  lemma MatchedNext(log: seq<Record>, e: Record)
    requires ReturnsMatched(log)
    requires e.Return? ==> !IsReturned(log, e.id) && exists j :: 0 <= j < |log| && log[j].Invoke? && log[j].id == e.id
    ensures ReturnsMatched(log + [e])
  {
    var next := log + [e];
    forall k | 0 <= k < |next| && next[k].Return?
      ensures exists j :: 0 <= j < k && next[j].Invoke? && next[j].id == next[k].id
    {
      var j :| 0 <= j < k && log[j].Invoke? && log[j].id == next[k].id;
      assert next[j] == log[j];
    }
    forall j, k | 0 <= j < k < |next| && next[j].Return? && next[k].Return? ensures next[j].id != next[k].id {
      assert next[j] == log[j];
      assert IsReturned(log, log[j].id);
    }
  }

  lemma AlternatesNext(log: seq<Record>, e: Record)
    requires Alternates(log)
    requires e.Invoke? ==> forall j | 0 <= j < |log| && log[j].Invoke? && log[j].client == e.client ::
             ReturnedAfter(log, j)
    ensures Alternates(log + [e])
  {
    var next := log + [e];
    forall j, k | 0 <= j < k < |next| && next[j].Invoke? && next[k].Invoke? && next[j].client == next[k].client
      ensures exists m :: j < m < k && next[m].Return? && next[m].id == next[j].id
    {
      assert next[j] == log[j];
      if k == |log| { assert ReturnedAfter(log, j); }
      var m :| j < m < k && log[m].Return? && log[m].id == log[j].id;
      assert next[m] == log[m];
    }
  }

  ghost predicate ReturnedAfter(log: seq<Record>, j: nat)
    requires j < |log|
  {
    exists m :: j < m < |log| && log[m].Return? && log[m].id == log[j].id
  }

  lemma {:induction false} InvocationsGrow(log: seq<Record>, i: nat, j: nat)
    requires i < j <= |log| && log[i].Invoke?
    ensures Invocations(log[..i]) < Invocations(log[..j])
  {
    assert log[..j][..j - 1] == log[..j - 1];
    if i < j - 1 { InvocationsGrow(log, i, j - 1); }
  }

  lemma SameInvocation(log: seq<Record>, i: nat, j: nat)
    requires Dense(log) && i < |log| && j < |log| && log[i].Invoke? && log[j].Invoke? && log[i].id == log[j].id
    ensures i == j
  {
    if i < j { InvocationsGrow(log, i, j); }
    if j < i { InvocationsGrow(log, j, i); }
  }

  /** An idle client's earlier call has returned after it was invoked. */
  lemma PreviousReturned(log: seq<Record>, issued: Calls, active: Calls, completed: Calls, workers: set<int>, j: nat)
    requires ReturnsMatched(log) && Dense(log) && Issues(log, issued) && Activity(log, issued, active, completed)
    requires ClientsIn(active, workers) && j < |log| && log[j].Invoke? && log[j].client !in workers
    ensures ReturnedAfter(log, j)
  {
    var id := log[j].id;
    assert issued[id] == log[j];
    assert IsReturned(log, id);
    var m :| 0 <= m < |log| && log[m].Return? && log[m].id == id;
    var i :| 0 <= i < m && log[i].Invoke? && log[i].id == id;
    SameInvocation(log, i, j);
  }

  /** Everything the ledger and the log satisfy together. */
  ghost predicate Tracks(workers: nat, log: seq<Record>, s: Ledger) {
    && WellFormedLog(log) && Issues(log, s.issued) && Activity(log, s.issued, s.active, s.completed)
    && Busy(workers, s.active, s.workers)
  }

  /** The part of an invocation's admission that the tables depend on. */
  ghost predicate Opens(workers: nat, s: Ledger, e: Record, t: Ledger) {
    && e.Invoke? && e.id == |s.issued| && 0 <= e.client < workers && e.client !in s.workers && s.lastTime <= e.time
    && (e.phase.Traffic? ==> e.nonce.Some? && e.nonce.value !in s.nonces) && t == Invoked(s, e)
  }

  /** The same of a return. */
  ghost predicate Closes(s: Ledger, e: Record, t: Ledger) {
    && e.Return? && e.id in s.active && s.active[e.id].Invoke? && s.lastTime <= e.time
    && AttemptTime(e.observation.attempts) <= e.time - s.active[e.id].time && t == Returned(s, s.active[e.id], e)
  }

  ghost predicate Moves(workers: nat, s: Ledger, e: Record, t: Ledger) {
    Opens(workers, s, e, t) || Closes(s, e, t)
  }

  lemma StepMoves(r: Run, s: Ledger, position: nat, e: Record)
    requires Legal(r.c) && Sane(s) && Step(r, s, position, e).Some?
    ensures Moves(r.c.workers, s, e, Step(r, s, position, e).value)
  {
  }

  lemma ReplayMoves(r: Run, log: seq<Record>)
    requires Legal(r.c) && Replay(r, log).Some? && log != []
    ensures Replay(r, log[..|log| - 1]).Some?
    ensures Moves(r.c.workers, Replay(r, log[..|log| - 1]).value, log[|log| - 1], Replay(r, log).value)
  {
    StepMoves(r, Replay(r, log[..|log| - 1]).value, |log| - 1, log[|log| - 1]);
  }

  lemma TracksInvoke(workers: nat, log: seq<Record>, s: Ledger, e: Record, t: Ledger)
    requires Tracks(workers, log, s) && Opens(workers, s, e, t)
    ensures Tracks(workers, log + [e], t)
  {
    IssuesInvoke(log, s.issued, e);
    ActivityInvoke(log, s.issued, s.active, s.completed, e);
    BusyInvoke(workers, s.active, s.workers, e);
    DenseNext(log, e);
    MatchedNext(log, e);
    forall j | 0 <= j < |log| && log[j].Invoke? && log[j].client == e.client ensures ReturnedAfter(log, j) {
      PreviousReturned(log, s.issued, s.active, s.completed, s.workers, j);
    }
    AlternatesNext(log, e);
  }

  lemma TracksReturn(workers: nat, log: seq<Record>, s: Ledger, e: Record, t: Ledger)
    requires Tracks(workers, log, s) && Closes(s, e, t)
    ensures Tracks(workers, log + [e], t)
  {
    IssuesReturn(log, s.issued, e);
    ActivityReturn(log, s.issued, s.active, s.completed, e);
    BusyReturn(workers, s.active, s.workers, e.id);
    DenseNext(log, e);
    assert Listed(log, s.issued, e.id);
    MatchedNext(log, e);
    AlternatesNext(log, e);
  }

  lemma TracksNext(workers: nat, log: seq<Record>, s: Ledger, e: Record, t: Ledger)
    requires Tracks(workers, log, s) && Moves(workers, s, e, t)
    ensures Tracks(workers, log + [e], t)
  {
    if Opens(workers, s, e, t) {
      TracksInvoke(workers, log, s, e, t);
    } else {
      TracksReturn(workers, log, s, e, t);
    }
  }

  lemma TracksGrow(workers: nat, init: seq<Record>, s: Ledger, log: seq<Record>, t: Ledger)
    requires log != [] && init == log[..|log| - 1] && Tracks(workers, init, s) && Moves(workers, s, log[|log| - 1], t)
    ensures Tracks(workers, log, t)
  {
    TracksNext(workers, init, s, log[|log| - 1], t);
    assert init + [log[|log| - 1]] == log;
  }

  /** An accepted log is a well-formed concurrent history and the ledger describes it. */
  lemma {:induction false} ReplayTracks(r: Run, log: seq<Record>)
    requires Legal(r.c) && Replay(r, log).Some?
    ensures Tracks(r.c.workers, log, Replay(r, log).value)
  {
    if log != [] {
      ReplayMoves(r, log);
      ReplayTracks(r, log[..|log| - 1]);
      TracksGrow(r.c.workers, log[..|log| - 1], Replay(r, log[..|log| - 1]).value, log, Replay(r, log).value);
    }
  }

  /** What a step did to the tables, given what they hold. */
  ghost predicate Moved(s: Ledger, e: Record, t: Ledger) {
    if e.Invoke? then e.id !in s.issued && t == Invoked(s, e)
    else && e.id in s.issued && e.id in s.active && s.active[e.id] == s.issued[e.id] && s.issued[e.id].Invoke?
         && e.id !in s.completed && t == Returned(s, s.issued[e.id], e)
  }

  lemma TracksMoved(workers: nat, log: seq<Record>, s: Ledger, e: Record, t: Ledger)
    requires Tracks(workers, log, s) && Moves(workers, s, e, t)
    ensures Moved(s, e, t)
  {
  }

  /** What the last record of an accepted log did to the ledger. */
  lemma LastStep(r: Run, log: seq<Record>)
    requires Legal(r.c) && Replay(r, log).Some? && log != []
    ensures Replay(r, log[..|log| - 1]).Some?
    ensures Moved(Replay(r, log[..|log| - 1]).value, log[|log| - 1], Replay(r, log).value)
  {
    ReplayMoves(r, log);
    ReplayTracks(r, log[..|log| - 1]);
    TracksMoved(r.c.workers, log[..|log| - 1], Replay(r, log[..|log| - 1]).value, log[|log| - 1], Replay(r, log).value);
  }

  ghost predicate ReturnsIn(log: seq<Record>, issued: Calls) {
    forall k | 0 <= k < |log| && log[k].Return? :: log[k].id in issued
  }

  lemma ReturnsIssued(r: Run, log: seq<Record>)
    requires Legal(r.c) && Replay(r, log).Some?
    ensures ReturnsIn(log, Replay(r, log).value.issued)
  {
    ReplayTracks(r, log);
  }

  // ----- concurrency

  lemma InFlightIsActive(log: seq<Record>, issued: Calls, active: Calls, completed: Calls)
    requires Issues(log, issued) && Activity(log, issued, active, completed)
    ensures InFlight(log) == active.Keys
  {
    ActiveInFlight(log, issued, active);
    InFlightWithin(log, issued, active);
  }

  lemma ActiveInFlight(log: seq<Record>, issued: Calls, active: Calls)
    requires forall id | id in issued :: Listed(log, issued, id)
    requires forall id | id in active :: id in issued && !IsReturned(log, id)
    ensures active.Keys <= InFlight(log)
  {
    forall id | id in active ensures id in InFlight(log) { ListedInFlight(log, issued, id); }
  }

  lemma InFlightWithin(log: seq<Record>, issued: Calls, active: Calls)
    requires forall k | 0 <= k < |log| && log[k].Invoke? :: log[k].id in issued
    requires forall id | id in issued :: id in active <==> !IsReturned(log, id)
    ensures InFlight(log) <= active.Keys
  {
  }

  lemma ListedInFlight(log: seq<Record>, issued: Calls, id: int)
    requires id in issued && Listed(log, issued, id) && !IsReturned(log, id)
    ensures id in InFlight(log)
  {
  }

  /** Distinct active calls keep distinct workers busy, so they are no more than the workers. */
  lemma BusyBounded(count: nat, active: Calls, workers: set<int>)
    requires Busy(count, active, workers)
    ensures |active| == |workers| <= count
  {
    var clients := map id | id in active :: active[id].client;
    assert clients.Keys == active.Keys;
    forall a, b | a in clients && b in clients && a != b ensures clients[a] != clients[b] {
      assert active[a].client != active[b].client;
    }
    ValuesSize(clients);
    forall w | w in workers ensures w in clients.Values {
      var id :| id in active && active[id].Invoke? && active[id].client == w;
      assert id in clients && clients[id] == w;
    }
    assert clients.Values == workers;
    SubsetSize(workers, Numbers(0, count));
  }

  /** The bound on concurrency holds of every accepted log, without the explicit check. */
  lemma ConcurrencyBounded(workers: nat, log: seq<Record>, s: Ledger)
    requires Tracks(workers, log, s)
    ensures |InFlight(log)| == |s.active| <= workers
  {
    InFlightIsActive(log, s.issued, s.active, s.completed);
    BusyBounded(workers, s.active, s.workers);
    assert |s.active.Keys| == |s.active|;
  }

  lemma PeakGrows(log: seq<Record>, before: int, peak: int)
    requires log != [] && IsPeak(log[..|log| - 1], before) && peak == Max(before, |InFlight(log)|)
    ensures IsPeak(log, peak)
  {
    var init := log[..|log| - 1];
    assert log[..|log|] == log;
    forall n | 0 <= n <= |init| ensures init[..n] == log[..n] {}
    var m :| 0 <= m <= |init| && |InFlight(init[..m])| == before;
    assert |InFlight(log[..m])| == before;
  }

  /** One step moves the recorded peak exactly as the concurrency moves. */
  lemma StepPeak(r: Run, s: Ledger, position: nat, e: Record)
    requires Legal(r.c) && Sane(s) && Step(r, s, position, e).Some? && |s.active| <= s.peak
    ensures var t := Step(r, s, position, e).value; t.peak == Max(s.peak, |t.active|)
  {
    if e.Return? {
      SubsetSize((s.active - {e.id}).Keys, s.active.Keys);
    }
  }

  lemma ActiveCount(r: Run, log: seq<Record>)
    requires Legal(r.c) && Replay(r, log).Some?
    ensures |InFlight(log)| == |Replay(r, log).value.active| <= r.c.workers
  {
    ReplayTracks(r, log);
    ConcurrencyBounded(r.c.workers, log, Replay(r, log).value);
  }

  lemma LastPeak(r: Run, log: seq<Record>)
    requires Legal(r.c) && Replay(r, log).Some? && log != []
    ensures Replay(r, log[..|log| - 1]).Some?
    ensures Replay(r, log).value.peak == Max(Replay(r, log[..|log| - 1]).value.peak, |InFlight(log)|)
  {
    var init := log[..|log| - 1];
    ActiveCount(r, log);
    ActiveWithinPeak(r, init);
    StepPeak(r, Replay(r, init).value, |log| - 1, log[|log| - 1]);
  }

  lemma {:induction false} ActiveWithinPeak(r: Run, log: seq<Record>)
    requires Legal(r.c) && Replay(r, log).Some?
    ensures |Replay(r, log).value.active| <= Replay(r, log).value.peak
  {
    if log != [] {
      var init := log[..|log| - 1];
      ActiveWithinPeak(r, init);
      StepPeak(r, Replay(r, init).value, |log| - 1, log[|log| - 1]);
    }
  }

  /** The recorded peak is the highest concurrency of the log. */
  lemma {:induction false} PeakIsTrue(r: Run, log: seq<Record>)
    requires Legal(r.c) && Replay(r, log).Some?
    ensures IsPeak(log, Replay(r, log).value.peak)
  {
    if log == [] {
      assert InFlight(log[..0]) == {};
    } else {
      LastPeak(r, log);
      PeakIsTrue(r, log[..|log| - 1]);
      PeakGrows(log, Replay(r, log[..|log| - 1]).value.peak, Replay(r, log).value.peak);
    }
  }

  // ----- nonces

  ghost predicate IsTraffic(e: Record) {
    e.Invoke? && e.phase.Traffic?
  }

  /** The nonces of traffic invocations, each used once. */
  ghost predicate NoncesUsed(log: seq<Record>, nonces: set<int>) {
    && (forall k | 0 <= k < |log| && IsTraffic(log[k]) :: log[k].nonce.Some? && log[k].nonce.value in nonces)
    && (forall n | n in nonces :: exists k :: 0 <= k < |log| && IsTraffic(log[k]) && log[k].nonce == Some(n))
    && (forall j, k | 0 <= j < k < |log| && IsTraffic(log[j]) && IsTraffic(log[k]) :: log[j].nonce != log[k].nonce)
  }

  lemma NoncesNext(log: seq<Record>, e: Record, nonces: set<int>, nonces': set<int>)
    requires NoncesUsed(log, nonces) && (IsTraffic(e) ==> e.nonce.Some? && e.nonce.value !in nonces)
    requires nonces' == if IsTraffic(e) then nonces + {e.nonce.value} else nonces
    ensures NoncesUsed(log + [e], nonces')
  {
    var next := log + [e];
    forall n | n in nonces' ensures exists k :: 0 <= k < |next| && IsTraffic(next[k]) && next[k].nonce == Some(n) {
      if n in nonces {
        var k :| 0 <= k < |log| && IsTraffic(log[k]) && log[k].nonce == Some(n);
        assert next[k] == log[k];
      } else {
        assert next[|log|] == e;
      }
    }
  }

  lemma {:induction false} ReplayNonces(r: Run, log: seq<Record>)
    requires Legal(r.c) && Replay(r, log).Some?
    ensures NoncesUsed(log, Replay(r, log).value.nonces)
  {
    if log != [] {
      ReplayMoves(r, log);
      ReplayNonces(r, log[..|log| - 1]);
      NoncesGrow(r.c.workers, log, Replay(r, log[..|log| - 1]).value, Replay(r, log).value);
    }
  }

  lemma NoncesGrow(workers: nat, log: seq<Record>, s: Ledger, t: Ledger)
    requires log != [] && NoncesUsed(log[..|log| - 1], s.nonces) && Moves(workers, s, log[|log| - 1], t)
    ensures NoncesUsed(log, t.nonces)
  {
    assert log[..|log| - 1] + [log[|log| - 1]] == log;
    NoncesNext(log[..|log| - 1], log[|log| - 1], s.nonces, t.nonces);
  }

  // ----- complete logs

  /** The validator's closing conditions on the ledger. */
  predicate Closed(s: Ledger) {
    s.active == map[] && s.nonces != {} && s.nonces == Numbers(0, |s.nonces|)
  }

  /** Every accepted complete log: each call returns exactly once, and the traffic nonces are
      exactly the numbers below their count, each invoked once. */
  lemma CompleteLog(r: Run, log: seq<Record>)
    requires Legal(r.c) && Replay(r, log).Some? && Closed(Replay(r, log).value)
    ensures WellFormedLog(log) && InFlight(log) == {}
    ensures forall k | 0 <= k < |log| && log[k].Invoke? :: ReturnedAfter(log, k)
    ensures NoncesUsed(log, Numbers(0, |Replay(r, log).value.nonces|))
  {
    var s := Replay(r, log).value;
    ReplayTracks(r, log);
    InFlightIsActive(log, s.issued, s.active, s.completed);
    forall k | 0 <= k < |log| && log[k].Invoke? ensures ReturnedAfter(log, k) {
      PreviousReturned(log, s.issued, s.active, s.completed, {}, k);
    }
    ReplayNonces(r, log);
  }
}
