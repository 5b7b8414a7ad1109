/** Retries of one call: which node each attempt goes to, and how long attempts and calls may take. */
module Redirects {
  import opened Wrappers
  import opened Counting
  import opened Histories
  import opened Workload
  import opened EventLog
  import opened LogTheorems
  import opened Terminals

  // ----- where attempts go

  ghost predicate DistinctPeers(peers: seq<nat>) {
    forall j, k | 0 <= j < k < |peers| :: peers[j] != peers[k]
  }

  lemma IndexIs(peers: seq<nat>, k: nat)
    requires DistinctPeers(peers) && k < |peers|
    ensures IndexOf(peers, peers[k]) == k
  {
  }

  /** Redirection leaves the refusing node exactly when there is another peer. */
  lemma FollowingLeaves(peers: seq<nat>, node: nat, hint: Option<nat>)
    requires DistinctPeers(peers) && node in peers
    ensures Following(peers, node, hint) in peers
    ensures Following(peers, node, hint) != node <==> |peers| >= 2
  {
    var i, n := IndexOf(peers, node), |peers|;
    if i + 1 == n {
      assert n == n * 1 + 0;
      DivModUnique(n, n, 1, 0);
    } else {
      DivModUnique(i + 1, n, 0, i + 1);
    }
  }

  /** In an accepted call, every attempt but the last was exclusively refused and the next one went elsewhere
      whenever there is anywhere else to go. */
  lemma RetriesElsewhere(c: Config, o: Observation, k: nat)
    requires DistinctPeers(c.peers) && AttemptsFit(c, o) && k + 1 < |o.attempts|
    ensures o.attempts[k].failure.Some? && o.attempts[k].failure.value.NotLeader?
    ensures o.attempts[k + 1].node != o.attempts[k].node <==> |c.peers| >= 2
  {
    assert AttemptFits(c, o, k);
    FollowingLeaves(c.peers, o.attempts[k].node, o.attempts[k].failure.value.leader);
  }

  /** The refusal of attempt `k` carries no usable hint. */
  ghost predicate Hintless(c: Config, o: Observation, k: nat)
    requires k < |o.attempts|
  {
    var f := o.attempts[k].failure;
    && f.Some? && f.value.NotLeader?
    && (f.value.leader == None || f.value.leader.value !in c.peers || f.value.leader.value == o.attempts[k].node)
  }

  ghost predicate HintlessRun(c: Config, o: Observation, from: nat, n: nat) {
    from + n < |o.attempts| && forall k | from <= k < from + n :: Hintless(c, o, k)
  }

  /** Without a usable hint the next peer in the list follows, wrapping around. */
  lemma FollowingHintless(peers: seq<nat>, i: nat, hint: Option<nat>)
    requires DistinctPeers(peers) && i < |peers| && (hint == None || hint.value !in peers || hint.value == peers[i])
    ensures Following(peers, peers[i], hint) == peers[if i + 1 == |peers| then 0 else i + 1]
  {
    IndexIs(peers, i);
    var n := |peers|;
    if i + 1 == n {
      DivModUnique(n, n, 1, 0);
    } else {
      DivModUnique(i + 1, n, 0, i + 1);
    }
  }

  /** The peers in order, starting from position `start`. */
  ghost function Rotated(peers: seq<nat>, start: nat): seq<nat>
    requires start < |peers|
  {
    peers[start..] + peers[..start]
  }

  lemma {:induction false} HintlessWalk(c: Config, o: Observation, from: nat, start: nat, k: nat)
    requires AttemptsFit(c, o) && HintlessRun(c, o, from, k) && DistinctPeers(c.peers)
    requires k < |c.peers| && start < |c.peers| && o.attempts[from].node == c.peers[start]
    ensures o.attempts[from + k].node == Rotated(c.peers, start)[k]
  {
    if k > 0 {
      var p, n := k - 1, |c.peers|;
      HintlessWalk(c, o, from, start, p);
      assert Hintless(c, o, from + p) && AttemptFits(c, o, from + p);
      var at := if start + p < n then start + p else start + p - n;
      FollowingHintless(c.peers, at, o.attempts[from + p].failure.value.leader);
    }
  }

  /** The nodes of `n` consecutive attempts. */
  ghost function Visited(o: Observation, from: nat, n: nat): seq<int>
    requires from + n <= |o.attempts|
  {
    seq(n, k requires 0 <= k < n => o.attempts[from + k].node)
  }

  /** Without usable hints, as many consecutive attempts as peers visit every peer exactly once. */
  lemma HintlessRoundVisitsAll(c: Config, o: Observation, from: nat)
    requires AttemptsFit(c, o) && DistinctPeers(c.peers) && c.peers != [] && HintlessRun(c, o, from, |c.peers| - 1)
    ensures multiset(Visited(o, from, |c.peers|)) == multiset(c.peers)
  {
    assert AttemptFits(c, o, from);
    var start, n := IndexOf(c.peers, o.attempts[from].node), |c.peers|;
    forall k: nat | k < n ensures Visited(o, from, n)[k] == Rotated(c.peers, start)[k] {
      assert HintlessRun(c, o, from, k);
      HintlessWalk(c, o, from, start, k);
    }
    assert Visited(o, from, n) == Rotated(c.peers, start);
    RotatedMultiset(c.peers, start);
  }

  lemma RotatedMultiset(peers: seq<nat>, start: nat)
    requires start < |peers|
    ensures multiset(Rotated(peers, start)) == multiset(peers)
  {
    assert peers == peers[..start] + peers[start..];
  }

  // ----- what the outcome of a call says about its attempts

  /** A server refused the attempt before doing anything. */
  predicate Harmless(a: EventLog.Attempt) {
    ByServer(a.failure)
  }

  /** At most the last attempt can have taken effect: it did if the call succeeded, no attempt did if the
      call was refused, and an unresolved last attempt makes the outcome unknown. A call without attempts was
      rejected by the client or ran out of time. A redirected call gives up only when its attempts or its time
      are used up. Writes never end with a read's outcome. */
  lemma OutcomeJustified(r: Run, call: Record, e: Record)
    requires call.Invoke? && e.Return? && ReturnFits(r, call, e)
    ensures var attempts, reason := e.observation.attempts, e.observation.reason;
            && (forall k | 0 <= k < |attempts| - 1 :: Harmless(attempts[k]))
            && (e.outcome == Ok <==> attempts != [] && attempts[|attempts| - 1].failure == None)
            && (e.outcome == Refused <==> forall k | 0 <= k < |attempts| :: Harmless(attempts[k]))
            && (e.outcome == Unknown <==>
                attempts != [] && attempts[|attempts| - 1].failure.Some? && !Harmless(attempts[|attempts| - 1]))
            && (e.observation.receipt.Some? <==> e.outcome == Ok && !IsRead(call.call))
            && (attempts == [] ==> reason in {Some(Deadline), Some(Capacity), Some(Input)})
            && (reason in {Some(Capacity), Some(Input)} ==> attempts == [])
            && (!IsRead(call.call) ==> reason !in {Some(ReadQuorum), Some(ReadApply)})
            && (attempts != [] && Redirected(attempts[|attempts| - 1].failure) ==>
                  |attempts| == r.c.maxAttempts || e.observation.elapsed >= r.c.deadlineMs * 1_000_000)
  {
    var o := e.observation;
    PopulationMeans(o.reason);
    forall k | 0 <= k < |o.attempts| - 1 ensures Harmless(o.attempts[k]) {
      assert AttemptFits(r.c, o, k);
      PopulationMeans(o.attempts[k].failure);
    }
    if o.attempts != [] { assert AttemptFits(r.c, o, |o.attempts| - 1); }
  }

  // ----- how long they take

  lemma LastReturn(r: Run, log: seq<Record>)
    requires Legal(r.c) && Replay(r, log).Some? && log != [] && log[|log| - 1].Return?
    ensures Replay(r, log[..|log| - 1]).Some?
    ensures var s, e := Replay(r, log[..|log| - 1]).value, log[|log| - 1];
            e.id in s.active && s.active[e.id].Invoke? && ReturnFits(r, s.active[e.id], e)
  {
  }

  /** Every terminal of an accepted log fits the call it ends. */
  lemma {:induction false} ReturnsAdmitted(r: Run, log: seq<Record>, k: nat)
    requires Legal(r.c) && Replay(r, log).Some? && k < |log| && log[k].Return?
    ensures Admits(r, Replay(r, log).value.issued, log[k])
  {
    LastStep(r, log);
    if k < |log| - 1 {
      ReturnsAdmitted(r, log[..|log| - 1], k);
      AdmitsLater(r, Replay(r, log[..|log| - 1]).value, log[|log| - 1], Replay(r, log).value, log[k]);
    } else {
      LastReturn(r, log);
    }
  }

  ghost predicate Admits(r: Run, issued: Calls, e: Record)
    requires e.Return?
  {
    e.id in issued && issued[e.id].Invoke? && ReturnFits(r, issued[e.id], e)
  }

  lemma AdmitsLater(r: Run, s: Ledger, last: Record, t: Ledger, e: Record)
    requires e.Return? && Admits(r, s.issued, e) && Moved(s, last, t)
    ensures Admits(r, t.issued, e)
  {
  }

  /** The time one client's completed calls spent in attempts. */
  function ClientTime(log: seq<Record>, issued: Calls, client: int): int {
    if log == [] then 0 else
      var e := log[|log| - 1];
      ClientTime(log[..|log| - 1], issued, client)
      + if e.Return? && e.id in issued && issued[e.id].Invoke? && issued[e.id].client == client
        then AttemptTime(e.observation.attempts) else 0
  }

  lemma {:induction false} ClientTimeStable(log: seq<Record>, issued: Calls, e: Record, client: int)
    requires e.id !in issued && ReturnsIn(log, issued)
    ensures ClientTime(log, issued[e.id := e], client) == ClientTime(log, issued, client)
  {
    if log != [] {
      var init := log[..|log| - 1];
      forall k | 0 <= k < |init| && init[k].Return? ensures init[k].id in issued { assert init[k] == log[k]; }
      ClientTimeStable(init, issued, e, client);
    }
  }

  /** The client's attempts fit before its active call began, or before now if it is idle. */
  ghost predicate Timed(log: seq<Record>, s: Ledger, client: int) {
    && (forall id | id in s.active && s.active[id].Invoke? && s.active[id].client == client ::
          ClientTime(log, s.issued, client) <= s.active[id].time <= s.lastTime)
    && (client !in s.workers ==> ClientTime(log, s.issued, client) <= s.lastTime)
  }

  lemma TimedInvoke(log: seq<Record>, s: Ledger, e: Record, client: int)
    requires Timed(log, s, client) && e.Invoke? && e.id !in s.issued && e.client !in s.workers && s.lastTime <= e.time
    requires ReturnsIn(log, s.issued)
    ensures Timed(log + [e], Invoked(s, e), client)
  {
    assert (log + [e])[..|log|] == log;
    ClientTimeStable(log, s.issued, e, client);
  }

  lemma TimedReturn(log: seq<Record>, s: Ledger, e: Record, client: int)
    requires Timed(log, s, client) && e.Return? && e.id in s.active && s.active[e.id].Invoke? && s.lastTime <= e.time
    requires e.id in s.issued && s.issued[e.id] == s.active[e.id]
    requires DistinctClients(s.active)
    requires AttemptTime(e.observation.attempts) <= e.time - s.active[e.id].time
    ensures Timed(log + [e], Returned(s, s.active[e.id], e), client)
  {
    assert (log + [e])[..|log|] == log;
  }

  lemma {:induction false} ReplayTimed(r: Run, log: seq<Record>, client: int)
    requires Legal(r.c) && Replay(r, log).Some?
    ensures Timed(log, Replay(r, log).value, client)
  {
    if log != [] {
      ReplayMoves(r, log);
      LastStep(r, log);
      ReplayTimed(r, log[..|log| - 1], client);
      ReturnsIssued(r, log[..|log| - 1]);
      ActiveDistinct(r, log[..|log| - 1]);
      TimedGrow(r.c.workers, log[..|log| - 1], Replay(r, log[..|log| - 1]).value, log, Replay(r, log).value, client);
    }
  }

  lemma TimedNext(workers: nat, log: seq<Record>, s: Ledger, e: Record, t: Ledger, client: int)
    requires Timed(log, s, client) && ReturnsIn(log, s.issued) && DistinctClients(s.active) && Moves(workers, s, e, t)
             && Moved(s, e, t)
    ensures Timed(log + [e], t, client)
  {
    if e.Invoke? {
      TimedInvoke(log, s, e, client);
    } else {
      TimedReturn(log, s, e, client);
    }
  }

  lemma TimedGrow(workers: nat, init: seq<Record>, s: Ledger, log: seq<Record>, t: Ledger, client: int)
    requires log != [] && init == log[..|log| - 1] && Timed(init, s, client) && ReturnsIn(init, s.issued)
             && DistinctClients(s.active)
    requires Moves(workers, s, log[|log| - 1], t) && Moved(s, log[|log| - 1], t)
    ensures Timed(log, t, client)
  {
    TimedNext(workers, init, s, log[|log| - 1], t, client);
    assert init + [log[|log| - 1]] == log;
  }

  lemma ActiveDistinct(r: Run, log: seq<Record>)
    requires Legal(r.c) && Replay(r, log).Some?
    ensures DistinctClients(Replay(r, log).value.active)
  {
    ReplayTracks(r, log);
  }

  /** Attempts fit in their call, the call in the time between its records, and all attempts of one
      client's calls together in the elapsed time of the run. */
  lemma AttemptsFitInTime(r: Run, log: seq<Record>, k: nat, client: int)
    requires Legal(r.c) && 0 <= r.elapsed && Replay(r, log).Some? && k < |log| && log[k].Return?
    ensures log[k].id in Replay(r, log).value.issued && Replay(r, log).value.issued[log[k].id].Invoke?
    ensures var call := Replay(r, log).value.issued[log[k].id];
            AttemptTime(log[k].observation.attempts) <= log[k].observation.elapsed <= log[k].time - call.time
    ensures ClientTime(log, Replay(r, log).value.issued, client) <= r.elapsed
  {
    ReturnsAdmitted(r, log, k);
    ReplayTimed(r, log, client);
    ReplayTracks(r, log);
    LastTimeBounded(r, log);
    var s := Replay(r, log).value;
    if client in s.workers {
      var id :| id in s.active && s.active[id].Invoke? && s.active[id].client == client;
    }
  }

  lemma LastTimeBounded(r: Run, log: seq<Record>)
    requires Legal(r.c) && 0 <= r.elapsed && Replay(r, log).Some?
    ensures Replay(r, log).value.lastTime <= r.elapsed
  {
  }
}
