/** Which event logs the validator accepts, stated without its ledger. */
module LogExact {
  import opened Wrappers
  import opened Workload
  import opened EventLog
  import opened LogTheorems
  import opened Terminals

  function LastTime(log: seq<Record>): int {
    if log == [] then 0 else log[|log| - 1].time
  }

  /** Every earlier call of the client has returned. */
  ghost predicate Idle(log: seq<Record>, client: int) {
    forall j: nat | j < |log| && log[j].Invoke? && log[j].client == client :: ReturnedAfter(log, j)
  }

  ghost predicate NonceUnused(log: seq<Record>, nonce: Option<int>) {
    forall k | 0 <= k < |log| && IsTraffic(log[k]) :: log[k].nonce != nonce
  }

  /** A call with this identity was invoked and has not returned. */
  ghost predicate Open(log: seq<Record>, id: int) {
    (exists j :: 0 <= j < |log| && log[j].Invoke? && log[j].id == id) && !IsReturned(log, id)
  }

  /** Whether a record may follow a log. */
  ghost predicate MayFollow(r: Run, log: seq<Record>, e: Record)
    requires Legal(r.c)
  {
    && e.seqno == |log| && LastTime(log) <= e.time <= r.elapsed && 0 <= e.id < r.c.maxCalls
    && if e.Invoke? then
         && e.id == Invocations(log) && Begins(r, e) && Idle(log, e.client)
         && (e.phase.Traffic? ==> NonceUnused(log, e.nonce))
       else Open(log, e.id) && forall j | 0 <= j < |log| && log[j].Invoke? && log[j].id == e.id ::
         Ends(r, log[j], e)
  }

  ghost predicate Acceptable(r: Run, log: seq<Record>)
    requires Legal(r.c)
  {
    forall k: nat | k < |log| :: MayFollow(r, log[..k], log[k])
  }

  // ----- the ledger answers each question about the log

  lemma IdleIffFree(workers: nat, log: seq<Record>, s: Ledger, client: int)
    requires Tracks(workers, log, s)
    ensures Idle(log, client) <==> client !in s.workers
  {
    if client !in s.workers {
      forall j: nat | j < |log| && log[j].Invoke? && log[j].client == client ensures ReturnedAfter(log, j) {
        PreviousReturned(log, s.issued, s.active, s.completed, s.workers, j);
      }
    } else {
      var id :| id in s.active && s.active[id].Invoke? && s.active[id].client == client;
      assert Listed(log, s.issued, id);
      var j :| 0 <= j < |log| && log[j].Invoke? && log[j].id == id && log[j] == s.issued[id];
      assert !IsReturned(log, id);
      assert !ReturnedAfter(log, j);
    }
  }

  lemma OpenIffActive(workers: nat, log: seq<Record>, s: Ledger, id: int)
    requires Tracks(workers, log, s)
    ensures Open(log, id) <==> id in s.active
    ensures forall j | 0 <= j < |log| && log[j].Invoke? && log[j].id == id && id in s.active :: log[j] == s.active[id]
  {
    if id in s.active {
      assert Listed(log, s.issued, id);
    }
  }

  lemma UnusedIffNew(log: seq<Record>, nonces: set<int>, nonce: int)
    requires NoncesUsed(log, nonces)
    ensures NonceUnused(log, Some(nonce)) <==> nonce !in nonces
  {
  }

  /** The bound on concurrency never rejects an otherwise fitting invocation. */
  lemma RoomForOne(workers: nat, log: seq<Record>, s: Ledger, e: Record)
    requires Tracks(workers, log, s) && e.Invoke? && e.id == |s.issued| && 0 <= e.client < workers
             && e.client !in s.workers
    ensures |s.active[e.id := e]| <= workers
  {
    BusyInvoke(workers, s.active, s.workers, e);
    BusyBounded(workers, s.active[e.id := e], s.workers + {e.client});
  }

  /** What the ledger records of the log. */
  ghost predicate Mirrors(workers: nat, log: seq<Record>, s: Ledger) {
    Tracks(workers, log, s) && NoncesUsed(log, s.nonces) && s.lastTime == LastTime(log) && s.peak <= workers
  }

  lemma InvokeFitsExact(r: Run, log: seq<Record>, s: Ledger, e: Record)
    requires Legal(r.c) && Tracks(r.c.workers, log, s) && NoncesUsed(log, s.nonces) && e.Invoke?
    ensures InvokeFits(r, s, e) <==> e.id == Invocations(log) && Begins(r, e) && Idle(log, e.client)
                                     && (e.phase.Traffic? ==> NonceUnused(log, e.nonce))
  {
    InvokeShapeExact(r, e);
    IdleIffFree(r.c.workers, log, s, e.client);
    if e.nonce.Some? { UnusedIffNew(log, s.nonces, e.nonce.value); }
    assert |s.issued| == Invocations(log);
  }

  lemma InvokeExact(r: Run, log: seq<Record>, s: Ledger, e: Record)
    requires Legal(r.c) && Sane(s) && Mirrors(r.c.workers, log, s) && e.Invoke?
    ensures Step(r, s, |log|, e).Some? <==> MayFollow(r, log, e)
  {
    InvokeFitsExact(r, log, s, e);
    if InvokeFits(r, s, e) { RoomForOne(r.c.workers, log, s, e); }
  }

  lemma ReturnExact(r: Run, log: seq<Record>, s: Ledger, e: Record)
    requires Legal(r.c) && Sane(s) && Mirrors(r.c.workers, log, s) && e.Return?
    ensures Step(r, s, |log|, e).Some? <==> MayFollow(r, log, e)
  {
    OpenIffActive(r.c.workers, log, s, e.id);
    if e.id in s.active { ReturnFitsExact(r, s.active[e.id], e); }
  }

  lemma StepMirrors(r: Run, log: seq<Record>)
    requires Legal(r.c) && Replay(r, log).Some?
    ensures Mirrors(r.c.workers, log, Replay(r, log).value)
  {
    ReplayTracks(r, log);
    ReplayNonces(r, log);
    TimeAndPeak(r, log);
  }

  lemma {:induction false} TimeAndPeak(r: Run, log: seq<Record>)
    requires Legal(r.c) && Replay(r, log).Some?
    ensures Replay(r, log).value.lastTime == LastTime(log) && Replay(r, log).value.peak <= r.c.workers
  {
    if log != [] { TimeAndPeak(r, log[..|log| - 1]); }
  }

  lemma SameFollows(r: Run, log: seq<Record>, k: nat, other: seq<Record>)
    requires Legal(r.c) && k < |log| && k < |other| && log[..k + 1] == other[..k + 1]
    requires MayFollow(r, log[..k], log[k])
    ensures MayFollow(r, other[..k], other[k])
  {
    assert log[..k + 1][k] == other[..k + 1][k];
    assert log[..k] == log[..k + 1][..k] == other[..k + 1][..k] == other[..k];
  }

  lemma AcceptablePrefix(r: Run, log: seq<Record>, n: nat)
    requires Legal(r.c) && n <= |log| && Acceptable(r, log)
    ensures Acceptable(r, log[..n])
  {
    forall k: nat | k < n ensures MayFollow(r, log[..n][..k], log[..n][k]) {
      SameFollows(r, log, k, log[..n]);
    }
  }

  lemma AcceptableExtends(r: Run, log: seq<Record>)
    requires Legal(r.c) && log != [] && Acceptable(r, log[..|log| - 1])
    requires MayFollow(r, log[..|log| - 1], log[|log| - 1])
    ensures Acceptable(r, log)
  {
    forall k: nat | k < |log| ensures MayFollow(r, log[..k], log[k]) {
      if k < |log| - 1 { SameFollows(r, log[..|log| - 1], k, log); }
    }
  }

  lemma AcceptableLast(r: Run, log: seq<Record>)
    requires Legal(r.c) && log != []
    ensures Acceptable(r, log) <==> Acceptable(r, log[..|log| - 1]) && MayFollow(r, log[..|log| - 1], log[|log| - 1])
  {
    if Acceptable(r, log) { AcceptablePrefix(r, log, |log| - 1); }
    if Acceptable(r, log[..|log| - 1]) && MayFollow(r, log[..|log| - 1], log[|log| - 1]) { AcceptableExtends(r, log); }
  }

  /** The event loop accepts exactly the logs in which every record may follow the ones before it. */
  lemma {:induction false} ReplayExact(r: Run, log: seq<Record>)
    requires Legal(r.c)
    ensures Replay(r, log).Some? <==> Acceptable(r, log)
  {
    if log != [] {
      var init, e := log[..|log| - 1], log[|log| - 1];
      ReplayExact(r, init);
      AcceptableLast(r, log);
      if Replay(r, init).Some? {
        StepMirrors(r, init);
        if e.Invoke? {
          InvokeExact(r, init, Replay(r, init).value, e);
        } else {
          ReturnExact(r, init, Replay(r, init).value, e);
        }
      }
    }
  }
}
