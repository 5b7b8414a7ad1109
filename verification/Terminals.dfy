/**
 What an invocation and a terminal of a run's log must be, stated on the recorded phases, calls,
 failures and attempts alone.
 */
module Terminals {
  import opened Wrappers
  import opened Counting
  import opened Samples
  import opened Mixer
  import opened Histories
  import opened Workload
  import opened EventLog

  // ----- invocations

  /** The worker, phase and stage of an invocation: setup and verification belong to worker zero and
      carry no nonce; traffic is the generated call of a nonce below the reserved calls. */
  ghost predicate Begins(r: Run, e: Record)
    requires Legal(r.c) && e.Invoke?
  {
    && 0 <= e.client < r.c.workers && (exists kind: Kind :: OfKind(e.call, kind))
    && match e.phase
       case Initialization => e.nonce == None && e.client == 0 && r.setup.start <= e.time <= r.setup.end
       case Verify => e.nonce == None && e.client == 0 && r.verification.start <= e.time <= r.verification.end
       case Traffic(_) =>
         && e.nonce.Some? && e.nonce.value >= 0 && e.nonce.value + 3 * ChunkTotal(r.c) < r.c.maxCalls
         && e.call == Generated(r.c, e.nonce.value) && r.measurement.start <= e.time <= r.measurement.end
       case Unrecognized(_) => false
  }

  lemma InvokeShapeExact(r: Run, e: Record)
    requires Legal(r.c) && e.Invoke?
    ensures InvokeShape(r, e) <==> Begins(r, e)
  {
    if IsWorkloadCall(e.call) { KindDecides(e.call, KindIn(e.call)); }
  }

  // ----- reasons

  /** Refused by a server before it did anything. */
  predicate ByServer(reason: Option<Failure>) {
    reason.Some? && (reason.value.NotLeader? || reason.value.AdmissionCount? || reason.value.AdmissionBytes?
                     || reason.value.AdmissionOversize?)
  }

  /** Rejected by the client before any attempt. */
  predicate ByClient(reason: Option<Failure>) {
    reason == Some(Capacity) || reason == Some(Input)
  }

  predicate Redirected(reason: Option<Failure>) {
    reason.Some? && reason.value.NotLeader?
  }

  /** No malformed detail and no protocol violation. */
  predicate Sound(reason: Option<Failure>) {
    reason.Some? ==>
      && reason.value != Protocol && reason.value != NotLeader(Some(0))
      && (reason.value.RpcStatus? ==> reason.value.code <= 16)
  }

  lemma PopulationMeans(reason: Option<Failure>)
    ensures Population(reason).Some? <==> Sound(reason)
    ensures Sound(reason) ==>
              var p := Population(reason).value;
              && (p == 0 <==> reason == None) && (1 <= p <= 4 <==> ByServer(reason)) && (p == 1 <==> Redirected(reason))
              && (p == 5 || p == 6 <==> reason == Some(ReadQuorum) || reason == Some(ReadApply))
              && (p == 9 <==> reason == Some(Deadline)) && (p == 10 || p == 11 <==> ByClient(reason))
  {
  }

  // ----- attempts

  /** The peer after position `i` in the configured order, the first one after the last. */
  ghost function PeerAfter(peers: seq<nat>, i: nat): nat
    requires i < |peers|
  {
    if i + 1 == |peers| then peers[0] else peers[i + 1]
  }

  ghost predicate NextPeer(peers: seq<nat>, node: int, next: int) {
    exists i: nat :: i < |peers| && peers[i] == node && next == PeerAfter(peers, i)
  }

  /** A redirect goes to the named leader if that is another peer, else to the next peer. */
  ghost predicate RedirectsTo(peers: seq<nat>, a: Attempt, next: int)
    requires Redirected(a.failure)
  {
    var hint := a.failure.value.leader;
    if hint.Some? && hint.value in peers && hint.value != a.node then next == hint.value
    else NextPeer(peers, a.node, next)
  }

  /** Attempt `k`: numbered from one, at a known peer, no longer than the call; redirected to the next one,
      or the last one deciding the call. */
  ghost predicate Link(c: Config, o: Observation, k: nat)
    requires k < |o.attempts|
  {
    var a := o.attempts[k];
    && a.ordinal == k + 1 && a.node >= 1 && a.node in c.peers && 0 <= a.elapsed <= o.elapsed && Sound(a.failure)
    && if k == |o.attempts| - 1 then a.failure == o.reason
       else Redirected(a.failure) && RedirectsTo(c.peers, a, o.attempts[k + 1].node)
  }

  ghost predicate Chain(c: Config, o: Observation) {
    (forall k | 0 <= k < |o.attempts| :: Link(c, o, k)) && Sum(Values(o.attempts, Elapsed())) <= o.elapsed
  }

  function Elapsed(): Attempt -> int { (a: Attempt) => a.elapsed }

  lemma {:induction false} AttemptTimeIsSum(attempts: seq<Attempt>)
    ensures AttemptTime(attempts) == Sum(Values(attempts, Elapsed()))
  {
    if attempts != [] {
      var init := attempts[..|attempts| - 1];
      AttemptTimeIsSum(init);
      SumLast(Values(attempts, Elapsed()));
      assert Values(attempts, Elapsed())[..|init|] == Values(init, Elapsed());
    }
  }

  lemma FollowingExact(peers: seq<nat>, a: Attempt, next: int)
    requires (forall j, k | 0 <= j < k < |peers| :: peers[j] != peers[k]) && a.node in peers && Redirected(a.failure)
    ensures next == Following(peers, a.node, a.failure.value.leader) <==> RedirectsTo(peers, a, next)
  {
    var i, n := IndexOf(peers, a.node), |peers|;
    if i + 1 == n {
      assert n == n * 1 + 0;
      DivModUnique(n, n, 1, 0);
    } else {
      DivModUnique(i + 1, n, 0, i + 1);
    }
    assert peers[(i + 1) % n] == PeerAfter(peers, i) && peers[i] == a.node;
    forall j: nat | j < n && peers[j] == a.node ensures j == i {}
    assert NextPeer(peers, a.node, next) <==> next == PeerAfter(peers, i);
  }

  lemma AttemptExact(c: Config, o: Observation, k: nat)
    requires Legal(c) && k < |o.attempts|
    ensures AttemptFits(c, o, k) <==> Link(c, o, k)
  {
    var a := o.attempts[k];
    PopulationMeans(a.failure);
    if k < |o.attempts| - 1 && a.node in c.peers && Redirected(a.failure) {
      FollowingExact(c.peers, a, o.attempts[k + 1].node);
    }
  }

  lemma ChainExact(c: Config, o: Observation)
    requires Legal(c)
    ensures AttemptsFit(c, o) <==> Chain(c, o)
  {
    AttemptTimeIsSum(o.attempts);
    forall k: nat | k < |o.attempts| ensures AttemptFits(c, o, k) <==> Link(c, o, k) { AttemptExact(c, o, k); }
  }

  // ----- terminals

  function StageEnd(r: Run, p: Phase): int {
    if p == Initialization then r.setup.end else if p == Verify then r.verification.end else r.measurement.end
  }

  /** How a call stops: rejected by the client, out of attempts or time while redirected, out of time before
      any attempt, or with whatever else its last attempt met. */
  ghost predicate Stops(c: Config, o: Observation) {
    && (o.stop == ClientRejected <==> o.attempts == [] && ByClient(o.reason))
    && (o.stop == Terminal <==> o.attempts != [] && !Redirected(o.reason))
    && (o.stop == AttemptLimit ==> o.attempts != [] && |o.attempts| == c.maxAttempts)
    && (o.stop == DeadlineStop || o.reason == Some(Deadline) ==> o.elapsed >= c.deadlineMs * 1_000_000)
  }

  /** What a recorded terminal says of its call: success without a reason, refusal when no attempt was made
      or a server refused the last one, and otherwise an unknown outcome. */
  ghost predicate Concludes(o: Observation, write: bool, outcome: Outcome) {
    && Sound(o.reason) && (ByClient(o.reason) ==> o.attempts == [])
    && (o.attempts == [] ==> ByClient(o.reason) || o.reason == Some(Deadline))
    && (write ==> o.reason != Some(ReadQuorum) && o.reason != Some(ReadApply))
    && (outcome == Ok <==> o.reason == None)
    && (outcome == Refused <==> o.attempts == [] || ByServer(o.reason))
    && (o.receipt.Some? <==> outcome == Ok && write)
    && (o.receipt.Some? ==> 1 <= o.receipt.value.0 < M && 1 <= o.receipt.value.1 < M)
  }

  /** A terminal that may end a call. */
  ghost predicate Ends(r: Run, call: Record, e: Record)
    requires call.Invoke? && e.Return?
  {
    var o := e.observation;
    && e.time <= StageEnd(r, call.phase) && !o.malformed
    && 0 <= o.elapsed <= e.time - call.time && |o.attempts| <= r.c.maxAttempts
    && Concludes(o, !IsRead(call.call), e.outcome) && Stops(r.c, o) && Chain(r.c, o)
  }

  lemma ReturnFitsExact(r: Run, call: Record, e: Record)
    requires Legal(r.c) && call.Invoke? && e.Return?
    ensures ReturnFits(r, call, e) <==> Ends(r, call, e)
  {
    PopulationMeans(e.observation.reason);
    ChainExact(r.c, e.observation);
  }
}
