/**
 Bounded concurrent groups: at most `parallelism` jobs in flight, replacements submitted as jobs
 finish, and nothing submitted once a failed result has been read. Jobs are known by their position.
 */
module Scheduler {
  import opened Wrappers
  import opened Counting

  datatype Outcome<R> = Value(value: R) | Raised

  datatype End = Finished | Failed(job: nat) | Closed | InvalidParallelism

  /** What the scheduler does to the pool and its caller, in order. */
  datatype Step =
    | Submit(job: nat) | Finish(jobs: set<nat>) | Read(job: nat) | Deliver(job: nat) | Cancel(jobs: set<nat>)

  // ----- what a trace says

  /** Jobs submitted and neither finished nor cancelled. */
  ghost function InFlight(trace: seq<Step>): set<nat> {
    if trace == [] then {} else
      var before := InFlight(trace[..|trace| - 1]);
      match trace[|trace| - 1]
      case Submit(job) => before + {job}
      case Finish(jobs) => before - jobs
      case Cancel(jobs) => before - jobs
      case _ => before
  }

  ghost function Submitted(trace: seq<Step>): seq<nat> {
    if trace == [] then [] else
      var before := Submitted(trace[..|trace| - 1]);
      if trace[|trace| - 1].Submit? then before + [trace[|trace| - 1].job] else before
  }

  ghost function Delivered(trace: seq<Step>): seq<nat> {
    if trace == [] then [] else
      var before := Delivered(trace[..|trace| - 1]);
      if trace[|trace| - 1].Deliver? then before + [trace[|trace| - 1].job] else before
  }

  ghost predicate AlwaysWithin(trace: seq<Step>, parallelism: int) {
    forall n | 0 <= n <= |trace| :: |InFlight(trace[..n])| <= parallelism
  }

  /** No failed result has been read before position `n`. */
  ghost predicate Unfailed<R>(trace: seq<Step>, work: seq<Outcome<R>>, n: nat) {
    forall k | 0 <= k < n && k < |trace| && trace[k].Read? :: trace[k].job < |work| && work[trace[k].job].Value?
  }

  /** Submission and delivery happen only while every result read is a success. */
  ghost predicate StopsOnFailure<R>(trace: seq<Step>, work: seq<Outcome<R>>) {
    forall n: nat | n < |trace| && (trace[n].Submit? || trace[n].Deliver?) :: Unfailed(trace, work, n)
  }

  /** Jobs `0, 1, ..., n-1`. */
  ghost function InOrder(n: nat): (s: seq<nat>)
    ensures |s| == n && forall k | 0 <= k < n :: s[k] == k
  {
    seq(n, k => k)
  }

  /** The scheduler waits only with a full pool or nothing left to submit. */
  ghost predicate KeepsBusy(trace: seq<Step>, jobs: nat, parallelism: int) {
    forall n | 0 <= n < |trace| && trace[n].Finish? ::
      |InFlight(trace[..n])| == parallelism || |Submitted(trace[..n])| == jobs
  }

  /** The result of `job` was read after position `m`. */
  ghost predicate ReadSince(trace: seq<Step>, m: nat, job: nat) {
    exists k :: m < k < |trace| && trace[k] == Read(job)
  }

  ghost predicate DeliveredSince(trace: seq<Step>, m: nat, job: nat) {
    exists k :: m < k < |trace| && trace[k] == Deliver(job)
  }

  /** Every job that finished had its result read afterwards. */
  ghost predicate AllRead(trace: seq<Step>) {
    forall m: nat, job | m < |trace| && trace[m].Finish? && job in trace[m].jobs :: ReadSince(trace, m, job)
  }

  /** Every result that was read was delivered afterwards. */
  ghost predicate AllDelivered(trace: seq<Step>) {
    forall m: nat | m < |trace| && trace[m].Read? :: DeliveredSince(trace, m, trace[m].job)
  }

  ghost predicate HasFinished(trace: seq<Step>, job: nat) {
    exists m :: 0 <= m < |trace| && trace[m].Finish? && job in trace[m].jobs
  }

  ghost predicate HasRead(trace: seq<Step>, job: nat) {
    exists m :: 0 <= m < |trace| && trace[m] == Read(job)
  }

  /** Whether a step keeps the order of a round: jobs finish from the pool, finished results are read, read
      ones are delivered once all are read, and nothing is submitted or awaited before all are delivered. */
  ghost predicate InTurn(trace: seq<Step>, step: Step) {
    match step
    case Submit(_) => AllRead(trace) && AllDelivered(trace)
    case Finish(jobs) => jobs != {} && jobs <= InFlight(trace) && AllRead(trace) && AllDelivered(trace)
    case Read(job) => HasFinished(trace, job) && !HasRead(trace, job)
    case Deliver(job) => HasRead(trace, job) && AllRead(trace)
    case Cancel(jobs) => jobs == InFlight(trace)
  }

  ghost predicate Disciplined(trace: seq<Step>) {
    forall n: nat | n < |trace| :: InTurn(trace[..n], trace[n])
  }

  /** What every run's trace satisfies, however it ends. */
  ghost predicate Sound<R>(
    trace: seq<Step>, work: seq<Outcome<R>>, parallelism: int, submitted: nat, delivered: seq<nat>)
  {
    && Submitted(trace) == InOrder(submitted) && Delivered(trace) == delivered && Disciplined(trace)
    && AlwaysWithin(trace, parallelism) && KeepsBusy(trace, |work|, parallelism) && StopsOnFailure(trace, work)
  }

  // ----- the pool as a state machine

  /** `unread` jobs have finished; `ready` ones were read and wait to be delivered. */
  datatype Pool = Pool(
    next: nat, pending: set<nat>, delivered: seq<nat>, failed: bool, unread: set<nat>, ready: set<nat>)

  ghost function After<R>(work: seq<Outcome<R>>, parallelism: int, q: Pool, step: Step): Option<Pool> {
    match step
    case Submit(job) =>
      if job == q.next && !q.failed && q.unread == {} && q.ready == {} && |q.pending + {job}| <= parallelism
      then Some(q.(next := q.next + 1, pending := q.pending + {job})) else None
    case Finish(jobs) =>
      if && jobs != {} && jobs <= q.pending && q.unread == {} && q.ready == {}
         && (|q.pending| == parallelism || q.next == |work|)
      then Some(q.(pending := q.pending - jobs, unread := jobs)) else None
    case Read(job) =>
      if job in q.unread && job < |work|
      then Some(q.(failed := q.failed || work[job].Raised?, unread := q.unread - {job}, ready := q.ready + {job}))
      else None
    case Deliver(job) =>
      if job in q.ready && !q.failed && q.unread == {}
      then Some(q.(delivered := q.delivered + [job], ready := q.ready - {job})) else None
    case Cancel(jobs) => if jobs == q.pending then Some(q.(pending := {})) else None
  }

  const IDLE := Pool(0, {}, [], false, {}, {})

  ghost function Runs<R>(work: seq<Outcome<R>>, parallelism: int, trace: seq<Step>): Option<Pool> {
    if trace == [] then Some(IDLE)
    else match Runs(work, parallelism, trace[..|trace| - 1])
      case None => None
      case Some(q) => After(work, parallelism, q, trace[|trace| - 1])
  }

  lemma RunsOn<R>(work: seq<Outcome<R>>, parallelism: int, trace: seq<Step>, step: Step)
    requires Runs(work, parallelism, trace).Some?
    ensures Runs(work, parallelism, trace + [step])
            == After(work, parallelism, Runs(work, parallelism, trace).value, step)
  {
    assert (trace + [step])[..|trace|] == trace;
  }

  // ----- extending a trace

  lemma Extend(trace: seq<Step>, step: Step)
    ensures (trace + [step])[..|trace|] == trace
    ensures forall n | 0 <= n <= |trace| :: (trace + [step])[..n] == trace[..n]
    ensures (trace + [step])[..|trace| + 1] == trace + [step]
  {
  }

  lemma ExtendWithin(trace: seq<Step>, step: Step, parallelism: int)
    requires AlwaysWithin(trace, parallelism) && |InFlight(trace + [step])| <= parallelism
    ensures AlwaysWithin(trace + [step], parallelism)
  {
    Extend(trace, step);
  }

  lemma ExtendBusy(trace: seq<Step>, step: Step, jobs: nat, parallelism: int)
    requires KeepsBusy(trace, jobs, parallelism)
    requires step.Finish? ==> |InFlight(trace)| == parallelism || |Submitted(trace)| == jobs
    ensures KeepsBusy(trace + [step], jobs, parallelism)
  {
    Extend(trace, step);
  }

  lemma ExtendStops<R>(trace: seq<Step>, step: Step, work: seq<Outcome<R>>)
    requires StopsOnFailure(trace, work) && (step.Submit? || step.Deliver? ==> Unfailed(trace, work, |trace|))
    ensures StopsOnFailure(trace + [step], work)
  {
    var all := trace + [step];
    forall n: nat | n < |all| && (all[n].Submit? || all[n].Deliver?) ensures Unfailed(all, work, n) {
      assert Unfailed(trace, work, n);
    }
  }

  lemma InFlightNext<R>(trace: seq<Step>, step: Step, work: seq<Outcome<R>>, parallelism: int, q: Pool, t: Pool)
    requires InFlight(trace) == q.pending && |q.pending| <= parallelism && After(work, parallelism, q, step) == Some(t)
    ensures InFlight(trace + [step]) == t.pending && |t.pending| <= parallelism
  {
    Extend(trace, step);
    if !step.Submit? { SubsetSize(t.pending, q.pending); }
  }

  lemma ListsNext<R>(trace: seq<Step>, step: Step, work: seq<Outcome<R>>, parallelism: int, q: Pool, t: Pool)
    requires Submitted(trace) == InOrder(q.next) && Delivered(trace) == q.delivered
             && After(work, parallelism, q, step) == Some(t)
    ensures Submitted(trace + [step]) == InOrder(t.next) && Delivered(trace + [step]) == t.delivered
  {
    Extend(trace, step);
  }

  lemma UnfailedNext<R>(trace: seq<Step>, step: Step, work: seq<Outcome<R>>, parallelism: int, q: Pool, t: Pool)
    requires (!q.failed ==> Unfailed(trace, work, |trace|)) && After(work, parallelism, q, step) == Some(t)
    ensures !t.failed ==> Unfailed(trace + [step], work, |trace + [step]|)
  {
  }

  // ----- what the machine's sets say about the trace

  /** Finished jobs are unread or were read since; read ones are ready or were delivered since. */
  ghost predicate Follows(trace: seq<Step>, unread: set<nat>, ready: set<nat>) {
    && (forall m: nat, job | m < |trace| && trace[m].Finish? && job in trace[m].jobs && job !in unread ::
          ReadSince(trace, m, job))
    && (forall m: nat | m < |trace| && trace[m].Read? && trace[m].job !in ready ::
          DeliveredSince(trace, m, trace[m].job))
  }

  ghost predicate Happened(trace: seq<Step>, unread: set<nat>, ready: set<nat>) {
    (forall job | job in unread :: HasFinished(trace, job)) && (forall job | job in ready :: HasRead(trace, job))
  }

  /** Nothing read is pending or unread, and every job known was submitted. */
  ghost predicate Apart(trace: seq<Step>, q: Pool) {
    && (forall job: nat | HasRead(trace, job) :: job < q.next && job !in q.pending && job !in q.unread)
    && (forall job | job in q.pending || job in q.unread :: job < q.next) && q.pending !! q.unread
  }

  lemma SinceNext(trace: seq<Step>, step: Step, m: nat, job: nat)
    requires m < |trace|
    ensures ReadSince(trace, m, job) || step == Read(job) ==> ReadSince(trace + [step], m, job)
    ensures DeliveredSince(trace, m, job) || step == Deliver(job) ==> DeliveredSince(trace + [step], m, job)
  {
    var all := trace + [step];
    assert all[|trace|] == step;
    if k :| m < k < |trace| && trace[k] == Read(job) { assert all[k] == Read(job); }
    if k :| m < k < |trace| && trace[k] == Deliver(job) { assert all[k] == Deliver(job); }
  }

  lemma HasNext(trace: seq<Step>, step: Step, job: nat)
    ensures HasFinished(trace + [step], job) <==> HasFinished(trace, job) || (step.Finish? && job in step.jobs)
    ensures HasRead(trace + [step], job) <==> HasRead(trace, job) || step == Read(job)
  {
    var all := trace + [step];
    assert all[|trace|] == step;
    if m :| 0 <= m < |trace| && trace[m].Finish? && job in trace[m].jobs { assert all[m] == trace[m]; }
    if m :| 0 <= m < |trace| && trace[m] == Read(job) { assert all[m] == trace[m]; }
  }

  lemma FollowsNext<R>(trace: seq<Step>, step: Step, work: seq<Outcome<R>>, parallelism: int, q: Pool, t: Pool)
    requires Follows(trace, q.unread, q.ready) && After(work, parallelism, q, step) == Some(t)
    ensures Follows(trace + [step], t.unread, t.ready)
  {
    var all := trace + [step];
    forall m: nat, job | m < |all| && all[m].Finish? && job in all[m].jobs && job !in t.unread
      ensures ReadSince(all, m, job)
    {
      if m < |trace| { SinceNext(trace, step, m, job); }
    }
    forall m: nat | m < |all| && all[m].Read? && all[m].job !in t.ready ensures DeliveredSince(all, m, all[m].job) {
      if m < |trace| { SinceNext(trace, step, m, trace[m].job); }
    }
  }

  lemma HappenedNext<R>(trace: seq<Step>, step: Step, work: seq<Outcome<R>>, parallelism: int, q: Pool, t: Pool)
    requires Happened(trace, q.unread, q.ready) && After(work, parallelism, q, step) == Some(t)
    ensures Happened(trace + [step], t.unread, t.ready)
  {
    forall job | job in t.unread ensures HasFinished(trace + [step], job) { HasNext(trace, step, job); }
    forall job | job in t.ready ensures HasRead(trace + [step], job) { HasNext(trace, step, job); }
  }

  lemma ApartNext<R>(trace: seq<Step>, step: Step, work: seq<Outcome<R>>, parallelism: int, q: Pool, t: Pool)
    requires Apart(trace, q) && After(work, parallelism, q, step) == Some(t)
    ensures Apart(trace + [step], t)
  {
    forall job: nat | HasRead(trace + [step], job) ensures job < t.next && job !in t.pending && job !in t.unread {
      HasNext(trace, step, job);
    }
  }

  /** The guards of the machine keep the order of the round. */
  lemma StepInTurn<R>(trace: seq<Step>, step: Step, work: seq<Outcome<R>>, parallelism: int, q: Pool)
    requires After(work, parallelism, q, step).Some? && InFlight(trace) == q.pending
    requires Follows(trace, q.unread, q.ready) && Happened(trace, q.unread, q.ready) && Apart(trace, q)
    ensures InTurn(trace, step)
  {
  }

  lemma ExtendDisciplined(trace: seq<Step>, step: Step)
    requires Disciplined(trace) && InTurn(trace, step)
    ensures Disciplined(trace + [step])
  {
    Extend(trace, step);
    forall n: nat | n < |trace + [step]| ensures InTurn((trace + [step])[..n], (trace + [step])[n]) {
      if n < |trace| { assert InTurn(trace[..n], trace[n]); }
    }
  }

  /** The promises so far, and the machine's state is what the trace says. */
  ghost predicate Kept<R>(work: seq<Outcome<R>>, parallelism: int, trace: seq<Step>, q: Pool) {
    && Sound(trace, work, parallelism, q.next, q.delivered) && InFlight(trace) == q.pending
    && |q.pending| <= parallelism
    && (!q.failed ==> Unfailed(trace, work, |trace|))
    && Follows(trace, q.unread, q.ready) && Happened(trace, q.unread, q.ready) && Apart(trace, q)
  }

  lemma KeptNext<R>(work: seq<Outcome<R>>, parallelism: int, trace: seq<Step>, q: Pool, step: Step, t: Pool)
    requires Kept(work, parallelism, trace, q) && After(work, parallelism, q, step) == Some(t)
    ensures Kept(work, parallelism, trace + [step], t)
  {
    InFlightNext(trace, step, work, parallelism, q, t);
    ListsNext(trace, step, work, parallelism, q, t);
    UnfailedNext(trace, step, work, parallelism, q, t);
    FollowsNext(trace, step, work, parallelism, q, t);
    HappenedNext(trace, step, work, parallelism, q, t);
    ApartNext(trace, step, work, parallelism, q, t);
    StepInTurn(trace, step, work, parallelism, q);
    ExtendDisciplined(trace, step);
    ExtendWithin(trace, step, parallelism);
    ExtendBusy(trace, step, |work|, parallelism);
    ExtendStops(trace, step, work);
  }

  /** Every trace the state machine admits keeps the promises. */
  lemma {:induction false} RunsSound<R>(work: seq<Outcome<R>>, parallelism: int, trace: seq<Step>)
    requires parallelism >= 0 && Runs(work, parallelism, trace).Some?
    ensures Kept(work, parallelism, trace, Runs(work, parallelism, trace).value)
  {
    if trace == [] {
      assert trace[..0] == trace;
    } else {
      var init, step := trace[..|trace| - 1], trace[|trace| - 1];
      assert init + [step] == trace;
      RunsSound(work, parallelism, init);
      KeptNext(work, parallelism, init, Runs(work, parallelism, init).value, step,
        Runs(work, parallelism, trace).value);
    }
  }

  // ----- the scheduler

  /** Some of the pending jobs have finished, at least one. */
  method Wait(pending: set<nat>) returns (finished: set<nat>, rest: set<nat>)
    requires pending != {}
    ensures finished != {} && finished !! rest && finished + rest == pending
  {
    var first :| first in pending;
    finished, rest := {first}, {};
    var left := pending - {first};
    while left != {}
      invariant finished != {} && finished !! rest && finished !! left && rest !! left
                && finished + rest + left == pending
      decreases left
    {
      var job :| job in left;
      var done := *;
      left := left - {job};
      if done { finished := finished + {job}; } else { rest := rest + {job}; }
    }
  }

  lemma ReadOne<R>(work: seq<Outcome<R>>, parallelism: int, trace: seq<Step>, q: Pool, job: nat)
    requires Runs(work, parallelism, trace) == Some(q) && job in q.unread && job < |work|
    ensures Runs(work, parallelism, trace + [Read(job)]) ==
            Some(q.(failed := q.failed || work[job].Raised?, unread := q.unread - {job}, ready := q.ready + {job}))
  {
    RunsOn(work, parallelism, trace, Read(job));
  }

  /** Reads every finished result before anything else happens; stops at the first failure. */
  method ReadAll<R>(work: seq<Outcome<R>>, parallelism: int, finished: set<nat>, ghost q: Pool, ghost before: seq<Step>)
    returns (order: seq<nat>, failed: Option<nat>, ghost trace: seq<Step>, ghost t: Pool)
    requires Runs(work, parallelism, before) == Some(q) && !q.failed && q.unread == finished && q.ready == {}
    requires forall job | job in finished :: job < |work|
    ensures Runs(work, parallelism, trace) == Some(t) && t.next == q.next && t.pending == q.pending
            && t.delivered == q.delivered
    ensures failed.Some? ==> failed.value in finished && work[failed.value].Raised?
    ensures failed.None? ==> t == q.(unread := {}, ready := finished)
    ensures failed.None? ==> multiset(order) == multiset(finished) && forall job | job in finished :: work[job].Value?
  {
    order, failed, trace := [], None, before;
    var left := finished;
    t := q;
    while left != {}
      invariant left <= finished && (forall job | job in finished - left :: work[job].Value?)
      invariant multiset(order) + multiset(left) == multiset(finished)
      invariant t == q.(unread := left, ready := finished - left) && Runs(work, parallelism, trace) == Some(t)
      decreases left
    {
      var job :| job in left;
      ReadOne(work, parallelism, trace, t, job);
      trace := trace + [Read(job)];
      if work[job].Raised? {
        t := t.(failed := true, unread := left - {job}, ready := finished - left + {job});
        failed := Some(job);
        return;
      }
      assert multiset(left) == multiset(left - {job}) + multiset{job};
      assert finished - left + {job} == finished - (left - {job});
      left := left - {job};
      t := t.(unread := left, ready := finished - left);
      order := order + [job];
    }
    assert finished - {} == finished;
  }

  /** The results are those of the delivered jobs, all of which succeeded. */
  ghost predicate Matches<R>(work: seq<Outcome<R>>, delivered: seq<nat>, results: seq<R>) {
    && |results| == |delivered|
    && forall k | 0 <= k < |delivered| :: delivered[k] < |work| && work[delivered[k]] == Value(results[k])
  }

  lemma DeliverOne<R>(work: seq<Outcome<R>>, parallelism: int, trace: seq<Step>, q: Pool, job: nat)
    requires Runs(work, parallelism, trace) == Some(q) && !q.failed && q.unread == {} && job in q.ready
    ensures Runs(work, parallelism, trace + [Deliver(job)]) ==
            Some(q.(delivered := q.delivered + [job], ready := q.ready - {job}))
  {
    RunsOn(work, parallelism, trace, Deliver(job));
  }

  lemma MatchesNext<R>(work: seq<Outcome<R>>, delivered: seq<nat>, results: seq<R>, job: nat)
    requires Matches(work, delivered, results) && job < |work| && work[job].Value?
    ensures Matches(work, delivered + [job], results + [work[job].value])
  {
  }

  lemma PrefixExtends(s: seq<nat>, t: seq<nat>, k: nat)
    requires k < |t|
    ensures s + t[..k] + [t[k]] == s + t[..k + 1]
  {
  }

  /** One job fewer is left to hand over. */
  lemma LeftNext(order: seq<nat>, k: nat, left: set<nat>)
    requires k < |order| && multiset(order[k..]) == multiset(left)
    ensures order[k] in left && multiset(order[k + 1..]) == multiset(left - {order[k]})
  {
    var x: nat, tail: seq<nat> := order[k], order[k + 1..];
    assert order[k..] == [x] + tail;
    assert x in multiset(order[k..]);
    forall y: nat ensures multiset(tail)[y] == multiset(left - {x})[y] {
      assert multiset([x] + tail)[y] == multiset([x])[y] + multiset(tail)[y];
    }
  }

  /** Hands the results over one by one; the caller may stop listening after any of them. */
  method DeliverAll<R>(work: seq<Outcome<R>>, parallelism: int, order: seq<nat>, delivered: seq<nat>, results: seq<R>,
                       ghost q: Pool, ghost before: seq<Step>)
    returns (delivered': seq<nat>, results': seq<R>, closed: bool, ghost trace: seq<Step>, ghost left: set<nat>)
    requires Runs(work, parallelism, before) == Some(q) && !q.failed && q.unread == {}
             && multiset(order) == multiset(q.ready)
    requires q.delivered == delivered && Matches(work, delivered, results)
    requires forall k | 0 <= k < |order| :: order[k] < |work| && work[order[k]].Value?
    ensures Runs(work, parallelism, trace) == Some(q.(delivered := delivered', ready := left))
            && (!closed ==> left == {})
    ensures Matches(work, delivered', results')
    ensures exists n: nat :: n <= |order| && delivered' == delivered + order[..n] && (!closed ==> n == |order|)
  {
    delivered', results', closed, trace, left := delivered, results, false, before, q.ready;
    assert order[0..] == order;
    var k := 0;
    while k < |order| && !closed
      invariant k <= |order| && delivered' == delivered + order[..k] && multiset(order[k..]) == multiset(left)
      invariant Runs(work, parallelism, trace) == Some(q.(delivered := delivered', ready := left))
      invariant Matches(work, delivered', results')
      decreases |order| - k
    {
      var job := order[k];
      LeftNext(order, k, left);
      DeliverOne(work, parallelism, trace, q.(delivered := delivered', ready := left), job);
      MatchesNext(work, delivered', results', job);
      PrefixExtends(delivered, order, k);
      trace, left := trace + [Deliver(job)], left - {job};
      delivered', results' := delivered' + [job], results' + [work[job].value];
      k := k + 1;
      closed := *;
    }
    if k == |order| { NoneLeft(order[k..], left); }
  }

  lemma NoneLeft(s: seq<nat>, left: set<nat>)
    requires s == [] && multiset(s) == multiset(left)
    ensures left == {}
  {
    forall job: nat ensures job !in left { assert multiset(left)[job] == 0; }
  }

  /** The machine between rounds. */
  ghost function Settled(next: nat, pending: set<nat>, delivered: seq<nat>): Pool {
    Pool(next, pending, delivered, false, {}, {})
  }

  lemma SubmitOne<R>(
    work: seq<Outcome<R>>, parallelism: int, trace: seq<Step>, next: nat, pending: set<nat>, delivered: seq<nat>)
    requires Runs(work, parallelism, trace) == Some(Settled(next, pending, delivered))
    requires next !in pending && |pending| < parallelism
    ensures Runs(work, parallelism, trace + [Submit(next)]) == Some(Settled(next + 1, pending + {next}, delivered))
  {
    assert |pending + {next}| == |pending| + 1;
    RunsOn(work, parallelism, trace, Submit(next));
  }

  /** The pool after submitting jobs `next..next'`. */
  ghost predicate Added(pending: set<nat>, next: nat, next': nat, pending': set<nat>) {
    && (forall job: nat :: job in pending' <==> job in pending || next <= job < next')
    && next <= next' && |pending'| == |pending| + (next' - next)
  }

  lemma AddedNext(pending: set<nat>, next: nat, next': nat, pending': set<nat>)
    requires Added(pending, next, next', pending') && forall job | job in pending :: job < next
    ensures next' !in pending' && Added(pending, next, next' + 1, pending' + {next'})
  {
  }

  /** The steps so far, then the submissions of `first..end`. */
  ghost function Submitting(trace: seq<Step>, first: nat, end: nat): seq<Step>
    decreases end - first
  {
    if end <= first then trace else Submitting(trace + [Submit(first)], first + 1, end)
  }

  /** The pool after those submissions. */
  ghost function Grown(pending: set<nat>, first: nat, end: nat): set<nat>
    decreases end - first
  {
    if end <= first then pending else Grown(pending + {first}, first + 1, end)
  }

  lemma {:induction false} GrownAdded(pending: set<nat>, first: nat, end: nat)
    requires first <= end && forall job | job in pending :: job < first
    ensures Added(pending, first, end, Grown(pending, first, end))
    decreases end - first
  {
    if first < end {
      GrownAdded(pending + {first}, first + 1, end);
    }
  }

  lemma AddedIsGrown(pending: set<nat>, first: nat, end: nat, pending': set<nat>)
    requires Added(pending, first, end, pending') && forall job | job in pending :: job < first
    ensures pending' == Grown(pending, first, end)
  {
    GrownAdded(pending, first, end);
  }

  /** Submitting the jobs in order reaches the fuller pool. */
  lemma {:induction false} SubmitRun<R>(
    work: seq<Outcome<R>>, parallelism: int, trace: seq<Step>, next: nat, pending: set<nat>, delivered: seq<nat>,
    end: nat)
    requires Runs(work, parallelism, trace) == Some(Settled(next, pending, delivered)) && next <= end
    requires |pending| + (end - next) <= parallelism && forall job | job in pending :: job < next
    ensures Runs(work, parallelism, Submitting(trace, next, end))
            == Some(Settled(end, Grown(pending, next, end), delivered))
    decreases end - next
  {
    if next < end {
      SubmitOne(work, parallelism, trace, next, pending, delivered);
      assert |pending + {next}| == |pending| + 1;
      SubmitRun(work, parallelism, trace + [Submit(next)], next + 1, pending + {next}, delivered, end);
    }
  }

  /** Submits up to `count` further jobs in order. */
  method SubmitUpTo<R>(work: seq<Outcome<R>>, parallelism: int, count: nat, next: nat, pending: set<nat>,
                       ghost delivered: seq<nat>, ghost before: seq<Step>)
    returns (next': nat, pending': set<nat>, ghost trace: seq<Step>)
    requires Runs(work, parallelism, before) == Some(Settled(next, pending, delivered)) && next <= |work|
    requires |pending| + count <= parallelism && forall job | job in pending :: job < next
    ensures next' == if next + count <= |work| then next + count else |work|
    ensures Added(pending, next, next', pending')
    ensures Runs(work, parallelism, trace) == Some(Settled(next', pending', delivered))
  {
    next', pending' := next, pending;
    while next' < next + count && next' < |work|
      invariant next <= next' <= next + count && next' <= |work|
      invariant Added(pending, next, next', pending')
    {
      AddedNext(pending, next, next', pending');
      pending' := pending' + {next'};
      next' := next' + 1;
    }
    AddedIsGrown(pending, next, next', pending');
    SubmitRun(work, parallelism, before, next, pending, delivered, next');
    trace := Submitting(before, next, next');
  }

  /** How often a job was delivered. */
  ghost function Times(delivered: seq<nat>, job: nat): nat {
    multiset(delivered)[job]
  }

  /** Everything submitted is either pending or delivered once, and nothing else is delivered. */
  ghost predicate Conserved(next: nat, pending: set<nat>, delivered: seq<nat>) {
    && (forall job | job in pending :: job < next)
    && forall job: nat :: Times(delivered, job) == if job < next && job !in pending then 1 else 0
  }

  lemma ConservedRead(next: nat, finished: set<nat>, rest: set<nat>, delivered: seq<nat>, order: seq<nat>)
    requires Conserved(next, finished + rest, delivered) && finished !! rest && multiset(order) == multiset(finished)
    ensures Conserved(next, rest, delivered + order)
  {
    forall job: nat ensures Times(delivered + order, job) == Times(delivered, job) + if job in finished then 1 else 0 {
      assert multiset(delivered + order) == multiset(delivered) + multiset(order);
    }
  }

  lemma DeliveredPrefix(delivered: seq<nat>, order: seq<nat>, n: nat, job: nat)
    requires n <= |order|
    ensures Times(delivered + order[..n], job) <= Times(delivered + order, job)
  {
    assert order == order[..n] + order[n..];
    assert multiset(delivered + order) == multiset(delivered + order[..n]) + multiset(order[n..]);
  }

  lemma ConservedSubmit(next: nat, next': nat, pending: set<nat>, pending': set<nat>, delivered: seq<nat>)
    requires Conserved(next, pending, delivered) && Added(pending, next, next', pending')
    ensures Conserved(next', pending', delivered)
  {
  }

  ghost predicate AtMostOnce(next: nat, delivered: seq<nat>) {
    forall job: nat :: Times(delivered, job) <= if job < next then 1 else 0
  }

  lemma PrefixAtMostOnce(next: nat, rest: set<nat>, delivered: seq<nat>, order: seq<nat>, n: nat)
    requires Conserved(next, rest, delivered + order) && n <= |order|
    ensures AtMostOnce(next, delivered + order[..n])
  {
    forall job: nat ensures Times(delivered + order[..n], job) <= if job < next then 1 else 0 {
      DeliveredPrefix(delivered, order, n, job);
    }
  }

  /** The machine stopped with nothing pending. */
  ghost predicate Stopped<R>(
    work: seq<Outcome<R>>, parallelism: int, trace: seq<Step>, next: nat, delivered: seq<nat>)
  {
    var q := Runs(work, parallelism, trace);
    q.Some? && q.value.next == next && q.value.pending == {} && q.value.delivered == delivered
  }

  lemma CancelAll<R>(work: seq<Outcome<R>>, parallelism: int, trace: seq<Step>, q: Pool)
    requires Runs(work, parallelism, trace) == Some(q)
    ensures Stopped(work, parallelism, trace + [Cancel(q.pending)], q.next, q.delivered)
  {
    RunsOn(work, parallelism, trace, Cancel(q.pending));
  }

  /** Hands over what was read; if the caller closes the generator, the pending jobs are cancelled. */
  method DeliverOrClose<R>(work: seq<Outcome<R>>, parallelism: int, order: seq<nat>, delivered: seq<nat>,
                           results: seq<R>, next: nat, rest: set<nat>, ghost q: Pool, ghost before: seq<Step>)
    returns (closed: bool, delivered': seq<nat>, results': seq<R>, ghost trace: seq<Step>)
    requires Runs(work, parallelism, before) == Some(q) && q == Settled(next, rest, delivered).(ready := q.ready)
    requires multiset(order) == multiset(q.ready) && Matches(work, delivered, results)
    requires Conserved(next, rest, delivered + order)
    requires forall k | 0 <= k < |order| :: order[k] < |work| && work[order[k]].Value?
    ensures Matches(work, delivered', results') && AtMostOnce(next, delivered')
    ensures closed ==> Stopped(work, parallelism, trace, next, delivered')
    ensures !closed ==>
              && Runs(work, parallelism, trace) == Some(Settled(next, rest, delivered'))
              && Conserved(next, rest, delivered')
  {
    ghost var left;
    delivered', results', closed, trace, left := DeliverAll(work, parallelism, order, delivered, results, q, before);
    ghost var n: nat :| n <= |order| && delivered' == delivered + order[..n] && (!closed ==> n == |order|);
    assert order[..|order|] == order;
    PrefixAtMostOnce(next, rest, delivered, order, n);
    if closed {
      CancelAll(work, parallelism, trace, q.(delivered := delivered', ready := left));
      trace := trace + [Cancel(rest)];
    }
  }

  lemma FinishSome<R>(work: seq<Outcome<R>>, parallelism: int, trace: seq<Step>, q: Pool, finished: set<nat>,
                      rest: set<nat>)
    requires Runs(work, parallelism, trace) == Some(q) && q.unread == {} && q.ready == {} && finished != {}
    requires finished !! rest && finished + rest == q.pending && (|q.pending| == parallelism || q.next == |work|)
    ensures Runs(work, parallelism, trace + [Finish(finished)]) == Some(q.(pending := rest, unread := finished))
  {
    RunsOn(work, parallelism, trace, Finish(finished));
    assert q.pending - finished == rest;
  }

  /** Waits for finished jobs, reads all their results and only then hands them over. */
  method Collect<R>(work: seq<Outcome<R>>, parallelism: int, delivered: seq<nat>, results: seq<R>,
                    next: nat, pending: set<nat>, ghost before: seq<Step>)
    returns (end: End, delivered': seq<nat>, results': seq<R>, rest: set<nat>, ghost trace: seq<Step>)
    requires Runs(work, parallelism, before) == Some(Settled(next, pending, delivered)) && next <= |work|
    requires pending != {} && |pending| <= parallelism && (|pending| < parallelism ==> next == |work|)
    requires Matches(work, delivered, results) && Conserved(next, pending, delivered)
    ensures Sound(trace, work, parallelism, next, delivered')
    ensures Matches(work, delivered', results') && AtMostOnce(next, delivered')
    ensures end.Finished? ==> Runs(work, parallelism, trace) == Some(Settled(next, rest, delivered'))
    ensures end.Finished? ==> rest < pending && Conserved(next, rest, delivered')
    ensures !end.Finished? ==> Stopped(work, parallelism, trace, next, delivered') && !end.InvalidParallelism?
    ensures end.Failed? ==> end.job < next && work[end.job].Raised? && Times(delivered', end.job) == 0
  {
    var finished;
    finished, rest := Wait(pending);
    FinishSome(work, parallelism, before, Settled(next, pending, delivered), finished, rest);
    var order, failed;
    ghost var q;
    order, failed, trace, q :=
      ReadAll(
        work, parallelism, finished, Settled(next, rest, delivered).(unread := finished), before + [Finish(finished)]);
    if failed.Some? {
      CancelAll(work, parallelism, trace, q);
      end, delivered', results', trace := Failed(failed.value), delivered, results, trace + [Cancel(rest)];
      RunsSound(work, parallelism, trace);
      return;
    }
    ConservedRead(next, finished, rest, delivered, order);
    forall k | 0 <= k < |order| ensures order[k] in finished { assert order[k] in multiset(order); }
    var closed;
    closed, delivered', results', trace :=
      DeliverOrClose(work, parallelism, order, delivered, results, next, rest, q, trace);
    end := if closed then Closed else Finished;
    RunsSound(work, parallelism, trace);
  }

  /** Runs every job with at most `parallelism` in flight, delivering results as jobs finish. */
  method BoundedGroups<R>(work: seq<Outcome<R>>, parallelism: int)
    returns (end: End, delivered: seq<nat>, results: seq<R>, ghost trace: seq<Step>, ghost submitted: nat)
    ensures end.InvalidParallelism? <==> parallelism <= 0
    ensures Matches(work, delivered, results) && submitted <= |work| && AtMostOnce(submitted, delivered)
    ensures Sound(trace, work, if parallelism > 0 then parallelism else 0, submitted, delivered)
            && InFlight(trace) == {}
    ensures end.Finished? ==> submitted == |work| && AllRead(trace) && AllDelivered(trace)
    ensures end.Finished? ==> forall job: nat | job < |work| :: Times(delivered, job) == 1
    ensures end.Failed? ==> end.job < submitted && work[end.job].Raised? && Times(delivered, end.job) == 0
  {
    delivered, results, trace, submitted := [], [], [], 0;
    if parallelism <= 0 {
      RunsSound(work, 0, trace);
      end := InvalidParallelism;
      return;
    }
    assert Conserved(0, {}, delivered);
    var next: nat, pending: set<nat>;
    next, pending, trace := SubmitUpTo(work, parallelism, parallelism, 0, {}, [], []);
    ConservedSubmit(0, next, {}, pending, delivered);
    while pending != {}
      invariant Runs(work, parallelism, trace) == Some(Settled(next, pending, delivered)) && next <= |work|
      invariant |pending| <= parallelism && (|pending| < parallelism ==> next == |work|)
      invariant Matches(work, delivered, results) && Conserved(next, pending, delivered)
      decreases |work| - next + |pending|
    {
      var rest;
      end, delivered, results, rest, trace := Collect(work, parallelism, delivered, results, next, pending, trace);
      if !end.Finished? {
        submitted := next;
        RunsSound(work, parallelism, trace);
        return;
      }
      SubsetSize(rest, pending);
      ghost var left := next;
      next, pending, trace :=
        SubmitUpTo(work, parallelism, |pending| - |rest|, next, rest, delivered, trace);
      ConservedSubmit(left, next, rest, pending, delivered);
    }
    submitted, end := next, Finished;
    RunsSound(work, parallelism, trace);
  }
}
