/**
 Real-time linearizability of the atomic operations: one total order of effects, each inside its
 operation's interval, in which every confirmed reply is what a sequential store would answer.
 */
module Linearizability {
  import opened Wrappers
  import opened Histories
  import opened Certificates
  import opened HistorySpec

  /** Histories without the multi-step range deletion. */
  ghost predicate AtomicOnly(h: History) {
    forall i | 0 <= i < |h.ops| :: !h.ops[i].call.DeleteRange?
  }

  /** Whether the operation may take a place in the sequential order. */
  predicate CanTakeEffect(op: Operation) {
    op.outcome == Ok || (op.outcome == Unknown && !IsRead(op.call))
  }

  /** A confirmed operation that returned before the other was invoked. */
  predicate Precedes(a: Operation, b: Operation) {
    a.outcome == Ok && a.response.Some? && a.response.value < b.invocation
  }

  /** `order` is a sequential run through `states` that respects real time. */
  ghost predicate Linearizes(h: History, order: seq<nat>, states: seq<State>)
    requires WellFormed(h)
  {
    && |states| == |order| + 1 && states[0] == h.initial
    && (forall k | 0 <= k < |order| :: order[k] < |h.ops| && CanTakeEffect(h.ops[order[k]])
          && SpecEffect(h, order[k], states[k], None, states[k + 1], Done))
    && (forall j, k | 0 <= j < k < |order| :: order[j] != order[k] && !Precedes(h.ops[order[k]], h.ops[order[j]]))
  }

  ghost predicate Linearizable(h: History)
    requires WellFormed(h)
  {
    exists order: seq<nat>, states: seq<State> ::
      Linearizes(h, order, states) && forall i: nat | i < |h.ops| && h.ops[i].outcome == Ok :: i in order
  }

  // ----- an execution yields an order

  /** The order of the effects so far. */
  ghost predicate OrderOf(h: History, c: Config, order: seq<nat>, states: seq<State>)
    requires WellFormed(h)
  {
    && Linearizes(h, order, states) && states[|order|] == c.state && Settled(h, c)
    && (forall i | i in c.progress :: c.progress[i] == Done)
    && (forall i: nat | i < |h.ops| && CanTakeEffect(h.ops[i]) :: i in order <==> i in c.progress)
    && (forall i | i in order :: h.ops[i].invocation < c.cursor)
  }

  lemma ObserveOrder(h: History, c: Config, c': Config, order: seq<nat>, states: seq<State>)
    requires WellFormed(h) && OrderOf(h, c, order, states) && Observes(h, c, c')
    ensures OrderOf(h, c', order, states)
  {
    ObservesExact(h, c, c');
  }

  lemma NotReturned(h: History, c: Config, i: nat)
    requires WellFormed(h) && AtomicOnly(h) && Settled(h, c) && i < |h.ops| && i !in c.progress
    ensures h.ops[i].outcome == Ok ==> h.ops[i].response.Some? && c.cursor <= h.ops[i].response.value < |h.events|
  {
    assert OperationFits(h, i);
  }

  lemma AffectSettled(h: History, c: Config, i: nat, c': Config)
    requires WellFormed(h) && AtomicOnly(h) && Settled(h, c) && Affects(h, c, i, c') && i !in c.progress
    ensures Settled(h, c') && c'.progress[i] == Done
  {
    forall k | 0 <= k < c.cursor && h.events[k].Ret? ensures BarrierMet(h, c'.progress, k) {
      assert BarrierMet(h, c.progress, k);
    }
  }

  lemma AppendOrder(h: History, c: Config, i: nat, c': Config, order: seq<nat>, states: seq<State>)
    requires WellFormed(h) && AtomicOnly(h) && OrderOf(h, c, order, states) && Affects(h, c, i, c')
    requires CanTakeEffect(h.ops[i]) && i !in c.progress && c'.progress[i] == Done
    ensures Linearizes(h, order + [i], states + [c'.state])
  {
    NotReturned(h, c, i);
    assert i !in order;
    forall j | 0 <= j < |order| ensures !Precedes(h.ops[i], h.ops[order[j]]) {
      assert order[j] in order;
    }
  }

  lemma AffectOrder(h: History, c: Config, i: nat, c': Config, order: seq<nat>, states: seq<State>)
    returns (order': seq<nat>, states': seq<State>)
    requires WellFormed(h) && AtomicOnly(h) && OrderOf(h, c, order, states) && Affects(h, c, i, c')
    ensures OrderOf(h, c', order', states')
  {
    assert i !in c.progress;
    AffectSettled(h, c, i, c');
    order', states' := order, states;
    if CanTakeEffect(h.ops[i]) {
      AppendOrder(h, c, i, c', order, states);
      order', states' := order + [i], states + [c'.state];
    }
  }

  lemma {:induction false} ExecutionOrder(h: History, cs: seq<Config>) returns (order: seq<nat>, states: seq<State>)
    requires WellFormed(h) && AtomicOnly(h) && Execution(h, cs)
    ensures OrderOf(h, cs[|cs| - 1], order, states)
    decreases |cs|
  {
    if |cs| == 1 {
      return [], [h.initial];
    }
    order, states := ExecutionOrder(h, cs[..|cs| - 1]);
    var c, c' := cs[|cs| - 2], cs[|cs| - 1];
    assert Steps(h, cs[|cs| - 2], cs[|cs| - 2 + 1]);
    if Observes(h, c, c') {
      ObserveOrder(h, c, c', order, states);
    } else {
      var i :| Affects(h, c, i, c');
      order, states := AffectOrder(h, c, i, c', order, states);
    }
  }

  // ----- an order yields an execution

  /** An execution that has observed the events before `cursor` and performed `order[..m]`. */
  ghost predicate Reached(h: History, cs: seq<Config>, order: seq<nat>, states: seq<State>, m: nat)
    requires WellFormed(h)
  {
    && Execution(h, cs) && Linearizes(h, order, states) && m <= |order| &&
    var c := cs[|cs| - 1];
    && c.state == states[m] && c.cursor <= |h.events|
    && (forall i | i in c.progress :: c.progress[i] == Done)
    && (forall i: nat | i < |h.ops| && CanTakeEffect(h.ops[i]) :: i in order[..m] <==> i in c.progress)
  }

  /** Performs effects up to and including the one of operation `order[n]`. */
  lemma {:induction false} PerformTo(h: History, cs: seq<Config>, order: seq<nat>, states: seq<State>, m: nat, n: nat)
    returns (cs': seq<Config>)
    requires WellFormed(h) && Reached(h, cs, order, states, m) && m <= n < |order|
    requires forall k | m <= k <= n :: h.ops[order[k]].invocation < cs[|cs| - 1].cursor
    ensures Reached(h, cs', order, states, n + 1) && cs'[|cs'| - 1].cursor == cs[|cs| - 1].cursor
    decreases n - m
  {
    var c := cs[|cs| - 1];
    var i := order[m];
    assert i !in order[..m];
    var next := Config(states[m + 1], c.progress[i := Done], c.cursor);
    assert Affects(h, c, i, next);
    cs' := cs + [next];
    assert order[..m + 1] == order[..m] + [i];
    if m < n {
      cs' := PerformTo(h, cs', order, states, m + 1, n);
    }
  }

  /** Everything ordered up to an operation about to return has been invoked. */
  lemma InvokedBefore(h: History, order: seq<nat>, states: seq<State>, n: nat, k: nat)
    requires WellFormed(h) && Linearizes(h, order, states) && k <= n < |order|
    requires h.ops[order[n]].outcome == Ok && h.ops[order[n]].response.Some?
    ensures h.ops[order[k]].invocation < h.ops[order[n]].response.value
  {
    assert OperationFits(h, order[n]) && OperationFits(h, order[k]);
    assert k < n ==> !Precedes(h.ops[order[n]], h.ops[order[k]]);
  }

  lemma JustifyConfirmed(h: History, cs: seq<Config>, order: seq<nat>, states: seq<State>, m: nat, n: nat)
    returns (cs': seq<Config>)
    requires WellFormed(h) && Reached(h, cs, order, states, m) && m <= n < |order|
    requires h.ops[order[n]].outcome == Ok && h.ops[order[n]].response == Some(cs[|cs| - 1].cursor)
    ensures Reached(h, cs', order, states, n + 1) && cs'[|cs'| - 1].cursor == cs[|cs| - 1].cursor
  {
    forall k | m <= k <= n ensures h.ops[order[k]].invocation < cs[|cs| - 1].cursor {
      InvokedBefore(h, order, states, n, k);
    }
    cs' := PerformTo(h, cs, order, states, m, n);
  }

  lemma JustifyRefused(h: History, cs: seq<Config>, order: seq<nat>, states: seq<State>, m: nat, i: nat)
    returns (cs': seq<Config>)
    requires WellFormed(h) && AtomicOnly(h) && Reached(h, cs, order, states, m)
    requires i < |h.ops| && h.ops[i].response == Some(cs[|cs| - 1].cursor)
    requires i !in cs[|cs| - 1].progress && h.ops[i].outcome == Refused
    ensures Reached(h, cs', order, states, m)
    ensures cs'[|cs'| - 1].cursor == cs[|cs| - 1].cursor && cs'[|cs'| - 1].progress == cs[|cs| - 1].progress[i := Done]
  {
    var c := cs[|cs| - 1];
    var next := Config(c.state, c.progress[i := Done], c.cursor);
    assert OperationFits(h, i) && Affects(h, c, i, next);
    cs' := cs + [next];
  }

  /** Makes the response at the next position justified. */
  lemma Justify(h: History, cs: seq<Config>, order: seq<nat>, states: seq<State>, m: nat, i: nat)
    returns (cs': seq<Config>, m': nat)
    requires WellFormed(h) && AtomicOnly(h) && Reached(h, cs, order, states, m)
    requires i < |h.ops| && h.ops[i].response == Some(cs[|cs| - 1].cursor)
    requires h.ops[i].outcome == Ok ==> i in order
    ensures Reached(h, cs', order, states, m')
    ensures cs'[|cs'| - 1].cursor == cs[|cs| - 1].cursor
    ensures Satisfied(h, i, ProgressOf(cs'[|cs'| - 1].progress, i))
  {
    var c := cs[|cs| - 1];
    cs', m' := cs, m;
    if i !in c.progress && h.ops[i].outcome == Refused {
      cs' := JustifyRefused(h, cs, order, states, m, i);
    } else if i !in c.progress && h.ops[i].outcome == Ok {
      var n :| 0 <= n < |order| && order[n] == i;
      cs' := JustifyConfirmed(h, cs, order, states, m, n);
      m' := n + 1;
      assert order[..m'][n] == i;
    }
  }

  lemma {:induction false} OrderExecutes(h: History, cs: seq<Config>, order: seq<nat>, states: seq<State>, m: nat)
    returns (cs': seq<Config>)
    requires WellFormed(h) && AtomicOnly(h) && Reached(h, cs, order, states, m)
    requires forall i: nat | i < |h.ops| && h.ops[i].outcome == Ok :: i in order
    ensures Execution(h, cs') && cs'[|cs'| - 1].cursor == |h.events|
    decreases |h.events| - cs[|cs| - 1].cursor
  {
    cs' := cs;
    if cs[|cs| - 1].cursor < |h.events| {
      var m' := m;
      if h.events[cs[|cs| - 1].cursor].Ret? {
        assert EventFits(h, cs[|cs| - 1].cursor);
        cs', m' := Justify(h, cs, order, states, m, h.events[cs[|cs| - 1].cursor].op);
      }
      var c := cs'[|cs'| - 1];
      var next := c.(cursor := c.cursor + 1);
      ObservesExact(h, c, next);
      cs' := OrderExecutes(h, cs' + [next], order, states, m');
    }
  }

  /** On atomic histories, having a legal execution is the same as being linearizable. */
  lemma ExplainedIffLinearizable(h: History)
    requires WellFormed(h) && AtomicOnly(h)
    ensures Explained(h) <==> Linearizable(h)
  {
    if Explained(h) {
      var cs: seq<Config> :| Execution(h, cs) && cs[|cs| - 1].cursor == |h.events|;
      var order, states := ExecutionOrder(h, cs);
      forall i: nat | i < |h.ops| && h.ops[i].outcome == Ok ensures i in order {
        if i !in cs[|cs| - 1].progress {
          NotReturned(h, cs[|cs| - 1], i);
        }
      }
    }
    if Linearizable(h) {
      var order: seq<nat>, states: seq<State> :|
        Linearizes(h, order, states) && forall i: nat | i < |h.ops| && h.ops[i].outcome == Ok :: i in order;
      var cs := OrderExecutes(h, [Config(h.initial, map[], 0)], order, states, 0);
    }
  }
}
