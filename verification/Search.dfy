/**
 The depth-first search for a certificate. Effects are delayed until an observed response needs
 them; responses of confirmed operations retire their progress; visited configurations are
 remembered. Budgets and the wall clock can only make the verdict inconclusive.
 */
module Search {
  import opened Wrappers
  import opened Histories
  import opened Certificates

  datatype Signature = Signature(cursor: nat, state: State, progress: map<nat, Progress>)

  datatype Node = Node(cursor: nat, state: State, progress: map<nat, Progress>, path: seq<Action>, effects: nat)

  datatype Verdict = Valid(certificate: seq<Action>) | Invalid | Inconclusive

  /** How a search attempt is narrowed; only `Budget(None, false)` is unrestricted. */
  datatype Budget = Budget(unknownLimit: Option<nat>, guided: bool)

  predicate Blocked(h: History, progress: map<nat, Progress>, k: nat)
    requires WellFormed(h) && k < |h.events|
  {
    h.events[k].Ret? && !BarrierMet(h, progress, k)
  }

  predicate Retires(h: History, k: nat)
    requires WellFormed(h) && k < |h.events|
  {
    assert EventFits(h, k);
    h.events[k].Ret? && h.ops[h.events[k].op].outcome != Unknown
  }

  /** Past every justified response, with confirmed operations retired on the way. */
  ghost function Advanced(h: History, s: Signature): (r: Signature)
    requires WellFormed(h) && s.cursor <= |h.events|
    ensures s.cursor <= r.cursor <= |h.events|
    decreases |h.events| - s.cursor
  {
    var k := s.cursor;
    if k == |h.events| || Blocked(h, s.progress, k) then s
    else Advanced(h, Signature(k + 1, s.state,
                               if Retires(h, k) then s.progress - {h.events[k].op} else s.progress))
  }

  method Advance(h: History, start: nat, ghost state: State, seen: map<nat, Progress>)
    returns (cursor: nat, progress: map<nat, Progress>)
    requires WellFormed(h) && start <= |h.events|
    ensures Signature(cursor, state, progress) == Advanced(h, Signature(start, state, seen))
  {
    cursor, progress := start, seen;
    while cursor < |h.events| && !Blocked(h, progress, cursor)
      invariant start <= cursor <= |h.events|
      invariant Advanced(h, Signature(start, state, seen)) == Advanced(h, Signature(cursor, state, progress))
      decreases |h.events| - cursor
    {
      if Retires(h, cursor) {
        progress := progress - {h.events[cursor].op};
      }
      cursor := cursor + 1;
    }
  }

  /** Operations already invoked whose effects may still happen before the response at `k`. */
  predicate IsEligible(h: History, k: nat, progress: map<nat, Progress>, i: nat)
    requires i < |h.ops|
  {
    var op := h.ops[i];
    && op.invocation < k
    && (op.outcome == Unknown || op.response == None || op.response.value >= k)
    && !(op.outcome == Unknown && IsRead(op.call))
    && ProgressOf(progress, i) != Some(Done)
  }

  method Eligible(h: History, k: nat, progress: map<nat, Progress>) returns (r: seq<nat>)
    ensures forall i: nat :: i in r <==> i < |h.ops| && IsEligible(h, k, progress, i)
  {
    r := [];
    for i := 0 to |h.ops|
      invariant forall j: nat :: j in r <==> j < i && IsEligible(h, k, progress, j)
    {
      if IsEligible(h, k, progress, i) {
        r := r + [i];
      }
    }
  }

  /** Any order the ranking heuristics may choose. */
  method Ranked(s: seq<nat>) returns (r: seq<nat>)
    ensures multiset(r) == multiset(s)
    ensures forall i :: i in r <==> i in s
  {
    r := [];
    for n := 0 to |s|
      invariant multiset(r) == multiset(s[..n])
    {
      var at :| 0 <= at <= |r|;
      assert r == r[..at] + r[at..];
      assert s[..n + 1] == s[..n] + [s[n]];
      r := r[..at] + [s[n]] + r[at..];
    }
    assert s[..|s|] == s;
    assert forall i :: i in r <==> i in multiset(s);
  }

  // ----- a node's path is a replayable certificate prefix

  /** Whether the search has dropped operation `i`'s progress by the time it reaches `cursor`. */
  ghost predicate Retired(h: History, i: nat, cursor: nat) {
    i < |h.ops| &&
    if h.ops[i].outcome == Unknown then IsRead(h.ops[i].call)
    else h.ops[i].response.Some? && h.ops[i].response.value < cursor
  }

  /** What the search keeps of a replay's progress. */
  ghost function Visible(h: History, progress: map<nat, Progress>, cursor: nat): map<nat, Progress> {
    map i | i in progress && !Retired(h, i, cursor) :: progress[i]
  }

  lemma VisibleStep(h: History, full: map<nat, Progress>, k: nat)
    requires WellFormed(h) && k < |h.events|
    ensures Blocked(h, Visible(h, full, k), k) == Blocked(h, full, k)
    ensures Visible(h, full, k + 1) ==
            if Retires(h, k) then Visible(h, full, k) - {h.events[k].op} else Visible(h, full, k)
  {
    assert EventFits(h, k);
    forall i: nat | i < |h.ops|
      ensures Retired(h, i, k + 1) <==> Retired(h, i, k) || (h.events[k] == Ret(i) && h.ops[i].outcome != Unknown)
    {
      assert OperationFits(h, i);
    }
  }

  lemma VisibleUpdate(h: History, full: map<nat, Progress>, i: nat, p': Progress, k: nat)
    requires i < |h.ops| && !Retired(h, i, k)
    ensures ProgressOf(Visible(h, full, k), i) == ProgressOf(full, i)
    ensures Visible(h, full[i := p'], k) == Visible(h, full, k)[i := p']
  {
  }

  /** Advancing on the visible progress stops exactly where the full progress first fails. */
  lemma {:induction false} AdvancedVisible(h: History, full: map<nat, Progress>, s: Signature)
    requires WellFormed(h) && s.cursor <= |h.events| && s.progress == Visible(h, full, s.cursor)
    ensures var r := Advanced(h, s);
            && r.state == s.state && r.progress == Visible(h, full, r.cursor)
            && BarriersMet(h, full, s.cursor, r.cursor)
            && (r.cursor < |h.events| ==> Blocked(h, full, r.cursor))
    decreases |h.events| - s.cursor
  {
    var k := s.cursor;
    if k < |h.events| {
      VisibleStep(h, full, k);
      if !Blocked(h, full, k) {
        AdvancedVisible(h, full, Signature(k + 1, s.state, Visible(h, full, k + 1)));
      }
    }
  }

  /** The node's path replays to its state; its progress is the visible part of the replay's. */
  ghost predicate Traces(h: History, path: seq<Action>, s: Signature)
    requires WellFormed(h)
  {
    match Replay(h, path)
    case None => false
    case Some(c) =>
      && c.state == s.state && c.cursor <= s.cursor <= |h.events|
      && BarriersMet(h, c.progress, c.cursor, s.cursor)
      && s.progress == Visible(h, c.progress, s.cursor)
  }

  lemma AdvancedTraces(h: History, path: seq<Action>, s: Signature)
    requires WellFormed(h) && Traces(h, path, s)
    ensures Traces(h, path, Advanced(h, s))
    ensures Advanced(h, s).cursor == |h.events| ==> Certified(h, path)
  {
    AdvancedVisible(h, Replay(h, path).value.progress, s);
  }

  lemma ChildTraces(h: History, path: seq<Action>, s: Signature, i: nat, x: Successor)
    requires WellFormed(h) && Traces(h, path, s) && s.cursor < |h.events|
    requires i < |h.ops| && IsEligible(h, s.cursor, s.progress, i)
    requires x in Transitions(h, i, s.state, ProgressOf(s.progress, i))
    ensures Traces(h, path + [Action(i, s.cursor, x.detail)],
                   Signature(s.cursor, x.state, s.progress[i := x.progress]))
  {
    var c := Replay(h, path).value;
    VisibleUpdate(h, c.progress, i, x.progress, s.cursor);
    ReplayNext(h, path, Action(i, s.cursor, x.detail));
    AppliesEffect(h, c, i, x, s.cursor);
  }

  // ----- an exhausted search has covered every certificate

  ghost predicate Covered(h: History, seen: set<Signature>, stack: seq<Node>, s: Signature)
    requires WellFormed(h)
  {
    && s.cursor <= |h.events|
    && (Advanced(h, s) in seen
        || exists n :: n in stack && n.cursor == s.cursor && n.state == s.state && n.progress == s.progress)
  }

  /** Every effect enabled at a visited configuration leads to a covered one. */
  ghost predicate Expanded(h: History, seen: set<Signature>, stack: seq<Node>, s: Signature)
    requires WellFormed(h)
  {
    forall i: nat, x | i < |h.ops| && IsEligible(h, s.cursor, s.progress, i)
                     && x in Transitions(h, i, s.state, ProgressOf(s.progress, i)) ::
      Covered(h, seen, stack, Signature(s.cursor, x.state, s.progress[i := x.progress]))
  }

  ghost predicate Closed(h: History, seen: set<Signature>, stack: seq<Node>)
    requires WellFormed(h)
  {
    && Covered(h, seen, stack, Signature(0, h.initial, map[]))
    && forall s | s in seen :: s.cursor < |h.events| && Expanded(h, seen, stack, s)
  }

  /** A visited configuration standing for a replayed prefix, delayed to the next barrier. */
  ghost predicate Delays(h: History, c: Config, s: Signature)
    requires WellFormed(h)
  {
    && s.state == c.state && c.cursor <= s.cursor < |h.events|
    && s.progress == Visible(h, c.progress, s.cursor)
    && BarriersMet(h, c.progress, c.cursor, s.cursor)
    && Blocked(h, c.progress, s.cursor)
  }

  lemma {:induction false} PrefixCovered(h: History, seen: set<Signature>, w: seq<Action>) returns (s: Signature)
    requires WellFormed(h) && Closed(h, seen, []) && Replay(h, w).Some?
    ensures s in seen && Delays(h, Replay(h, w).value, s)
    decreases |w|
  {
    if w == [] {
      var start := Signature(0, h.initial, map[]);
      AdvancedVisible(h, map[], start);
      return Advanced(h, start);
    }
    var init, a := w[..|w| - 1], w[|w| - 1];
    s := PrefixCovered(h, seen, init);
    var c, c' := Replay(h, init).value, Replay(h, w).value;
    ReplaySettled(h, init);
    var found := Matches(Transitions(h, a.op, c.state, ProgressOf(c.progress, a.op)), a.detail);
    var x := found[0];
    assert x in found;
    s := DelayEffect(h, seen, c, s, a.op, x, a.before);
  }

  /** An operation with an effect left has not had its response passed. */
  lemma StillOpen(h: History, c: Config, i: nat, x: Successor, at: nat)
    requires WellFormed(h) && Settled(h, c) && i < |h.ops|
    requires c.cursor <= at <= |h.events| && BarriersMet(h, c.progress, c.cursor, at)
    requires x in Transitions(h, i, c.state, ProgressOf(c.progress, i))
    ensures h.ops[i].outcome == Unknown || h.ops[i].response == None || h.ops[i].response.value >= at
  {
    if h.ops[i].outcome != Unknown && h.ops[i].response.Some? && h.ops[i].response.value < at {
      assert OperationFits(h, i);
      assert BarrierMet(h, c.progress, h.ops[i].response.value);
      SatisfiedIsFinal(h, i, c.state, ProgressOf(c.progress, i));
    }
  }

  /** One more effect of the replay: the search reaches it at the barrier it was delayed to. */
  lemma DelayEffect(h: History, seen: set<Signature>, c: Config, s: Signature, i: nat, x: Successor, before: nat)
    returns (s': Signature)
    requires WellFormed(h) && Closed(h, seen, []) && s in seen && Delays(h, c, s) && Settled(h, c)
    requires i < |h.ops| && h.ops[i].invocation < before && c.cursor <= before < |h.events|
    requires x in Transitions(h, i, c.state, ProgressOf(c.progress, i))
    requires BarriersMet(h, c.progress, c.cursor, before)
    ensures s' in seen && Delays(h, Config(x.state, c.progress[i := x.progress], before), s')
  {
    assert before <= s.cursor;
    if h.ops[i].outcome == Unknown && IsRead(h.ops[i].call) {
      s' := s;
      DelayUnknownRead(h, c, s, i, x, before);
    } else {
      StillOpen(h, c, i, x, s.cursor);
      VisibleUpdate(h, c.progress, i, x.progress, s.cursor);
      var next := Signature(s.cursor, x.state, s.progress[i := x.progress]);
      assert Expanded(h, seen, [], s) && IsEligible(h, s.cursor, s.progress, i);
      assert Covered(h, seen, [], next);
      s' := Advanced(h, next);
      DelayVisible(h, c, s, i, x, before);
    }
  }

  lemma DelayUnknownRead(h: History, c: Config, s: Signature, i: nat, x: Successor, before: nat)
    requires WellFormed(h) && Delays(h, c, s) && Settled(h, c) && c.cursor <= before <= s.cursor
    requires i < |h.ops| && h.ops[i].outcome == Unknown && IsRead(h.ops[i].call)
    requires x in Transitions(h, i, c.state, ProgressOf(c.progress, i))
    ensures Delays(h, Config(x.state, c.progress[i := x.progress], before), s)
  {
    var full := c.progress[i := x.progress];
    assert Visible(h, full, s.cursor) == Visible(h, c.progress, s.cursor);
    EffectSettled(h, c, i, x, s.cursor);
    assert h.events[s.cursor].op != i by { assert EventFits(h, s.cursor); }
  }

  lemma DelayVisible(h: History, c: Config, s: Signature, i: nat, x: Successor, before: nat)
    requires WellFormed(h) && Delays(h, c, s) && Settled(h, c) && c.cursor <= before <= s.cursor
    requires i < |h.ops| && !Retired(h, i, s.cursor)
    requires x in Transitions(h, i, c.state, ProgressOf(c.progress, i))
    requires Advanced(h, Signature(s.cursor, x.state, s.progress[i := x.progress])).cursor < |h.events|
    ensures Delays(h, Config(x.state, c.progress[i := x.progress], before),
                   Advanced(h, Signature(s.cursor, x.state, s.progress[i := x.progress])))
  {
    var full := c.progress[i := x.progress];
    var next := Signature(s.cursor, x.state, s.progress[i := x.progress]);
    VisibleUpdate(h, c.progress, i, x.progress, s.cursor);
    AdvancedVisible(h, full, next);
    EffectSettled(h, c, i, x, s.cursor);
  }

  /** If everything reachable was visited and no visited configuration is final, no certificate exists. */
  lemma ClosedRefutes(h: History, seen: set<Signature>)
    requires WellFormed(h) && Closed(h, seen, [])
    ensures forall w :: !Certified(h, w)
  {
    forall w ensures !Certified(h, w) {
      if Certified(h, w) {
        var s := PrefixCovered(h, seen, w);
        assert false;
      }
    }
  }

  // ----- the search itself

  predicate Unrestricted(b: Budget) {
    b.unknownLimit == None && !b.guided
  }

  /** An effect enabled at a configuration. */
  datatype Offer = Offer(op: nat, effect: Successor)

  function Tagged(i: nat, xs: seq<Successor>): (r: seq<Offer>)
    ensures forall o :: o in r <==> o.op == i && o.effect in xs
  {
    if xs == [] then [] else [Offer(i, xs[0])] + Tagged(i, xs[1..])
  }

  /** Every enabled effect, operation by operation in the given order. */
  function Offers(h: History, s: Signature, order: seq<nat>): (r: seq<Offer>)
    requires WellFormed(h) && forall m | 0 <= m < |order| :: order[m] < |h.ops|
    ensures forall o | o in r :: o.op in order && o.op < |h.ops|
              && o.effect in Transitions(h, o.op, s.state, ProgressOf(s.progress, o.op))
    ensures forall i, x | i in order && i < |h.ops| && x in Transitions(h, i, s.state, ProgressOf(s.progress, i)) ::
              Offer(i, x) in r
  {
    if order == [] then [] else
      Tagged(order[0], Transitions(h, order[0], s.state, ProgressOf(s.progress, order[0]))) + Offers(h, s, order[1..])
  }

  function Child(h: History, s: Signature, path: seq<Action>, effects: nat, o: Offer): Node
    requires o.op < |h.ops|
  {
    Node(s.cursor, o.effect.state, s.progress[o.op := o.effect.progress],
         path + [Action(o.op, s.cursor, o.effect.detail)], effects + Weight(h, o))
  }

  /** Effects of unknown operations count against the unknown-effect limit. */
  function Weight(h: History, o: Offer): nat
    requires o.op < |h.ops|
  {
    if h.ops[o.op].outcome == Unknown && o.effect.detail != Omit then 1 else 0
  }

  ghost predicate AllTrace(h: History, nodes: seq<Node>)
    requires WellFormed(h)
  {
    forall n | n in nodes :: Traces(h, n.path, Signature(n.cursor, n.state, n.progress))
  }

  /** The child nodes of one configuration. A guided attempt may drop effects of unknown operations;
      a limit drops those beyond it; `room` is what the frontier budget leaves. */
  method Expand(h: History, s: Signature, path: seq<Action>, effects: nat, offers: seq<Offer>, b: Budget, room: int)
    returns (children: seq<Node>, overflow: bool)
    requires forall m | 0 <= m < |offers| :: offers[m].op < |h.ops|
    ensures forall n | n in children :: exists m :: 0 <= m < |offers| && n == Child(h, s, path, effects, offers[m])
    ensures Unrestricted(b) && !overflow ==>
              forall m | 0 <= m < |offers| :: Child(h, s, path, effects, offers[m]) in children
  {
    children, overflow := [], false;
    for k := 0 to |offers|
      invariant forall n | n in children :: exists m :: 0 <= m < k && n == Child(h, s, path, effects, offers[m])
      invariant Unrestricted(b) ==> forall m | 0 <= m < k :: Child(h, s, path, effects, offers[m]) in children
    {
      var o := offers[k];
      var pruned := false;
      if b.guided && Weight(h, o) == 1 {
        pruned := *;
      }
      if !pruned && (b.unknownLimit == None || effects + Weight(h, o) <= b.unknownLimit.value) {
        children := children + [Child(h, s, path, effects, o)];
        if |children| >= room {
          return children, true;
        }
      }
    }
  }

  /** The node popped last is now visited as `s`; the rest of the stack is still there. */
  ghost predicate Popped(h: History, stack: seq<Node>, s: Signature, stack': seq<Node>)
    requires WellFormed(h)
  {
    && stack != []
    && (var n := stack[|stack| - 1];
        n.cursor <= |h.events| && s == Advanced(h, Signature(n.cursor, n.state, n.progress)))
    && forall n | n in stack[..|stack| - 1] :: n in stack'
  }

  lemma KeepCovered(h: History, seen: set<Signature>, stack: seq<Node>, s: Signature, stack': seq<Node>, t: Signature)
    requires WellFormed(h) && Popped(h, stack, s, stack') && Covered(h, seen, stack, t)
    ensures Covered(h, seen + {s}, stack', t)
  {
    if Advanced(h, t) !in seen {
      var n :| n in stack && n.cursor == t.cursor && n.state == t.state && n.progress == t.progress;
      if n != stack[|stack| - 1] {
        assert n in stack[..|stack| - 1];
      }
    }
  }

  lemma KeepClosed(h: History, seen: set<Signature>, stack: seq<Node>, s: Signature, stack': seq<Node>)
    requires WellFormed(h) && Popped(h, stack, s, stack') && Closed(h, seen, stack)
    requires s in seen || (s.cursor < |h.events| && Expanded(h, seen + {s}, stack', s))
    ensures Closed(h, seen + {s}, stack')
  {
    KeepCovered(h, seen, stack, s, stack', Signature(0, h.initial, map[]));
    forall t | t in seen ensures Expanded(h, seen + {s}, stack', t) {
      forall i: nat, x | i < |h.ops| && IsEligible(h, t.cursor, t.progress, i)
                       && x in Transitions(h, i, t.state, ProgressOf(t.progress, i))
        ensures Covered(h, seen + {s}, stack', Signature(t.cursor, x.state, t.progress[i := x.progress]))
      {
        assert Expanded(h, seen, stack, t);
        KeepCovered(h, seen, stack, s, stack', Signature(t.cursor, x.state, t.progress[i := x.progress]));
      }
    }
  }

  lemma ChildrenTrace(h: History, s: Signature, path: seq<Action>, effects: nat, offers: seq<Offer>,
                      children: seq<Node>)
    requires WellFormed(h) && Traces(h, path, s) && s.cursor < |h.events|
    requires forall o | o in offers :: o.op < |h.ops| && IsEligible(h, s.cursor, s.progress, o.op)
               && o.effect in Transitions(h, o.op, s.state, ProgressOf(s.progress, o.op))
    requires forall n | n in children :: exists m :: 0 <= m < |offers| && n == Child(h, s, path, effects, offers[m])
    ensures AllTrace(h, children)
  {
    forall n | n in children ensures Traces(h, n.path, Signature(n.cursor, n.state, n.progress)) {
      var m :| 0 <= m < |offers| && n == Child(h, s, path, effects, offers[m]);
      assert offers[m] in offers;
      ChildTraces(h, path, s, offers[m].op, offers[m].effect);
    }
  }

  lemma ChildrenCover(h: History, seen: set<Signature>, stack: seq<Node>, s: Signature, path: seq<Action>,
                      effects: nat, order: seq<nat>, offers: seq<Offer>)
    requires WellFormed(h) && s.cursor < |h.events|
    requires forall i: nat | i < |h.ops| && IsEligible(h, s.cursor, s.progress, i) :: i in order
    requires forall m | 0 <= m < |order| :: order[m] < |h.ops|
    requires offers == Offers(h, s, order)
    requires forall m | 0 <= m < |offers| :: Child(h, s, path, effects, offers[m]) in stack
    ensures Expanded(h, seen, stack, s)
  {
    forall i: nat, x | i < |h.ops| && IsEligible(h, s.cursor, s.progress, i)
                     && x in Transitions(h, i, s.state, ProgressOf(s.progress, i))
      ensures Covered(h, seen, stack, Signature(s.cursor, x.state, s.progress[i := x.progress]))
    {
      assert Offer(i, x) in offers;
      var m :| 0 <= m < |offers| && offers[m] == Offer(i, x);
      assert Child(h, s, path, effects, offers[m]) in stack;
    }
  }

  lemma ExpandedMore(h: History, children: seq<Node>, seen: set<Signature>, stack: seq<Node>, s: Signature)
    requires WellFormed(h) && Expanded(h, {}, children, s) && forall n | n in children :: n in stack
    ensures Expanded(h, seen, stack, s)
  {
    forall i: nat, x | i < |h.ops| && IsEligible(h, s.cursor, s.progress, i)
                     && x in Transitions(h, i, s.state, ProgressOf(s.progress, i))
      ensures Covered(h, seen, stack, Signature(s.cursor, x.state, s.progress[i := x.progress]))
    {
      assert Covered(h, {}, children, Signature(s.cursor, x.state, s.progress[i := x.progress]));
    }
  }

  /** The nodes reached by one effect of an eligible operation; without limits, all of them. */
  method Branch(h: History, s: Signature, path: seq<Action>, effects: nat, b: Budget, room: int)
    returns (children: seq<Node>, overflow: bool)
    requires WellFormed(h) && Traces(h, path, s) && s.cursor < |h.events|
    ensures AllTrace(h, children)
    ensures Unrestricted(b) && !overflow ==> Expanded(h, {}, children, s)
  {
    var eligible := Eligible(h, s.cursor, s.progress);
    var order := Ranked(eligible);
    assert forall m | 0 <= m < |order| :: order[m] in order;
    var offers := Offers(h, s, order);
    children, overflow := Expand(h, s, path, effects, offers, b, room);
    ChildrenTrace(h, s, path, effects, offers, children);
    if Unrestricted(b) && !overflow {
      ChildrenCover(h, {}, children, s, path, effects, order, offers);
    }
  }

  /** Depth-first search within a state budget; `*` stands for the wall clock running out. */
  method Explore(h: History, maxStates: nat, b: Budget) returns (v: Verdict, states: nat)
    requires WellFormed(h)
    ensures v.Valid? ==> Certified(h, v.certificate)
    ensures v.Invalid? && Unrestricted(b) ==> forall w :: !Certified(h, w)
    ensures states <= maxStates
  {
    var stack := [Node(0, h.initial, map[], [], 0)];
    var seen: set<Signature> := {};
    assert Visible(h, map[], 0) == map[];
    assert stack[0] in stack;
    while stack != []
      invariant |seen| <= maxStates
      invariant AllTrace(h, stack)
      invariant Unrestricted(b) ==> Closed(h, seen, stack)
      decreases maxStates - |seen|, |stack|
    {
      var timeout := *;
      if |seen| >= maxStates || timeout {
        return Inconclusive, |seen|;
      }
      var node := stack[|stack| - 1];
      ghost var before := stack;
      stack := stack[..|stack| - 1];
      ghost var raw := Signature(node.cursor, node.state, node.progress);
      var cursor, progress := Advance(h, node.cursor, node.state, node.progress);
      var s := Signature(cursor, node.state, progress);
      AdvancedTraces(h, node.path, raw);
      if s in seen {
        if Unrestricted(b) {
          KeepClosed(h, seen, before, s, stack);
          assert seen + {s} == seen;
        }
        continue;
      }
      ghost var visited := seen;
      seen := seen + {s};
      if cursor == |h.events| {
        var replayed := VerifyWitness(h, node.path);
        assert replayed;
        return Valid(node.path), |seen|;
      }
      var children, overflow := Branch(h, s, node.path, node.effects, b, maxStates - |stack| - |seen|);
      if overflow {
        return Inconclusive, |seen|;
      }
      stack := stack + Reversed(children);
      if Unrestricted(b) {
        ExpandedMore(h, children, seen, stack, s);
        KeepClosed(h, visited, before, s, stack);
      }
    }
    if Unrestricted(b) {
      ClosedRefutes(h, seen);
    }
    return Invalid, |seen|;
  }

  function Reversed(ns: seq<Node>): (r: seq<Node>)
    ensures forall n :: n in r <==> n in ns
  {
    if ns == [] then [] else Reversed(ns[1..]) + [ns[0]]
  }
}
