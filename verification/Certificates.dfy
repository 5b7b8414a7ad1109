/**
 Certificates of a history: effects placed before observed events, replayed from the initial
 state. `VerifyWitness` is the independent replay that every positive verdict passes through.
 */
module Certificates {
  import opened Wrappers
  import opened Histories

  /** One effect of operation `op`, placed before the event at position `before`. */
  datatype Action = Action(op: nat, before: nat, detail: Detail)

  datatype Config = Config(state: State, progress: map<nat, Progress>, cursor: nat)

  /** Every response observed in `[lo, hi)` is justified by `progress`. */
  ghost predicate BarriersMet(h: History, progress: map<nat, Progress>, lo: nat, hi: nat)
    requires WellFormed(h) && hi <= |h.events|
  {
    forall k | lo <= k < hi && h.events[k].Ret? :: BarrierMet(h, progress, k)
  }

  predicate BarrierMet(h: History, progress: map<nat, Progress>, k: nat)
    requires WellFormed(h) && k < |h.events| && h.events[k].Ret?
  {
    assert EventFits(h, k);
    Satisfied(h, h.events[k].op, ProgressOf(progress, h.events[k].op))
  }

  function Matches(xs: seq<Successor>, d: Detail): (r: seq<Successor>)
    ensures forall x | x in r :: x in xs && x.detail == d
  {
    if xs == [] then [] else
      (if xs[0].detail == d then [xs[0]] else []) + Matches(xs[1..], d)
  }

  /** The configuration after one more action, if replay admits it. */
  ghost function Apply(h: History, c: Config, a: Action): Option<Config>
    requires WellFormed(h)
  {
    if && a.op < |h.ops| && c.cursor <= a.before < |h.events|
       && BarriersMet(h, c.progress, c.cursor, a.before)
       && h.ops[a.op].invocation < a.before
    then
      var found := Matches(Transitions(h, a.op, c.state, ProgressOf(c.progress, a.op)), a.detail);
      if |found| == 1
      then Some(Config(found[0].state, c.progress[a.op := found[0].progress], a.before))
      else None
    else None
  }

  ghost function Replay(h: History, w: seq<Action>): Option<Config>
    requires WellFormed(h)
    decreases |w|
  {
    if w == [] then Some(Config(h.initial, map[], 0))
    else match Replay(h, w[..|w| - 1])
      case None => None
      case Some(prior) => Apply(h, prior, w[|w| - 1])
  }

  lemma ReplayNext(h: History, w: seq<Action>, a: Action)
    requires WellFormed(h) && Replay(h, w).Some?
    ensures Replay(h, w + [a]) == Apply(h, Replay(h, w).value, a)
  {
    assert (w + [a])[..|w|] == w;
  }

  ghost predicate Certified(h: History, w: seq<Action>)
    requires WellFormed(h)
  {
    match Replay(h, w)
    case None => false
    case Some(c) => BarriersMet(h, c.progress, c.cursor, |h.events|)
  }

  /** Replays a certificate from scratch, including every response barrier. */
  method VerifyWitness(h: History, w: seq<Action>) returns (accepted: bool)
    requires WellFormed(h)
    ensures accepted <==> Certified(h, w)
  {
    var state := h.initial;
    var progress: map<nat, Progress> := map[];
    var cursor: nat := 0;
    for n := 0 to |w|
      invariant Replay(h, w[..n]) == Some(Config(state, progress, cursor))
    {
      var a := w[n];
      ReplayNext(h, w[..n], a);
      assert w[..n] + [a] == w[..n + 1];
      var admitted := a.op < |h.ops| && cursor <= a.before < |h.events|;
      if admitted {
        admitted := CheckBarriers(h, progress, cursor, a.before);
      }
      if !admitted || h.ops[a.op].invocation >= a.before {
        RejectedPrefix(h, w, n + 1);
        return false;
      }
      var found := Matches(Transitions(h, a.op, state, ProgressOf(progress, a.op)), a.detail);
      if |found| != 1 {
        RejectedPrefix(h, w, n + 1);
        return false;
      }
      state, progress, cursor := found[0].state, progress[a.op := found[0].progress], a.before;
    }
    assert w[..|w|] == w;
    CursorInRange(h, w);
    accepted := CheckBarriers(h, progress, cursor, |h.events|);
  }

  method CheckBarriers(h: History, progress: map<nat, Progress>, lo: nat, hi: nat) returns (met: bool)
    requires WellFormed(h) && lo <= hi <= |h.events|
    ensures met <==> BarriersMet(h, progress, lo, hi)
  {
    for k := lo to hi
      invariant BarriersMet(h, progress, lo, k)
    {
      if h.events[k].Ret? && !BarrierMet(h, progress, k) {
        return false;
      }
    }
    return true;
  }

  lemma {:induction false} RejectedPrefix(h: History, w: seq<Action>, n: nat)
    requires WellFormed(h) && n <= |w| && Replay(h, w[..n]) == None
    ensures Replay(h, w) == None
    decreases |w| - n
  {
    if n == |w| {
      assert w[..n] == w;
    } else {
      assert w[..n + 1][..n] == w[..n];
      RejectedPrefix(h, w, n + 1);
    }
  }

  lemma {:induction false} CursorInRange(h: History, w: seq<Action>)
    requires WellFormed(h) && Replay(h, w).Some?
    ensures Replay(h, w).value.cursor <= |h.events|
  {
  }

  // ----- facts about effects

  ghost predicate Distinct<T(!new)>(s: seq<T>) {
    forall i, j | 0 <= i < j < |s| :: s[i] != s[j]
  }

  /** An effect is the only one carrying its description. */
  lemma MatchesOnly(h: History, i: nat, s: State, p: Option<Progress>, x: Successor)
    requires WellFormed(h) && i < |h.ops| && x in Transitions(h, i, s, p)
    ensures Matches(Transitions(h, i, s, p), x.detail) == [x]
  {
    var xs := Transitions(h, i, s, p);
    if |xs| == 1 {
      assert xs[1..] == [];
    } else {
      var op := h.ops[i];
      assert Distinct(Candidates(h, op));
      CreationsMatch(h, s, op.call.name, Candidates(h, op), x);
    }
  }

  /** An enabled effect, described and placed at a reachable boundary, is admitted by replay. */
  lemma AppliesEffect(h: History, c: Config, i: nat, x: Successor, at: nat)
    requires WellFormed(h) && i < |h.ops| && x in Transitions(h, i, c.state, ProgressOf(c.progress, i))
    requires c.cursor <= at < |h.events| && h.ops[i].invocation < at && BarriersMet(h, c.progress, c.cursor, at)
    ensures Apply(h, c, Action(i, at, x.detail)) == Some(Config(x.state, c.progress[i := x.progress], at))
  {
    MatchesOnly(h, i, c.state, ProgressOf(c.progress, i), x);
  }

  lemma {:induction false} CreationsMatch(h: History, s: State, name: string, kids: seq<Kid>, x: Successor)
    requires Distinct(kids) && x in Creations(h, s, name, kids)
    ensures Matches(Creations(h, s, name, kids), x.detail) == [x]
  {
    var tail := Creations(h, s, name, kids[1..]);
    var all := Creations(h, s, name, kids);
    if CanAllocate(h, s, kids[0]) {
      assert all[1..] == tail;
    } else {
      assert all == tail;
    }
    if x.detail == Create(kids[0]) {
      assert x !in tail;
      NoMatch(tail, x.detail);
    } else {
      CreationsMatch(h, s, name, kids[1..], x);
    }
  }

  lemma NoMatch(xs: seq<Successor>, d: Detail)
    requires forall x | x in xs :: x.detail != d
    ensures Matches(xs, d) == []
  {
  }

  lemma ChunksCover(n: nat, chunk: nat, count: nat)
    requires chunk >= 1 && count >= (n + chunk - 1) / chunk
    ensures count * chunk >= n
  {
    var q := (n + chunk - 1) / chunk;
    assert q * chunk + (n + chunk - 1) % chunk == n + chunk - 1;
    assert count * chunk >= q * chunk;
  }

  /** Recorded progress belongs to its operation: only range deletions are partial, and a
      confirmed one selected exactly as many chunks as it reported. */
  ghost predicate Sane(h: History, progress: map<nat, Progress>)
    requires h.chunk >= 1
  {
    forall i | i in progress :: i < |h.ops| && SaneFor(h, i, progress[i])
  }

  ghost predicate SaneFor(h: History, i: nat, p: Progress)
    requires i < |h.ops| && h.chunk >= 1
  {
    var op := h.ops[i];
    && (p.Range? ==> op.call.DeleteRange? && op.outcome != Refused)
    && (p.Range? && op.outcome == Ok ==> op.reply == Chunks(ChunkCount(p.keys, h.chunk)))
    && (p.Done? ==> op.outcome == Refused || !op.call.DeleteRange?)
  }

  lemma EffectSane(h: History, i: nat, s: State, p: Option<Progress>, x: Successor)
    requires WellFormed(h) && i < |h.ops| && x in Transitions(h, i, s, p)
    requires p.Some? ==> SaneFor(h, i, p.value)
    ensures SaneFor(h, i, x.progress)
    ensures Satisfied(h, i, p) ==> Satisfied(h, i, Some(x.progress))
  {
  }

  /** A confirmed or refused operation whose response is justified has no effect left. */
  lemma SatisfiedIsFinal(h: History, i: nat, s: State, p: Option<Progress>)
    requires WellFormed(h) && i < |h.ops| && h.ops[i].outcome != Unknown
    requires p.Some? ==> SaneFor(h, i, p.value)
    requires Satisfied(h, i, p)
    ensures Transitions(h, i, s, p) == []
  {
    if h.ops[i].call.DeleteRange? && h.ops[i].outcome == Ok {
      ChunksCover(|p.value.keys|, h.chunk, p.value.count);
    }
  }

  /** What replay maintains: progress is sane and every response passed so far stays justified. */
  ghost predicate Settled(h: History, c: Config)
    requires WellFormed(h)
  {
    c.cursor <= |h.events| && Sane(h, c.progress) && BarriersMet(h, c.progress, 0, c.cursor)
  }

  lemma EffectSettled(h: History, c: Config, i: nat, x: Successor, at: nat)
    requires WellFormed(h) && Settled(h, c) && i < |h.ops|
    requires c.cursor <= at <= |h.events| && BarriersMet(h, c.progress, c.cursor, at)
    requires x in Transitions(h, i, c.state, ProgressOf(c.progress, i))
    ensures Settled(h, Config(x.state, c.progress[i := x.progress], at))
  {
    EffectSane(h, i, c.state, ProgressOf(c.progress, i), x);
    var next := c.progress[i := x.progress];
    forall k | 0 <= k < at && h.events[k].Ret? ensures BarrierMet(h, next, k) {
      assert BarrierMet(h, c.progress, k);
    }
  }

  lemma {:induction false} ReplaySettled(h: History, w: seq<Action>)
    requires WellFormed(h) && Replay(h, w).Some?
    ensures Settled(h, Replay(h, w).value)
    decreases |w|
  {
    if w != [] {
      var a := w[|w| - 1];
      ReplaySettled(h, w[..|w| - 1]);
      var prior := Replay(h, w[..|w| - 1]).value;
      var found := Matches(Transitions(h, a.op, prior.state, ProgressOf(prior.progress, a.op)), a.detail);
      assert found[0] in found;
      EffectSettled(h, prior, a.op, found[0], a.before);
    }
  }
}
