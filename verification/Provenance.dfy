/** What linearizability means to a reader: where a returned value came from and that it is not stale. */
module Provenance {
  import opened Wrappers
  import opened Histories
  import opened HistorySpec
  import opened Linearizability

  type Entry = (nat, string)

  /** What a call leaves at an entry it touches: a value, or nothing for a deletion. */
  ghost function Leaves(c: Call, e: Entry): Option<Option<string>> {
    match c
    case Put(ks, key, value) => if (ks, key) == e then Some(Some(value)) else None
    case Delete(ks, key) => if (ks, key) == e then Some(None) else None
    case BatchPut(ks, pairs) => if ks == e.0 && LastPair(pairs, e.1).Some? then Some(LastPair(pairs, e.1)) else None
    case _ => None
  }

  /** A confirmed read's answer for one entry. */
  ghost predicate Reports(op: Operation, e: Entry, v: Option<string>) {
    op.outcome == Ok &&
    match op.call
    case Get(ks, key) => (ks, key) == e && op.reply == Found(v)
    case BatchGet(ks, keys) =>
      && ks == e.0 && op.reply.FoundAll?
      && exists k :: 0 <= k < |keys| && k < |op.reply.values| && keys[k] == e.1 && op.reply.values[k] == v
    case Scan(ks, _, _, _) => ks == e.0 && op.reply.Rows? && v.Some? && (e.1, v.value) in op.reply.rows
    case _ => false
  }

  lemma EffectLeaves(h: History, i: nat, s: State, s': State, e: Entry)
    requires WellFormed(h) && AtomicOnly(h) && i < |h.ops| && CanTakeEffect(h.ops[i])
             && SpecEffect(h, i, s, None, s', Done)
    ensures At(s'.kv, e) == match Leaves(h.ops[i].call, e) case Some(v) => v case None => At(s.kv, e)
  {
    var op := h.ops[i];
    if op.call.CreateKeyspace? {
      var n :| Allocates(op, s, s', n);
    }
  }

  lemma ReportTrue(h: History, i: nat, s: State, s': State, e: Entry, v: Option<string>)
    requires WellFormed(h) && i < |h.ops| && SpecEffect(h, i, s, None, s', Done) && Reports(h.ops[i], e, v)
    ensures At(s.kv, e) == v && Leaves(h.ops[i].call, e) == None
  {
    var op := h.ops[i];
    if op.call.Scan? {
      var k :| 0 <= k < |op.reply.rows| && op.reply.rows[k] == (e.1, v.value);
      assert HistorySpec.Stored(s, op.call, op.reply.rows[k].0);
    }
  }

  ghost predicate Untouched(h: History, order: seq<nat>, lo: int, hi: int, e: Entry) {
    forall j | lo <= j < hi && 0 <= j < |order| :: order[j] < |h.ops| && Leaves(h.ops[order[j]].call, e) == None
  }

  /** Position `m` is the last one before `n` to touch the entry, leaving `v` there. */
  ghost predicate LastTouch(h: History, order: seq<nat>, m: nat, n: nat, e: Entry, v: Option<string>) {
    && m < n <= |order| && order[m] < |h.ops| && Leaves(h.ops[order[m]].call, e) == Some(v)
    && Untouched(h, order, m + 1, n, e)
  }

  lemma {:induction false} StateExplained(h: History, order: seq<nat>, states: seq<State>, n: nat, e: Entry)
    requires WellFormed(h) && AtomicOnly(h) && Linearizes(h, order, states) && n <= |order|
    ensures (Untouched(h, order, 0, n, e) && At(states[n].kv, e) == At(h.initial.kv, e))
            || exists m: nat :: LastTouch(h, order, m, n, e, At(states[n].kv, e))
  {
    if n > 0 {
      var p := n - 1;
      StateExplained(h, order, states, p, e);
      EffectLeaves(h, order[p], states[p], states[n], e);
      if Leaves(h.ops[order[p]].call, e).Some? {
        assert LastTouch(h, order, p, n, e, At(states[n].kv, e));
      } else if m: nat :| LastTouch(h, order, m, p, e, At(states[p].kv, e)) {
        assert LastTouch(h, order, m, n, e, At(states[n].kv, e));
      }
    }
  }

  // ----- what a reader may rely on

  /** No confirmed call that touches the entry ran entirely between `w` and the read. */
  ghost predicate NotStale(h: History, i: nat, e: Entry, w: nat)
    requires i < |h.ops| && w < |h.ops|
  {
    forall v: nat | v < |h.ops| && h.ops[v].outcome == Ok && Leaves(h.ops[v].call, e).Some? ::
      !(Precedes(h.ops[w], h.ops[v]) && Precedes(h.ops[v], h.ops[i]))
  }

  /** Call `w` left the value, may have taken effect, began before the read ended and is not stale. */
  ghost predicate Source(h: History, i: nat, e: Entry, v: Option<string>, w: nat) {
    && i < |h.ops| && w < |h.ops| && Leaves(h.ops[w].call, e) == Some(v) && h.ops[w].outcome != Refused
    && h.ops[i].response.Some? && h.ops[w].invocation < h.ops[i].response.value && NotStale(h, i, e, w)
  }

  /** The entry still holds what it started with: no confirmed call touched it before the read. */
  ghost predicate StillInitial(h: History, i: nat, e: Entry, v: Option<string>)
    requires i < |h.ops|
  {
    && At(h.initial.kv, e) == v
    && forall w: nat | w < |h.ops| && h.ops[w].outcome == Ok && Leaves(h.ops[w].call, e).Some? ::
         !Precedes(h.ops[w], h.ops[i])
  }

  lemma InitialRead(h: History, order: seq<nat>, states: seq<State>, n: nat, e: Entry, v: Option<string>)
    requires WellFormed(h) && Linearizes(h, order, states) && n < |order| && Untouched(h, order, 0, n + 1, e)
             && At(h.initial.kv, e) == v
    requires forall i: nat | i < |h.ops| && h.ops[i].outcome == Ok :: i in order
    ensures StillInitial(h, order[n], e, v)
  {
    forall w: nat | w < |h.ops| && h.ops[w].outcome == Ok && Leaves(h.ops[w].call, e).Some?
      ensures !Precedes(h.ops[w], h.ops[order[n]])
    {
      var p :| 0 <= p < |order| && order[p] == w;
      assert p > n;
    }
  }

  lemma SourcedRead(h: History, order: seq<nat>, states: seq<State>, m: nat, n: nat, e: Entry, v: Option<string>)
    requires WellFormed(h) && Linearizes(h, order, states) && n < |order| && LastTouch(h, order, m, n, e, v)
    requires Leaves(h.ops[order[n]].call, e) == None && h.ops[order[n]].outcome == Ok
    requires forall i: nat | i < |h.ops| && h.ops[i].outcome == Ok :: i in order
    ensures Source(h, order[n], e, v, order[m])
  {
    var i, w := order[n], order[m];
    assert OperationFits(h, i);
    InvokedBefore(h, order, states, n, m);
    forall x: nat | x < |h.ops| && h.ops[x].outcome == Ok && Leaves(h.ops[x].call, e).Some?
      ensures !(Precedes(h.ops[w], h.ops[x]) && Precedes(h.ops[x], h.ops[i]))
    {
      var p :| 0 <= p < |order| && order[p] == x;
      assert OperationFits(h, x);
      assert !(m < p < n) && p != n;
    }
  }

  /** Every confirmed answer of a linearizable history is initial or comes from a call that is not stale. */
  lemma ReadProvenance(h: History, i: nat, e: Entry, v: Option<string>)
    requires WellFormed(h) && AtomicOnly(h) && Linearizable(h) && i < |h.ops| && Reports(h.ops[i], e, v)
    ensures StillInitial(h, i, e, v) || exists w: nat :: Source(h, i, e, v, w)
  {
    var order: seq<nat>, states: seq<State> :|
      Linearizes(h, order, states) && forall j: nat | j < |h.ops| && h.ops[j].outcome == Ok :: j in order;
    var n :| 0 <= n < |order| && order[n] == i;
    ReportTrue(h, i, states[n], states[n + 1], e, v);
    StateExplained(h, order, states, n, e);
    if m: nat :| LastTouch(h, order, m, n, e, v) {
      SourcedRead(h, order, states, m, n, e, v);
    } else {
      InitialRead(h, order, states, n, e, v);
    }
  }
}
