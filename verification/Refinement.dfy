/**
 The checker's certificates describe exactly the legal executions: its effect function refines the
 documented effects, with unobserved keyspace numbers replaced by symbols.
 */
module Refinement {
  import opened Wrappers
  import opened Counting
  import opened Histories
  import opened Certificates
  import opened HistorySpec

  // ----- one effect, same state

  predicate IsPoint(op: Operation) {
    !op.call.DeleteRange? && !op.call.CreateKeyspace?
    && (op.outcome == Ok || (op.outcome == Unknown && !IsRead(op.call)))
  }

  lemma PointMeetsSpec(h: History, i: nat, s: State, p: Option<Progress>, x: Successor)
    requires h.chunk >= 1 && i < |h.ops| && IsPoint(h.ops[i]) && x in Transitions(h, i, s, p)
    ensures x.progress == Done && PointEffect(h.ops[i], s, x.state)
  {
    var op := h.ops[i];
    HostedExact(s, op.call.ks);
    match op.call
    case BatchPut(ks, pairs) => PutAllLastWins(s.kv, ks, pairs);
    case Delete(ks, key) => assert Remove(s.kv, ks, [key]) == s.kv - {(ks, key)};
    case Scan(_, _, _, _) => PageOfListing(s, op.call);
    case _ =>
  }

  lemma PointEnabled(h: History, i: nat, s: State, p: Option<Progress>, s': State)
    requires h.chunk >= 1 && i < |h.ops| && IsPoint(h.ops[i]) && p != Some(Done) && PointEffect(h.ops[i], s, s')
    ensures Transitions(h, i, s, p) == [Successor(s', Done, Atomic)]
  {
    var op := h.ops[i];
    HostedExact(s, op.call.ks);
    match op.call
    case BatchPut(ks, pairs) =>
      PutAllLastWins(s.kv, ks, pairs);
      LastWinsDetermined(s.kv, ks, pairs, PutAll(s.kv, ks, pairs), s'.kv);
    case Delete(ks, key) => assert Remove(s.kv, ks, [key]) == s.kv - {(ks, key)};
    case BatchGet(ks, keys) =>
      assert op.reply.values == seq(|keys|, k requires 0 <= k < |keys| => Lookup(s, ks, keys[k]));
    case Scan(_, _, _, _) => PageDetermined(s, op.call, op.reply.rows);
    case _ =>
  }

  lemma RangeMeetsSpec(h: History, op: Operation, s: State, p: Option<Progress>, x: Successor)
    requires h.chunk >= 1 && op.call.DeleteRange? && p != Some(Done) && op.outcome != Refused
    requires ReplyFits(op.call, op.outcome, op.reply) && Hosted(s, op.call.ks) && x in RangeTransitions(h, op, s, p)
    ensures RangeEffect(h, op, s, p, x.state, x.progress)
  {
    HostedExact(s, op.call.ks);
    match p
    case None =>
      SnapshotDetermined(s, op.call, x.progress.keys);
      if op.reply.Chunks? { ChunkCountExact(x.progress.keys, h.chunk, op.reply.committed); }
    case Some(before) => ChunkRemoved(s.kv, op.call.ks, before.keys, h.chunk, before.count);
  }

  lemma RangeEnabled(h: History, op: Operation, s: State, p: Option<Progress>, s': State, p': Progress)
    returns (x: Successor)
    requires h.chunk >= 1 && op.call.DeleteRange? && p != Some(Done)
    requires RangeEffect(h, op, s, p, s', p')
    ensures x in RangeTransitions(h, op, s, p) && x.state == s' && x.progress == p'
  {
    match p
    case None =>
      SnapshotDetermined(s, op.call, p'.keys);
      if op.reply.Chunks? { ChunkCountExact(p'.keys, h.chunk, op.reply.committed); }
      x := Successor(s, p', Select(p'.keys));
    case Some(before) =>
      ChunkRemoved(s.kv, op.call.ks, before.keys, h.chunk, before.count);
      x := Successor(s', p', Chunk(ChunkAt(before.keys, h.chunk, before.count)));
  }

  lemma ChunkRemoved(kv: map<(nat, string), string>, ks: nat, keys: seq<string>, chunk: nat, count: nat)
    requires count * chunk < |keys|
    ensures Remove(kv, ks, ChunkAt(keys, chunk, count)) ==
            kv - (set j | count * chunk <= j < (count + 1) * chunk && j < |keys| :: (ks, keys[j]))
  {
    var lo, hi := count * chunk, (count + 1) * chunk;
    assert hi == lo + chunk;
    var deleted := ChunkAt(keys, chunk, count);
    assert forall j | 0 <= j < |deleted| :: deleted[j] == keys[lo + j];
    forall e | e in kv
      ensures (e.0 == ks && e.1 in deleted) <==> e in (set j | lo <= j < hi && j < |keys| :: (ks, keys[j]))
    {
      if e.0 == ks && e.1 in deleted {
        var j :| 0 <= j < |deleted| && deleted[j] == e.1;
        assert keys[lo + j] == e.1;
      }
      if e in (set j | lo <= j < hi && j < |keys| :: (ks, keys[j])) {
        var j :| lo <= j < hi && j < |keys| && e == (ks, keys[j]);
        assert deleted[j - lo] == keys[j];
      }
    }
  }

  // ----- symbols stand for unobserved numbers

  /** `concrete` and `symbolic` name the same keyspaces; numbers nobody observed are symbols of
      creations that already happened. */
  ghost predicate Represents(h: History, concrete: State, symbolic: State, progress: map<nat, Progress>) {
    && concrete.kv == symbolic.kv && concrete.catalog.Keys == symbolic.catalog.Keys
    && (forall name | name in concrete.catalog :: RepresentsName(h, concrete, symbolic, progress, name))
    && (forall a, b | a in concrete.catalog && b in concrete.catalog && a != b ::
          concrete.catalog[a] != concrete.catalog[b])
  }

  ghost predicate RepresentsName(h: History, concrete: State, symbolic: State, progress: map<nat, Progress>,
                                 name: string)
    requires name in concrete.catalog && name in symbolic.catalog
  {
    var kid := concrete.catalog[name];
    && kid.Id? && 1 <= kid.n < KEYSPACE_LIMIT
    && (kid.n in h.ids ==> symbolic.catalog[name] == kid)
    && (kid.n !in h.ids ==>
        symbolic.catalog[name].Symbol? && SpentSymbol(h, progress, symbolic.catalog[name].operation))
  }

  ghost predicate SpentSymbol(h: History, progress: map<nat, Progress>, id: nat) {
    exists i :: i in progress && i < |h.ops| && h.ops[i].id == id && progress[i] == Done
  }

  lemma InitialRepresents(h: History)
    requires WellFormed(h)
    ensures Represents(h, h.initial, h.initial, map[])
  {
  }

  lemma HostedAlike(h: History, concrete: State, symbolic: State, progress: map<nat, Progress>, ks: nat)
    requires Represents(h, concrete, symbolic, progress) && ks in h.ids
    ensures Hosted(concrete, ks) <==> Hosted(symbolic, ks)
  {
    if Hosted(concrete, ks) {
      var name :| name in concrete.catalog && concrete.catalog[name] == Id(ks);
      assert RepresentsName(h, concrete, symbolic, progress, name);
    }
    if Hosted(symbolic, ks) {
      var name :| name in symbolic.catalog && symbolic.catalog[name] == Id(ks);
      assert RepresentsName(h, concrete, symbolic, progress, name);
    }
  }

  predicate IsCreation(op: Operation) {
    op.call.CreateKeyspace? && op.outcome != Refused
  }

  /** Effects other than creations look only at the stored pairs and at one hosted keyspace. */
  lemma EffectAlike(h: History, i: nat, s: State, t: State, p: Option<Progress>, s': State, p': Progress)
    requires i < |h.ops| && h.chunk >= 1 && !IsCreation(h.ops[i])
    requires s.kv == t.kv
             && (!h.ops[i].call.CreateKeyspace? ==> (Hosted(s, h.ops[i].call.ks) <==> Hosted(t, h.ops[i].call.ks)))
    requires SpecEffect(h, i, s, p, s', p')
    ensures s'.catalog == s.catalog
    ensures SpecEffect(h, i, t, p, t.(kv := s'.kv), p')
  {
    var op := h.ops[i];
    var t' := t.(kv := s'.kv);
    if op.outcome == Refused || (op.outcome == Unknown && IsRead(op.call)) {
    } else if op.call.DeleteRange? {
      assert RangeEffect(h, op, t, p, t', p');
    } else {
      assert PointEffect(op, t, t');
    }
  }

  lemma EffectMeetsSpec(h: History, i: nat, s: State, p: Option<Progress>, x: Successor)
    requires WellFormed(h) && i < |h.ops| && !IsCreation(h.ops[i]) && x in Transitions(h, i, s, p)
    ensures SpecEffect(h, i, s, p, x.state, x.progress)
  {
    if IsPoint(h.ops[i]) {
      PointMeetsSpec(h, i, s, p, x);
    } else if h.ops[i].call.DeleteRange? && h.ops[i].outcome != Refused {
      assert OperationFits(h, i);
      RangeMeetsSpec(h, h.ops[i], s, p, x);
    }
  }

  lemma SpecEnabled(h: History, i: nat, s: State, p: Option<Progress>, s': State, p': Progress) returns (x: Successor)
    requires WellFormed(h) && i < |h.ops| && !IsCreation(h.ops[i]) && SpecEffect(h, i, s, p, s', p')
    ensures x in Transitions(h, i, s, p) && x.state == s' && x.progress == p'
  {
    if IsPoint(h.ops[i]) {
      PointEnabled(h, i, s, p, s');
      x := Successor(s', Done, Atomic);
    } else if h.ops[i].call.DeleteRange? && h.ops[i].outcome != Refused {
      x := RangeEnabled(h, h.ops[i], s, p, s', p');
    } else {
      x := Successor(s, Done, Omit);
    }
  }

  /** The 24-bit numbers no client observed. */
  ghost function Unobserved(h: History): set<nat> {
    Unlisted(h.ids, KEYSPACE_LIMIT)
  }

  ghost function Unlisted(ids: seq<nat>, limit: nat): set<nat> {
    set n: nat | 1 <= n < limit && n !in ids
  }

  lemma UnlistedSize(ids: seq<nat>, limit: nat)
    requires limit >= 1 && (forall i, j | 0 <= i < j < |ids| :: ids[i] != ids[j])
    requires forall n | n in ids :: 1 <= n < limit
    ensures |Unlisted(ids, limit)| == limit - 1 - |ids|
  {
    var observed := set n | n in ids;
    ListedSize(ids);
    assert Numbers(1, limit) == Unlisted(ids, limit) + observed;
    assert Unlisted(ids, limit) !! observed;
  }

  /** Unobserved numbers in use, by keyspace name. */
  ghost function Hidden(h: History, concrete: State): map<string, nat> {
    map name | name in concrete.catalog && concrete.catalog[name].Id? && concrete.catalog[name].n !in h.ids
      :: concrete.catalog[name].n
  }

  lemma HiddenSize(h: History, concrete: State, symbolic: State, progress: map<nat, Progress>)
    requires Represents(h, concrete, symbolic, progress)
    ensures |Hidden(h, concrete).Values| == |Symbols(symbolic)|
    ensures Hidden(h, concrete).Values <= Unobserved(h)
  {
    var hidden := Hidden(h, concrete);
    assert hidden.Keys == Symbols(symbolic) by {
      forall name | name in concrete.catalog ensures name in hidden <==> name in Symbols(symbolic) {
        assert RepresentsName(h, concrete, symbolic, progress, name);
      }
    }
    ValuesSize(hidden);
    forall n | n in hidden.Values ensures n in Unobserved(h) {
      var name :| name in hidden && hidden[name] == n;
      assert RepresentsName(h, concrete, symbolic, progress, name);
    }
  }

  /** The catalog identity under which the checker allocates number `n`. */
  ghost function KidOf(h: History, op: Operation, n: nat): Kid {
    if n in h.ids then Id(n) else Symbol(op.id)
  }

  lemma IsCandidate(h: History, i: nat, n: nat)
    requires WellFormed(h) && i < |h.ops| && IsCreation(h.ops[i])
    requires h.ops[i].outcome == Ok ==> h.ops[i].reply == Allocated(n)
    ensures KidOf(h, h.ops[i], n) in Candidates(h, h.ops[i])
  {
    var op := h.ops[i];
    assert OperationFits(h, i);
    if op.outcome == Ok {
      assert Candidates(h, op) == [Id(n)];
    } else if n in h.ids {
      var k :| 0 <= k < |h.ids| && h.ids[k] == n;
      assert Candidates(h, op)[k] == Id(n);
    } else {
      assert Candidates(h, op)[|h.ids|] == Symbol(op.id);
    }
  }

  lemma RoomForSymbol(h: History, concrete: State, symbolic: State, progress: map<nat, Progress>, n: nat)
    requires WellFormed(h) && Represents(h, concrete, symbolic, progress)
    requires n in Unobserved(h) && n !in Hidden(h, concrete).Values
    ensures |Symbols(symbolic)| < KEYSPACE_LIMIT - 1 - |h.ids|
  {
    var used := Hidden(h, concrete).Values;
    HiddenSize(h, concrete, symbolic, progress);
    UnlistedSize(h.ids, KEYSPACE_LIMIT);
    SubsetSize(used + {n}, Unobserved(h));
  }

  lemma MayAllocate(h: History, i: nat, concrete: State, symbolic: State, progress: map<nat, Progress>, n: nat)
    requires WellFormed(h) && i < |h.ops| && Represents(h, concrete, symbolic, progress)
    requires ProgressOf(progress, i) != Some(Done) && 1 <= n < KEYSPACE_LIMIT
    requires forall name | name in concrete.catalog :: concrete.catalog[name] != Id(n)
    ensures CanAllocate(h, symbolic, KidOf(h, h.ops[i], n))
  {
    forall name | name in symbolic.catalog ensures symbolic.catalog[name] != KidOf(h, h.ops[i], n) {
      assert RepresentsName(h, concrete, symbolic, progress, name);
    }
    if n !in h.ids {
      assert n !in Hidden(h, concrete).Values;
      RoomForSymbol(h, concrete, symbolic, progress, n);
    }
  }

  lemma CreateForward(h: History, i: nat, concrete: State, symbolic: State, progress: map<nat, Progress>, n: nat,
                      s': State)
    returns (x: Successor)
    requires WellFormed(h) && i < |h.ops| && IsCreation(h.ops[i]) && Represents(h, concrete, symbolic, progress)
    requires ProgressOf(progress, i) != Some(Done) && h.ops[i].call.name !in concrete.catalog
    requires Allocates(h.ops[i], concrete, s', n)
    ensures x in Transitions(h, i, symbolic, ProgressOf(progress, i)) && x.progress == Done
    ensures Represents(h, s', x.state, progress[i := Done])
  {
    var op := h.ops[i];
    var kid := KidOf(h, op, n);
    IsCandidate(h, i, n);
    MayAllocate(h, i, concrete, symbolic, progress, n);
    x := Successor(symbolic.(catalog := symbolic.catalog[op.call.name := kid]), Done, Create(kid));
    assert x in Creations(h, symbolic, op.call.name, Candidates(h, op));
    CreationRepresents(h, i, concrete, symbolic, progress, n, kid);
  }

  lemma CreationRepresents(h: History, i: nat, concrete: State, symbolic: State, progress: map<nat, Progress>, n: nat,
                           kid: Kid)
    requires i < |h.ops| && h.ops[i].call.CreateKeyspace? && h.ops[i].call.name !in concrete.catalog
    requires Represents(h, concrete, symbolic, progress) && 1 <= n < KEYSPACE_LIMIT
    requires forall name | name in concrete.catalog :: concrete.catalog[name] != Id(n)
    requires kid == if n in h.ids then Id(n) else Symbol(h.ops[i].id)
    ensures Represents(h, concrete.(catalog := concrete.catalog[h.ops[i].call.name := Id(n)]),
                       symbolic.(catalog := symbolic.catalog[h.ops[i].call.name := kid]), progress[i := Done])
  {
    var after := progress[i := Done];
    var c' := concrete.(catalog := concrete.catalog[h.ops[i].call.name := Id(n)]);
    var s' := symbolic.(catalog := symbolic.catalog[h.ops[i].call.name := kid]);
    forall name | name in c'.catalog ensures RepresentsName(h, c', s', after, name) {
      if name == h.ops[i].call.name {
        assert i in after;
      } else {
        assert RepresentsName(h, concrete, symbolic, progress, name);
        SpentStays(h, progress, i, Done, name, concrete, symbolic);
      }
    }
  }

  lemma SpentStays(h: History, progress: map<nat, Progress>, i: nat, p': Progress, name: string, concrete: State,
                   symbolic: State)
    requires name in concrete.catalog && name in symbolic.catalog
    requires RepresentsName(h, concrete, symbolic, progress, name)
    requires ProgressOf(progress, i) != Some(Done) || p' == Done
    ensures RepresentsName(h, concrete, symbolic, progress[i := p'], name)
  {
    if concrete.catalog[name].n !in h.ids {
      var j :| j in progress && j < |h.ops| && h.ops[j].id == symbolic.catalog[name].operation && progress[j] == Done;
      assert j in progress[i := p'];
    }
  }

  /** A number the checker's identity `kid` can stand for. */
  lemma FreshNumber(h: History, op: Operation, concrete: State, symbolic: State, progress: map<nat, Progress>, kid: Kid)
    returns (n: nat)
    requires WellFormed(h) && Represents(h, concrete, symbolic, progress) && CanAllocate(h, symbolic, kid)
    requires if kid.Id? then kid.n in h.ids else kid == Symbol(op.id)
    ensures 1 <= n < KEYSPACE_LIMIT && KidOf(h, op, n) == kid
    ensures forall name | name in concrete.catalog :: concrete.catalog[name] != Id(n)
  {
    if kid.Id? {
      n := kid.n;
    } else {
      var used := Hidden(h, concrete).Values;
      HiddenSize(h, concrete, symbolic, progress);
      UnlistedSize(h.ids, KEYSPACE_LIMIT);
      assert exists m :: m in Unobserved(h) && m !in used by {
        assert Unobserved(h) <= used ==> Unobserved(h) == used;
      }
      n :| n in Unobserved(h) && n !in used;
    }
    forall name | name in concrete.catalog ensures concrete.catalog[name] != Id(n) {
      assert RepresentsName(h, concrete, symbolic, progress, name);
      assert name in Hidden(h, concrete) ==> Hidden(h, concrete)[name] in Hidden(h, concrete).Values;
    }
  }

  lemma CreateBackward(h: History, i: nat, concrete: State, symbolic: State, progress: map<nat, Progress>, x: Successor)
    returns (s': State)
    requires WellFormed(h) && i < |h.ops| && IsCreation(h.ops[i]) && Represents(h, concrete, symbolic, progress)
    requires x in Transitions(h, i, symbolic, ProgressOf(progress, i))
    ensures SpecEffect(h, i, concrete, ProgressOf(progress, i), s', x.progress)
    ensures Represents(h, s', x.state, progress[i := x.progress])
  {
    var op := h.ops[i];
    assert OperationFits(h, i);
    assert x in Creations(h, symbolic, op.call.name, Candidates(h, op));
    var kid := x.detail.kid;
    assert forall k | 0 <= k < |h.ids| :: h.ids[k] in h.ids;
    var n := FreshNumber(h, op, concrete, symbolic, progress, kid);
    s' := concrete.(catalog := concrete.catalog[op.call.name := Id(n)]);
    assert Allocates(op, concrete, s', n);
    CreationRepresents(h, i, concrete, symbolic, progress, n, kid);
  }

  // ----- whole executions

  lemma EffectForward(h: History, i: nat, concrete: State, symbolic: State, progress: map<nat, Progress>, s': State,
                      p': Progress)
    returns (x: Successor)
    requires WellFormed(h) && i < |h.ops| && Represents(h, concrete, symbolic, progress)
    requires SpecEffect(h, i, concrete, ProgressOf(progress, i), s', p')
    ensures x in Transitions(h, i, symbolic, ProgressOf(progress, i)) && x.progress == p'
    ensures Represents(h, s', x.state, progress[i := p'])
  {
    var op, p := h.ops[i], ProgressOf(progress, i);
    if IsCreation(op) {
      var n :| Allocates(op, concrete, s', n);
      x := CreateForward(h, i, concrete, symbolic, progress, n, s');
    } else {
      assert OperationFits(h, i);
      if !op.call.CreateKeyspace? { HostedAlike(h, concrete, symbolic, progress, op.call.ks); }
      EffectAlike(h, i, concrete, symbolic, p, s', p');
      x := SpecEnabled(h, i, symbolic, p, symbolic.(kv := s'.kv), p');
      KeepRepresents(h, i, concrete, symbolic, progress, s'.kv, p');
    }
  }

  lemma EffectBackward(h: History, i: nat, concrete: State, symbolic: State, progress: map<nat, Progress>, x: Successor)
    returns (s': State)
    requires WellFormed(h) && i < |h.ops| && Represents(h, concrete, symbolic, progress)
    requires x in Transitions(h, i, symbolic, ProgressOf(progress, i))
    ensures SpecEffect(h, i, concrete, ProgressOf(progress, i), s', x.progress)
    ensures Represents(h, s', x.state, progress[i := x.progress])
  {
    var op, p := h.ops[i], ProgressOf(progress, i);
    if IsCreation(op) {
      s' := CreateBackward(h, i, concrete, symbolic, progress, x);
    } else {
      assert OperationFits(h, i);
      if !op.call.CreateKeyspace? { HostedAlike(h, concrete, symbolic, progress, op.call.ks); }
      EffectMeetsSpec(h, i, symbolic, p, x);
      EffectAlike(h, i, symbolic, concrete, p, x.state, x.progress);
      s' := concrete.(kv := x.state.kv);
      KeepRepresents(h, i, concrete, symbolic, progress, x.state.kv, x.progress);
    }
  }

  lemma KeepRepresents(h: History, i: nat, concrete: State, symbolic: State, progress: map<nat, Progress>,
                       kv: map<(nat, string), string>, p': Progress)
    requires Represents(h, concrete, symbolic, progress) && ProgressOf(progress, i) != Some(Done)
    ensures Represents(h, concrete.(kv := kv), symbolic.(kv := kv), progress[i := p'])
  {
    forall name | name in concrete.catalog
      ensures RepresentsName(h, concrete.(kv := kv), symbolic.(kv := kv), progress[i := p'], name)
    {
      assert RepresentsName(h, concrete, symbolic, progress, name);
      SpentStays(h, progress, i, p', name, concrete, symbolic);
    }
  }

  lemma {:induction false} ObserveTo(h: History, cs: seq<Config>, k: nat) returns (cs': seq<Config>)
    requires WellFormed(h) && Execution(h, cs)
    requires var c := cs[|cs| - 1]; c.cursor <= k <= |h.events| && BarriersMet(h, c.progress, c.cursor, k)
    ensures Execution(h, cs') && cs'[|cs'| - 1] == cs[|cs| - 1].(cursor := k)
    decreases k - cs[|cs| - 1].cursor
  {
    cs' := cs;
    var c := cs[|cs| - 1];
    if c.cursor < k {
      var next := c.(cursor := c.cursor + 1);
      ObservesExact(h, c, next);
      cs' := ObserveTo(h, cs + [next], k);
    }
  }

  /** Every replayed certificate is a legal execution up to its last boundary. */
  lemma {:induction false} ReplayExecutes(h: History, w: seq<Action>) returns (cs: seq<Config>)
    requires WellFormed(h) && Replay(h, w).Some?
    ensures Execution(h, cs)
    ensures var a, c := Replay(h, w).value, cs[|cs| - 1];
            c.cursor == a.cursor && c.progress == a.progress && Represents(h, c.state, a.state, a.progress)
    decreases |w|
  {
    if w == [] {
      InitialRepresents(h);
      return [Config(h.initial, map[], 0)];
    }
    var last := w[|w| - 1];
    cs := ReplayExecutes(h, w[..|w| - 1]);
    var a := Replay(h, w[..|w| - 1]).value;
    cs := ObserveTo(h, cs, last.before);
    var c := cs[|cs| - 1];
    var found := Matches(Transitions(h, last.op, a.state, ProgressOf(a.progress, last.op)), last.detail);
    var x := found[0];
    assert x in found;
    var s' := EffectBackward(h, last.op, c.state, a.state, a.progress, x);
    var next := Config(s', c.progress[last.op := x.progress], c.cursor);
    assert Affects(h, c, last.op, next);
    cs := cs + [next];
  }

  /** A certificate for the execution so far: its effects, each before the next recorded event. */
  ghost predicate Follows(h: History, w: seq<Action>, c: Config)
    requires WellFormed(h)
  {
    match Replay(h, w)
    case None => false
    case Some(a) =>
      && a.progress == c.progress && a.cursor <= c.cursor <= |h.events|
      && BarriersMet(h, a.progress, a.cursor, c.cursor) && Represents(h, c.state, a.state, a.progress)
  }

  lemma FollowEffect(h: History, w: seq<Action>, c: Config, i: nat, c': Config) returns (w': seq<Action>)
    requires WellFormed(h) && Follows(h, w, c) && Affects(h, c, i, c') && c.cursor < |h.events|
    ensures Follows(h, w', c')
  {
    var a := Replay(h, w).value;
    var x := EffectForward(h, i, c.state, a.state, a.progress, c'.state, c'.progress[i]);
    w' := w + [Action(i, c.cursor, x.detail)];
    ReplayNext(h, w, Action(i, c.cursor, x.detail));
    AppliesEffect(h, a, i, x, c.cursor);
  }

  lemma {:induction false} ExecutionReplays(h: History, cs: seq<Config>) returns (w: seq<Action>)
    requires WellFormed(h) && Execution(h, cs)
    ensures Certified(h, w) || Follows(h, w, cs[|cs| - 1])
    decreases |cs|
  {
    if |cs| == 1 {
      InitialRepresents(h);
      return [];
    }
    w := ExecutionReplays(h, cs[..|cs| - 1]);
    assert Steps(h, cs[|cs| - 2], cs[|cs| - 2 + 1]);
    if !Certified(h, w) {
      w := FollowStep(h, w, cs[|cs| - 2], cs[|cs| - 1]);
    }
  }

  lemma FollowObserve(h: History, w: seq<Action>, c: Config, c': Config)
    requires WellFormed(h) && Follows(h, w, c) && Observes(h, c, c')
    ensures Follows(h, w, c')
  {
    ObservesExact(h, c, c');
    BarriersNext(h, c.progress, Replay(h, w).value.cursor, c.cursor);
  }

  lemma BarriersNext(h: History, progress: map<nat, Progress>, lo: nat, hi: nat)
    requires WellFormed(h) && hi < |h.events| && BarriersMet(h, progress, lo, hi)
    requires h.events[hi].Ret? ==> BarrierMet(h, progress, hi)
    ensures BarriersMet(h, progress, lo, hi + 1)
  {
  }

  lemma FollowStep(h: History, w: seq<Action>, c: Config, c': Config) returns (w': seq<Action>)
    requires WellFormed(h) && Follows(h, w, c) && !Certified(h, w) && Steps(h, c, c')
    ensures Follows(h, w', c')
  {
    w' := w;
    if Observes(h, c, c') {
      FollowObserve(h, w, c, c');
    } else {
      var i :| Affects(h, c, i, c');
      w' := FollowEffect(h, w, c, i, c');
    }
  }

  /** A certificate exists exactly when the documented model explains the recorded history. */
  lemma CertifiedIffExplained(h: History)
    requires WellFormed(h)
    ensures (exists w :: Certified(h, w)) <==> Explained(h)
  {
    if w :| Certified(h, w) {
      var cs := ReplayExecutes(h, w);
      var done := ObserveTo(h, cs, |h.events|);
      assert Explained(h);
    }
    if Explained(h) {
      var cs: seq<Config> :| Execution(h, cs) && cs[|cs| - 1].cursor == |h.events|;
      var w := ExecutionReplays(h, cs);
      assert Certified(h, w);
    }
  }
}
