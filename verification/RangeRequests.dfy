/**
 What a range deletion that reported its chunks did, read off the states of an execution: it selected one
 snapshot after its invocation and deleted the reported chunks of it, in order, before it returned.
 */
module RangeRequests {
  import opened Wrappers
  import opened Histories
  import opened Certificates
  import opened HistorySpec

  // ----- the steps of one request

  /** Step `n` changes nothing while the stored keys of the range are exactly `keys`. */
  ghost predicate SelectsAt(h: History, cs: seq<Config>, i: nat, n: nat, keys: seq<string>) {
    && i < |h.ops| && h.ops[i].call.DeleteRange? && n + 1 < |cs|
    && h.ops[i].invocation < cs[n].cursor == cs[n + 1].cursor
    && cs[n + 1].state == cs[n].state && IsSnapshot(cs[n].state, h.ops[i].call, keys)
  }

  /** The entries of chunk `m` of the selected keys. */
  ghost function ChunkEntries(ks: nat, keys: seq<string>, chunk: nat, m: nat): set<(nat, string)> {
    set j | m * chunk <= j < (m + 1) * chunk && j < |keys| :: (ks, keys[j])
  }

  /** Step `n` removes exactly the entries of chunk `m`. */
  ghost predicate DeletesAt(h: History, cs: seq<Config>, i: nat, n: nat, keys: seq<string>, m: nat) {
    && i < |h.ops| && h.ops[i].call.DeleteRange? && n + 1 < |cs| && m * h.chunk < |keys|
    && cs[n].cursor == cs[n + 1].cursor && cs[n + 1].state.catalog == cs[n].state.catalog
    && cs[n + 1].state.kv == cs[n].state.kv - ChunkEntries(h.ops[i].call.ks, keys, h.chunk, m)
  }

  /** Before position `end`: the selection at `at[0]`, then chunk by chunk at `at[1]`, `at[2]` and so on. */
  ghost predicate Trail(h: History, cs: seq<Config>, i: nat, end: nat, keys: seq<string>, at: seq<nat>) {
    && at != [] && end <= |cs| && (forall m, n | 0 <= m < n < |at| :: at[m] < at[n])
    && (forall m | 0 <= m < |at| :: at[m] < end)
    && SelectsAt(h, cs, i, at[0], keys)
    && (forall m | 1 <= m < |at| :: DeletesAt(h, cs, i, at[m], keys, m - 1))
  }

  // ----- progress is what happened

  lemma ProgressStep(h: History, c: Config, c': Config, i: nat)
    requires WellFormed(h) && Steps(h, c, c') && i < |h.ops| && ProgressOf(c'.progress, i) != ProgressOf(c.progress, i)
    ensures i in c'.progress && c'.cursor == c.cursor && h.ops[i].invocation < c.cursor
    ensures SpecEffect(h, i, c.state, ProgressOf(c.progress, i), c'.state, c'.progress[i])
  {
    var j :| Affects(h, c, j, c');
    assert j == i;
  }

  lemma TrailStays(h: History, cs: seq<Config>, i: nat, end: nat, keys: seq<string>, at: seq<nat>)
    requires Trail(h, cs, i, end, keys, at) && end < |cs|
    ensures Trail(h, cs, i, end + 1, keys, at)
  {
  }

  lemma TrailSelects(h: History, cs: seq<Config>, i: nat, n: nat, keys: seq<string>)
    requires n + 1 < |cs| && SelectsAt(h, cs, i, n, keys)
    ensures Trail(h, cs, i, n + 1, keys, [n])
  {
  }

  lemma TrailDeletes(h: History, cs: seq<Config>, i: nat, n: nat, keys: seq<string>, at: seq<nat>)
    requires n + 1 < |cs| && Trail(h, cs, i, n, keys, at) && DeletesAt(h, cs, i, n, keys, |at| - 1)
    ensures Trail(h, cs, i, n + 1, keys, at + [n])
  {
    var all := at + [n];
    forall m | 1 <= m < |all| ensures DeletesAt(h, cs, i, all[m], keys, m - 1) {
      if m < |at| { assert DeletesAt(h, cs, i, at[m], keys, m - 1); }
    }
  }

  /** A request whose progress says `count` chunks has selected its keys and deleted that many chunks. */
  lemma {:induction false} RangeTrail(h: History, cs: seq<Config>, i: nat, n: nat, keys: seq<string>, count: nat)
    returns (at: seq<nat>)
    requires WellFormed(h) && Execution(h, cs) && n < |cs| && i < |h.ops|
    requires i in cs[n].progress && cs[n].progress[i] == Range(keys, count)
    ensures Trail(h, cs, i, n, keys, at) && |at| == count + 1
    ensures Reported(h.ops[i], h.chunk, keys, count)
    decreases n
  {
    assert n > 0;
    assert Steps(h, cs[n - 1], cs[n - 1 + 1]);
    var p := ProgressOf(cs[n - 1].progress, i);
    if p == Some(Range(keys, count)) {
      at := RangeTrail(h, cs, i, n - 1, keys, count);
      TrailStays(h, cs, i, n - 1, keys, at);
    } else {
      ProgressStep(h, cs[n - 1], cs[n], i);
      if p == None {
        at := [n - 1];
        TrailSelects(h, cs, i, n - 1, keys);
      } else {
        var before := RangeTrail(h, cs, i, n - 1, keys, count - 1);
        TrailDeletes(h, cs, i, n - 1, keys, before);
        at := before + [n - 1];
      }
    }
  }

  /** A confirmed request reported the chunks its keys fill and deleted no more; a partial one reported no more
      than they fill and deleted at most one beyond. */
  ghost predicate Reported(op: Operation, chunk: nat, keys: seq<string>, count: nat) {
    && (op.outcome == Ok ==> op.reply.Chunks? && FillsChunks(keys, chunk, op.reply.committed)
                             && count <= op.reply.committed)
    && (op.outcome == Unknown && op.reply.Chunks? ==>
          ReachesChunk(keys, chunk, op.reply.committed) && count <= op.reply.committed + 1)
  }

  // ----- what happened before the return

  /** The step that observes event `e`. */
  lemma {:induction false} PassedAt(h: History, cs: seq<Config>, n: nat, e: nat) returns (q: nat)
    requires WellFormed(h) && Execution(h, cs) && n < |cs| && e < cs[n].cursor
    ensures q < n && cs[q].cursor == e && Observes(h, cs[q], cs[q + 1])
  {
    assert n > 0;
    assert Steps(h, cs[n - 1], cs[n - 1 + 1]);
    if e < cs[n - 1].cursor {
      q := PassedAt(h, cs, n - 1, e);
    } else {
      q := n - 1;
    }
  }

  lemma {:induction false} CursorsAscend(h: History, cs: seq<Config>, m: nat, n: nat)
    requires WellFormed(h) && Execution(h, cs) && m <= n < |cs|
    ensures cs[m].cursor <= cs[n].cursor
    decreases n
  {
    if m < n {
      assert Steps(h, cs[n - 1], cs[n - 1 + 1]);
      CursorsAscend(h, cs, m, n - 1);
    }
  }

  /** In every execution past the return of a range deletion that reported its chunks, one snapshot was selected
      after the invocation and at least the reported chunks of it were deleted, in order, before the return;
      a confirmed deletion reported exactly the chunks of its snapshot. */
  lemma ReportedChunksDeleted(h: History, cs: seq<Config>, i: nat, n: nat)
    returns (keys: seq<string>, at: seq<nat>, q: nat)
    requires WellFormed(h) && Execution(h, cs) && n < |cs| && i < |h.ops| && h.ops[i].reply.Chunks?
    requires h.ops[i].response.Some? && h.ops[i].response.value < cs[n].cursor
    ensures q < n && cs[q].cursor == h.ops[i].response.value && Trail(h, cs, i, q, keys, at)
    ensures |at| >= h.ops[i].reply.committed + 1
    ensures forall m | 0 <= m < |at| :: h.ops[i].invocation < cs[at[m]].cursor <= h.ops[i].response.value
    ensures h.ops[i].outcome == Ok ==>
              FillsChunks(keys, h.chunk, h.ops[i].reply.committed) && |at| == h.ops[i].reply.committed + 1
    ensures h.ops[i].outcome == Unknown ==> |at| <= h.ops[i].reply.committed + 2
  {
    assert OperationFits(h, i);
    q := PassedAt(h, cs, n, h.ops[i].response.value);
    var p := ProgressOf(cs[q].progress, i).value;
    keys := p.keys;
    at := RangeTrail(h, cs, i, q, p.keys, p.count);
    forall m | 0 <= m < |at| ensures h.ops[i].invocation < cs[at[m]].cursor <= cs[q].cursor {
      CursorsAscend(h, cs, at[0], at[m]);
      CursorsAscend(h, cs, at[m], q);
    }
  }
}
