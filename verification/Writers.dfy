/** Which call of a run wrote a value: across initialization and traffic, no two calls write the same one. */
module Writers {
  import opened Wrappers
  import opened Mixer
  import opened Histories
  import opened HistorySpec
  import opened Workload
  import opened Provenance

  ghost predicate Writes(c: Call, x: string) {
    match c
    case Put(_, _, value) => value == x
    case BatchPut(_, pairs) => exists k :: 0 <= k < |pairs| && pairs[k].1 == x
    case _ => false
  }

  lemma {:induction false} LastPairListed(pairs: seq<(string, string)>, key: string)
    requires LastPair(pairs, key).Some?
    ensures exists k :: 0 <= k < |pairs| && pairs[k].1 == LastPair(pairs, key).value
  {
    if LastPair(pairs[1..], key).Some? {
      LastPairListed(pairs[1..], key);
      var k :| 0 <= k < |pairs[1..]| && pairs[1..][k].1 == LastPair(pairs, key).value;
      assert pairs[k + 1] == pairs[1..][k];
    } else {
      assert pairs[0].1 == LastPair(pairs, key).value;
    }
  }

  lemma LeavesWrites(c: Call, e: Entry, x: string)
    requires Leaves(c, e) == Some(Some(x))
    ensures Writes(c, x)
  {
    if c.BatchPut? { LastPairListed(c.pairs, e.1); }
  }

  /** Writer and item are determined by the value. */
  lemma ValueInjective(c: Config, nonce: nat, item: nat, nonce': nat, item': nat)
    requires c.valueBytes >= 16 && nonce < M && item < M && nonce' < M && item' < M
    requires Value(c, nonce, item) == Value(c, nonce', item')
    ensures nonce == nonce' && item == item'
  {
    ValueIdentifiesWriter(c, nonce, item);
    ValueIdentifiesWriter(c, nonce', item');
  }

  /** A traffic call writes only values of its own nonce. */
  lemma TrafficValue(c: Config, nonce: nat, x: string) returns (item: nat)
    requires Legal(c) && Writes(Generated(c, nonce), x)
    ensures item < c.batch && x == Value(c, nonce + 1, item)
  {
    item := 0;
    if KindOf(c, nonce) == BatchPutKind {
      var pairs := Generated(c, nonce).pairs;
      item :| 0 <= item < |pairs| && pairs[item].1 == x;
    }
  }

  lemma {:induction false} GroupsFrom(first: nat, end: nat, batch: nat, p: nat, i: nat)
    requires batch >= 1 && p < |Groups(first, end, batch)| && i in Groups(first, end, batch)[p]
    ensures first <= i < end && (p > 0 ==> first + batch <= i) && (p == 0 ==> i < first + batch)
    decreases p
  {
    var gs := Groups(first, end, batch);
    var k :| 0 <= k < |gs[p]| && gs[p][k] == i;
    if p > 0 {
      GroupsFrom(first + batch, end, batch, p - 1, i);
    }
  }

  /** An item belongs to one group. */
  lemma {:induction false} GroupsDisjoint(first: nat, end: nat, batch: nat, p: nat, q: nat, i: nat)
    requires batch >= 1 && p < |Groups(first, end, batch)| && q < |Groups(first, end, batch)|
    requires i in Groups(first, end, batch)[p] && i in Groups(first, end, batch)[q]
    ensures p == q
    decreases p
  {
    GroupsFrom(first, end, batch, p, i);
    GroupsFrom(first, end, batch, q, i);
    if p > 0 && q > 0 {
      GroupsDisjoint(first + batch, end, batch, p - 1, q - 1, i);
    }
  }

  // ----- where a value comes from

  /** A traffic nonce, or a place among the initialization calls. */
  datatype Origin = FromTraffic(nonce: nat) | FromSetup(place: nat)

  ghost predicate Bounds(c: Config) {
    1 <= c.keys <= 256 && c.batch >= 1 && c.valueBytes >= 16
  }

  ghost predicate ChunkValue(c: Config, group: seq<nat>, x: string)
    requires Bounds(c)
  {
    exists j :: 0 <= j < |group| && x == Value(c, 0, group[j])
  }

  ghost predicate WriterValue(c: Config, writer: nat, x: string)
    requires Bounds(c)
  {
    exists item: nat :: item < M && x == Value(c, writer, item)
  }

  ghost predicate Stamped(c: Config, o: Origin, x: string)
    requires Bounds(c)
  {
    match o
    case FromTraffic(nonce) => nonce < M - 1 && WriterValue(c, nonce + 1, x)
    case FromSetup(place) =>
      var gs := Groups(0, c.keys + 1, c.batch);
      |gs| <= place < 2 * |gs| && ChunkValue(c, gs[place - |gs|], x)
  }

  lemma TrafficStamped(c: Config, nonce: nat, x: string)
    requires Legal(c) && nonce < c.maxCalls && Writes(Generated(c, nonce), x)
    ensures Stamped(c, FromTraffic(nonce), x)
  {
    var item := TrafficValue(c, nonce, x);
  }

  lemma WriteChunkWrites(c: Config, group: seq<nat>, x: string)
    requires Legal(c)
    ensures Writes(WriteChunk(c, group), x) <==> ChunkValue(c, group, x)
    ensures !Writes(ReadChunk(c, group), x)
  {
    var pairs := WriteChunk(c, group).pairs;
    assert |pairs| == |group| && forall k | 0 <= k < |group| :: pairs[k].1 == Value(c, 0, group[k]);
    if j :| 0 <= j < |group| && x == Value(c, 0, group[j]) { assert pairs[j].1 == x; }
  }

  /** Initialization writes an item's value in the chunk that holds the item. */
  lemma SetupStamped(c: Config, gs: seq<seq<nat>>, k: nat, x: string)
    requires Legal(c) && gs == Groups(0, c.keys + 1, c.batch) && k < |SetupCalls(c)|
    ensures |SetupCalls(c)| == 2 * |gs|
    ensures Writes(SetupCalls(c)[k], x) <==> Stamped(c, FromSetup(k), x)
  {
    if k < |gs| {
      WriteChunkWrites(c, gs[k], x);
    } else {
      WriteChunkWrites(c, gs[k - |gs|], x);
    }
  }

  lemma ChunkItem(c: Config, gs: seq<seq<nat>>, p: nat, x: string) returns (item: nat)
    requires Bounds(c) && gs == Groups(0, c.keys + 1, c.batch) && p < |gs| && ChunkValue(c, gs[p], x)
    ensures item <= c.keys && item in gs[p] && x == Value(c, 0, item)
  {
    var j :| 0 <= j < |gs[p]| && x == Value(c, 0, gs[p][j]);
    item := gs[p][j];
    GroupsFrom(0, c.keys + 1, c.batch, p, item);
  }

  /** A value has one origin. */
  lemma OriginUnique(c: Config, o: Origin, o': Origin, x: string)
    requires Bounds(c) && Stamped(c, o, x) && Stamped(c, o', x)
    ensures o == o'
  {
    var gs := Groups(0, c.keys + 1, c.batch);
    var nonce, item := Stamp(c, gs, o, x);
    var nonce', item' := Stamp(c, gs, o', x);
    ValueInjective(c, nonce, item, nonce', item');
    if o.FromSetup? && o'.FromSetup? {
      GroupsDisjoint(0, c.keys + 1, c.batch, o.place - |gs|, o'.place - |gs|, item);
    }
  }

  lemma Stamp(c: Config, gs: seq<seq<nat>>, o: Origin, x: string) returns (nonce: nat, item: nat)
    requires Bounds(c) && gs == Groups(0, c.keys + 1, c.batch) && Stamped(c, o, x)
    ensures nonce < M && item < M && x == Value(c, nonce, item) && nonce == if o.FromTraffic? then o.nonce + 1 else 0
    ensures o.FromSetup? ==> |gs| <= o.place < 2 * |gs| && item in gs[o.place - |gs|]
  {
    if o.FromTraffic? {
      nonce := o.nonce + 1;
      item :| item < M && x == Value(c, nonce, item);
    } else {
      nonce := 0;
      item := ChunkItem(c, gs, o.place - |gs|, x);
    }
  }

  /** Traffic never touches the sentinel item. */
  lemma SentinelUntouched(c: Config, nonce: nat)
    requires Legal(c)
    ensures Leaves(Generated(c, nonce), (c.keyspace, Key(c, c.keys))) == None
  {
    var call, sentinel := Generated(c, nonce), Key(c, c.keys);
    forall i: nat | i < c.keys ensures Key(c, i) != sentinel {
      if Key(c, i) == sentinel { KeyInjective(c, i, c.keys); }
    }
    if call.BatchPut? {
      forall k | 0 <= k < |call.pairs| ensures call.pairs[k].0 != sentinel {
        assert call.pairs[k].0 == Key(c, Item(c, nonce, k));
      }
      NoPair(call.pairs, sentinel);
    }
  }

  lemma {:induction false} NoPair(pairs: seq<(string, string)>, key: string)
    requires forall k | 0 <= k < |pairs| :: pairs[k].0 != key
    ensures LastPair(pairs, key) == None
  {
    if pairs != [] { NoPair(pairs[1..], key); }
  }
}
