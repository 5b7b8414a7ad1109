/**
 The measured cohort: sequential workers that start no call at or after the cutoff, the slots each
 worker owns under a fixed rate, and the arithmetic a report of such a cohort must satisfy.
 */
module Cohort {
  import opened Wrappers
  import opened Buckets
  import opened Counting
  import opened Samples

  // ----- strided slot ownership

  /** The length of Python's `range(i, offered, stride)`. */
  function Owned(i: nat, offered: nat, stride: nat): nat
    requires stride >= 1
    decreases if i < offered then offered - i else 0
  {
    if i >= offered then 0 else 1 + Owned(i + stride, offered, stride)
  }

  /** One more slot goes to exactly the worker whose residue it has. */
  lemma {:induction false} OwnedNext(i: nat, offered: nat, stride: nat)
    requires stride >= 1
    ensures Owned(i, offered + 1, stride)
            == Owned(i, offered, stride) + if i <= offered && (offered - i) % stride == 0 then 1 else 0
    decreases if i < offered then offered - i else 0
  {
    if i < offered {
      OwnedNext(i + stride, offered, stride);
      if i + stride <= offered {
        assert (offered - i) % stride == (offered - i - stride) % stride by { ModShift(offered - i, stride); }
      } else {
        assert (offered - i) % stride == offered - i;
      }
    } else if i == offered {
      assert Owned(i + stride, offered + 1, stride) == 0;
    }
  }

  function OwnedSum(workers: nat, offered: nat, stride: nat): nat
    requires stride >= 1
  {
    if workers == 0 then 0 else OwnedSum(workers - 1, offered, stride) + Owned(workers - 1, offered, stride)
  }

  lemma {:induction false} OwnedSumNext(workers: nat, offered: nat, stride: nat)
    requires stride >= 1 && workers <= stride
    ensures OwnedSum(workers, offered + 1, stride)
            == OwnedSum(workers, offered, stride) + if offered % stride < workers then 1 else 0
  {
    if workers > 0 {
      OwnedSumNext(workers - 1, offered, stride);
      OwnedNext(workers - 1, offered, stride);
      SameResidue(workers - 1, offered, stride);
    }
  }

  lemma SameResidue(i: nat, offered: nat, stride: nat)
    requires i < stride
    ensures i <= offered && (offered - i) % stride == 0 <==> offered % stride == i
  {
    if offered % stride == i {
      var q := offered / stride;
      assert offered - i == stride * q;
      DivModUnique(offered - i, stride, q, 0);
    }
    if i <= offered && (offered - i) % stride == 0 {
      DivModUnique(offered, stride, (offered - i) / stride, i);
    }
  }

  /** The workers' slots add up to everything offered: none is lost or issued twice. */
  lemma {:induction false} OwnedTotal(offered: nat, stride: nat)
    requires stride >= 1
    ensures OwnedSum(stride, offered, stride) == offered
  {
    if offered == 0 {
      NoneOwned(stride, stride);
    } else {
      OwnedTotal(offered - 1, stride);
      OwnedSumNext(stride, offered - 1, stride);
    }
  }

  lemma {:induction false} NoneOwned(workers: nat, stride: nat)
    requires stride >= 1
    ensures OwnedSum(workers, 0, stride) == 0
  {
    if workers > 0 { NoneOwned(workers - 1, stride); }
  }

  function Offered(measureMs: nat, rate: nat): nat {
    (measureMs * rate + 999) / 1000
  }

  /** A slot is offered exactly when its due time falls inside the measurement. */
  lemma OfferedExactly(measureMs: nat, rate: nat, index: nat)
    ensures index < Offered(measureMs, rate) <==> index * 1000 < measureMs * rate
  {
  }

  // ----- sequential workers

  datatype Span = Span(start: int, end: int)

  /** A worker's calls in order, and how many of its slots it dropped. */
  datatype Run = Run(calls: seq<Span>, dropped: nat, stopped: int)

  /** Calls follow one another, and none starts at or after the cutoff. */
  ghost predicate Sequential(calls: seq<Span>, cutoff: int) {
    && (forall k | 0 <= k < |calls| :: 0 <= calls[k].start <= calls[k].end && calls[k].start < cutoff)
    && (forall k | 0 <= k < |calls| - 1 :: calls[k].end <= calls[k + 1].start)
  }

  function LastTerminal(calls: seq<Span>): int {
    if calls == [] then 0 else calls[|calls| - 1].end
  }

  function EndedBefore(calls: seq<Span>, cutoff: int): nat {
    if calls == [] then 0 else (if calls[0].end < cutoff then 1 else 0) + EndedBefore(calls[1..], cutoff)
  }

  function Durations(calls: seq<Span>): int {
    if calls == [] then 0 else calls[0].end - calls[0].start + Durations(calls[1..])
  }

  /** The run of a worker that reported no failure. */
  ghost predicate Genuine(run: Run, cutoff: int) {
    && Sequential(run.calls, cutoff) && LastTerminal(run.calls) <= run.stopped
    && (run.calls != [] ==> LastTerminal(run.calls) > 0)
  }

  /** At most the last call of a worker ends at or after the cutoff. */
  lemma {:induction false} OnlyLastAfter(calls: seq<Span>, cutoff: int)
    requires Sequential(calls, cutoff)
    ensures EndedBefore(calls, cutoff) == |calls| - if calls != [] && LastTerminal(calls) >= cutoff then 1 else 0
  {
    if |calls| > 1 {
      OnlyLastAfter(calls[1..], cutoff);
    } else if |calls| == 1 {
      assert calls[1..] == [];
    }
  }

  /** Calls of one worker do not overlap, so their durations fit before its last terminal; a call
      that ends past the cutoff started before it. */
  lemma {:induction false} DurationsFit(calls: seq<Span>, cutoff: int)
    requires Sequential(calls, cutoff) && cutoff >= 1
    ensures calls != [] ==> Durations(calls) <= LastTerminal(calls) - calls[0].start
    ensures LeastDuration(LastTerminal(calls), cutoff) <= Durations(calls) <= LastTerminal(calls)
    ensures forall k | 0 <= k < |calls| :: calls[k].end - calls[k].start <= LastTerminal(calls)
  {
    if calls != [] {
      DurationsFit(calls[1..], cutoff);
      assert |calls| > 1 ==> calls[1] == calls[1..][0];
      forall k | 0 <= k < |calls| ensures calls[k].end - calls[k].start <= LastTerminal(calls) {
        assert k > 0 ==> calls[k] == calls[1..][k - 1];
        if |calls| > 1 { assert LastTerminal(calls[1..]) == LastTerminal(calls); }
      }
    }
  }

  /** A terminal after the cutoff belongs to a call at least this long. */
  function LeastDuration(last: int, cutoff: int): int {
    if last >= cutoff then last - cutoff + 1 else 0
  }

  // ----- what the report says about the workers

  datatype Record = Record(issued: int, dropped: int, last: int, stopped: int, failed: bool)

  /** Cohort totals; `offered` is absent in a closed loop. */
  datatype Totals = Totals(issued: int, dropped: int, offered: Option<nat>, beforeCutoff: int, durations: int)

  predicate RecordFits(w: Record, i: nat, t: Totals, workers: nat)
    requires workers >= 1
  {
    && 0 <= w.issued <= t.issued && 0 <= w.dropped <= t.dropped && 0 <= w.last <= w.stopped <= U64 && !w.failed
    && (w.issued == 0 <==> w.last == 0)
    && (t.offered.Some? ==> w.issued + w.dropped == Owned(i, t.offered.value, workers))
  }

  function Issues(): Record -> int { (w: Record) => w.issued }

  function Drops(): Record -> int { (w: Record) => w.dropped }

  function Lasts(): Record -> int { (w: Record) => w.last }

  function EndsLate(cutoff: int): Record -> int {
    (w: Record) => if w.issued > 0 && w.last >= cutoff then 1 else 0
  }

  function Needs(cutoff: int): Record -> int { (w: Record) => LeastDuration(w.last, cutoff) }

  ghost predicate Accepts(ws: seq<Record>, t: Totals, workers: nat, cutoff: int)
    requires workers >= 1
  {
    && |ws| == workers && RecordsFit(ws, |ws|, t, workers)
    && (if t.offered.None? then t.dropped == 0 else t.issued + t.dropped == t.offered.value)
    && Sum(Values(ws, Issues())) == t.issued && Sum(Values(ws, Drops())) == t.dropped
    && t.beforeCutoff == t.issued - Sum(Values(ws, EndsLate(cutoff)))
    && t.durations <= Sum(Values(ws, Lasts()))
  }

  ghost predicate RecordsFit(ws: seq<Record>, n: nat, t: Totals, workers: nat)
    requires workers >= 1
  {
    n <= |ws| && forall i | 0 <= i < n :: RecordFits(ws[i], i, t, workers)
  }

  lemma RecordsFitNext(ws: seq<Record>, n: nat, t: Totals, workers: nat)
    requires workers >= 1 && n < |ws| && RecordsFit(ws, n, t, workers) && RecordFits(ws[n], n, t, workers)
    ensures RecordsFit(ws, n + 1, t, workers)
  {
  }

  /** Evaluates the worker loop and the cutoff arithmetic. */
  method CohortCheck(ws: seq<Record>, t: Totals, workers: nat, cutoff: int) returns (ok: bool)
    requires workers >= 1
    ensures ok <==> Accepts(ws, t, workers, cutoff)
  {
    if (if t.offered.None? then t.dropped != 0 else t.issued + t.dropped != t.offered.value) || |ws| != workers {
      return false;
    }
    var issued, dropped, late, last := 0, 0, 0, 0;
    for i := 0 to |ws|
      invariant RecordsFit(ws, i, t, workers)
      invariant Summed(ws[..i], cutoff, issued, dropped, late, last)
    {
      if !RecordFits(ws[i], i, t, workers) {
        return false;
      }
      RecordsFitNext(ws, i, t, workers);
      SummedNext(ws, cutoff, i, issued, dropped, late, last);
      issued, dropped, last := issued + ws[i].issued, dropped + ws[i].dropped, last + ws[i].last;
      late := late + (if ws[i].issued > 0 && ws[i].last >= cutoff then 1 else 0);
    }
    assert ws[..|ws|] == ws;
    ok := issued == t.issued && dropped == t.dropped && t.beforeCutoff == t.issued - late && t.durations <= last;
  }

  /** The sums over the workers so far. */
  ghost predicate Summed(ws: seq<Record>, cutoff: int, issued: int, dropped: int, late: int, last: int) {
    && issued == Sum(Values(ws, Issues())) && dropped == Sum(Values(ws, Drops()))
    && late == Sum(Values(ws, EndsLate(cutoff))) && last == Sum(Values(ws, Lasts()))
  }

  lemma SummedNext(ws: seq<Record>, cutoff: int, i: nat, issued: int, dropped: int, late: int, last: int)
    requires i < |ws| && Summed(ws[..i], cutoff, issued, dropped, late, last)
    ensures Summed(ws[..i + 1], cutoff, issued + ws[i].issued, dropped + ws[i].dropped,
                   late + (if ws[i].issued > 0 && ws[i].last >= cutoff then 1 else 0), last + ws[i].last)
  {
    ColumnNext(ws, Issues(), i);
    ColumnNext(ws, Drops(), i);
    ColumnNext(ws, EndsLate(cutoff), i);
    ColumnNext(ws, Lasts(), i);
  }

  lemma ColumnNext<T>(s: seq<T>, f: T -> int, i: nat)
    requires i < |s|
    ensures Sum(Values(s[..i + 1], f)) == Sum(Values(s[..i], f)) + f(s[i])
  {
    SumLast(Values(s[..i + 1], f));
    assert Values(s[..i + 1], f)[..i] == Values(s[..i], f);
  }

  // ----- reports of genuine cohorts

  function CallCount(): Run -> int { (r: Run) => |r.calls| }

  function DropCount(): Run -> int { (r: Run) => r.dropped }

  function BeforeCount(cutoff: int): Run -> int { (r: Run) => EndedBefore(r.calls, cutoff) }

  function TotalDuration(): Run -> int { (r: Run) => Durations(r.calls) }

  /** The report these runs produce. */
  ghost predicate Reports(runs: seq<Run>, ws: seq<Record>, t: Totals, workers: nat, cutoff: int)
    requires workers >= 1
  {
    && |runs| == |ws| == workers
    && (forall i | 0 <= i < workers :: Genuine(runs[i], cutoff) && RunFits(runs[i], ws[i], i, t, workers))
    && t.issued == Sum(Values(runs, CallCount())) && t.dropped == Sum(Values(runs, DropCount()))
    && t.beforeCutoff == Sum(Values(runs, BeforeCount(cutoff)))
    && t.durations == Sum(Values(runs, TotalDuration()))
  }

  /** The worker's record, and every slot it owns issued or dropped. */
  ghost predicate RunFits(run: Run, w: Record, i: nat, t: Totals, workers: nat)
    requires workers >= 1
  {
    && w == Record(|run.calls|, run.dropped, LastTerminal(run.calls), run.stopped, false) && run.stopped <= U64
    && (match t.offered
        case Some(offered) => |run.calls| + run.dropped == Owned(i, offered, workers)
        case None => run.dropped == 0)
  }

  lemma GenuineColumns(runs: seq<Run>, ws: seq<Record>, t: Totals, workers: nat, cutoff: int)
    requires workers >= 1 && Reports(runs, ws, t, workers, cutoff)
    ensures Sum(Values(ws, Issues())) == t.issued && Sum(Values(ws, Drops())) == t.dropped
    ensures forall i | 0 <= i < workers :: RecordFits(ws[i], i, t, workers)
  {
    var issued, dropped := Values(ws, Issues()), Values(ws, Drops());
    forall i | 0 <= i < workers ensures issued[i] == |runs[i].calls| && dropped[i] == runs[i].dropped {
      assert RunFits(runs[i], ws[i], i, t, workers);
    }
    assert issued == Values(runs, CallCount()) && dropped == Values(runs, DropCount());
    SumNonNegative(issued);
    SumNonNegative(dropped);
    forall i | 0 <= i < workers ensures RecordFits(ws[i], i, t, workers) {
      assert Genuine(runs[i], cutoff) && RunFits(runs[i], ws[i], i, t, workers);
      LastNonNegative(runs[i].calls, cutoff);
      assert issued[i] == ws[i].issued && dropped[i] == ws[i].dropped;
    }
  }

  lemma LastNonNegative(calls: seq<Span>, cutoff: int)
    requires Sequential(calls, cutoff)
    ensures LastTerminal(calls) >= 0
  {
  }

  lemma {:induction false} SumAdds(a: seq<int>, b: seq<int>, c: seq<int>)
    requires |a| == |b| == |c| && forall k | 0 <= k < |a| :: a[k] + b[k] == c[k]
    ensures Sum(a) + Sum(b) == Sum(c)
  {
    if a != [] { SumAdds(a[1..], b[1..], c[1..]); }
  }

  /** Completions before the cutoff are all calls but the workers' late tails. */
  lemma TailsLate(runs: seq<Run>, ws: seq<Record>, t: Totals, workers: nat, cutoff: int)
    requires workers >= 1 && |runs| == |ws| == workers
    requires forall i | 0 <= i < workers :: Genuine(runs[i], cutoff) && RunFits(runs[i], ws[i], i, t, workers)
    ensures Sum(Values(runs, BeforeCount(cutoff))) == Sum(Values(runs, CallCount())) - Sum(Values(ws, EndsLate(cutoff)))
  {
    var before, issued := Values(runs, BeforeCount(cutoff)), Values(runs, CallCount());
    var late := Values(ws, EndsLate(cutoff));
    forall i | 0 <= i < workers ensures before[i] + late[i] == issued[i] {
      assert Genuine(runs[i], cutoff) && RunFits(runs[i], ws[i], i, t, workers);
      OnlyLastAfter(runs[i].calls, cutoff);
    }
    SumAdds(before, late, issued);
  }

  /** The summed durations lie between what the late tails force and the last terminals. */
  lemma GenuineDurations(runs: seq<Run>, ws: seq<Record>, t: Totals, workers: nat, cutoff: int)
    requires workers >= 1 && cutoff >= 1 && Reports(runs, ws, t, workers, cutoff)
    ensures Sum(Values(ws, Needs(cutoff))) <= t.durations <= Sum(Values(ws, Lasts()))
  {
    var durations := Values(runs, TotalDuration());
    forall i | 0 <= i < workers ensures LeastDuration(ws[i].last, cutoff) <= durations[i] <= ws[i].last {
      assert Genuine(runs[i], cutoff) && RunFits(runs[i], ws[i], i, t, workers);
      DurationsFit(runs[i].calls, cutoff);
    }
    SumOrdered(Values(ws, Needs(cutoff)), durations);
    SumOrdered(durations, Values(ws, Lasts()));
  }

  /** Per-worker slot counts force the global issued-plus-dropped total. */
  lemma SlotsForceTotal(ws: seq<Record>, t: Totals, workers: nat)
    requires workers >= 1 && |ws| == workers && t.offered.Some?
    requires forall i | 0 <= i < workers :: RecordFits(ws[i], i, t, workers)
    ensures Sum(Values(ws, Issues())) + Sum(Values(ws, Drops())) == t.offered.value
  {
    var owned: seq<int> := seq(workers, i requires 0 <= i < workers => Owned(i, t.offered.value, workers));
    SumAdds(Values(ws, Issues()), Values(ws, Drops()), owned);
    OwnedValues(owned, t.offered.value, workers, workers);
    assert owned[..workers] == owned;
    OwnedTotal(t.offered.value, workers);
  }

  lemma {:induction false} OwnedValues(owned: seq<int>, offered: nat, stride: nat, n: nat)
    requires stride >= 1 && n <= |owned| && forall i | 0 <= i < n :: owned[i] == Owned(i, offered, stride)
    ensures Sum(owned[..n]) == OwnedSum(n, offered, stride)
  {
    if n > 0 {
      OwnedValues(owned, offered, stride, n - 1);
      SumLast(owned[..n]);
      assert owned[..n][..n - 1] == owned[..n - 1];
    }
  }

  /** Every report of a genuine cohort is accepted. */
  lemma GenuineAccepted(runs: seq<Run>, ws: seq<Record>, t: Totals, workers: nat, cutoff: int)
    requires workers >= 1 && cutoff >= 1 && Reports(runs, ws, t, workers, cutoff)
    ensures Accepts(ws, t, workers, cutoff) && Sum(Values(ws, Needs(cutoff))) <= t.durations
  {
    GenuineColumns(runs, ws, t, workers, cutoff);
    TailsLate(runs, ws, t, workers, cutoff);
    GenuineDurations(runs, ws, t, workers, cutoff);
    if t.offered.Some? {
      SlotsForceTotal(ws, t, workers);
    } else {
      forall i | 0 <= i < workers ensures Values(ws, Drops())[i] == 0 { assert RunFits(runs[i], ws[i], i, t, workers); }
      SumConstant(Values(ws, Drops()), 0);
    }
  }

  // ----- accepted reports that are genuine

  /** Calls with a given count, last terminal and total duration: the last one carries it all. */
  function Schedule(issued: nat, last: int, duration: int): seq<Span> {
    if issued == 0 then [] else seq(issued - 1, _ => Span(0, 0)) + [Span(last - duration, last)]
  }

  lemma {:induction false} ScheduleDurations(n: nat, tail: Span)
    ensures Durations(seq(n, _ => Span(0, 0)) + [tail]) == tail.end - tail.start
  {
    var calls := seq(n, _ => Span(0, 0)) + [tail];
    if n > 0 {
      assert calls[1..] == seq(n - 1, _ => Span(0, 0)) + [tail];
      ScheduleDurations(n - 1, tail);
    } else {
      assert calls[1..] == [];
    }
  }

  lemma ScheduleFits(w: Record, i: nat, t: Totals, workers: nat, cutoff: int, duration: int) returns (run: Run)
    requires workers >= 1 && cutoff >= 1 && RecordFits(w, i, t, workers) && (t.offered.None? ==> w.dropped == 0)
    requires LeastDuration(w.last, cutoff) <= duration <= w.last
    ensures Genuine(run, cutoff) && RunFits(run, w, i, t, workers) && Durations(run.calls) == duration
  {
    run := Run(Schedule(w.issued, w.last, duration), w.dropped, w.stopped);
    if w.issued > 0 { ScheduleDurations(w.issued - 1, Span(w.last - duration, w.last)); }
  }

  lemma {:induction false} ScheduleAll(ws: seq<Record>, t: Totals, workers: nat, cutoff: int, ds: seq<int>, n: nat)
    returns (runs: seq<Run>)
    requires workers >= 1 && cutoff >= 1 && n <= |ws| == |ds|
    requires forall i | 0 <= i < |ws| :: RecordFits(ws[i], i, t, workers) && (t.offered.None? ==> ws[i].dropped == 0)
    requires forall i | 0 <= i < |ws| :: LeastDuration(ws[i].last, cutoff) <= ds[i] <= ws[i].last
    ensures |runs| == n
    ensures forall i | 0 <= i < n ::
              Genuine(runs[i], cutoff) && RunFits(runs[i], ws[i], i, t, workers) && Durations(runs[i].calls) == ds[i]
  {
    if n == 0 {
      return [];
    }
    runs := ScheduleAll(ws, t, workers, cutoff, ds, n - 1);
    var run := ScheduleFits(ws[n - 1], n - 1, t, workers, cutoff, ds[n - 1]);
    runs := runs + [run];
  }

  /** The check plus one bound it leaves out, that the durations cover what the late tails force,
      accepts exactly the reports of genuine cohorts. */
  lemma CohortExact(ws: seq<Record>, t: Totals, workers: nat, cutoff: int)
    requires workers >= 1 && cutoff >= 1
    ensures (exists runs :: Reports(runs, ws, t, workers, cutoff)) <==>
            Accepts(ws, t, workers, cutoff) && Sum(Values(ws, Needs(cutoff))) <= t.durations
  {
    forall runs | Reports(runs, ws, t, workers, cutoff)
      ensures Accepts(ws, t, workers, cutoff) && Sum(Values(ws, Needs(cutoff))) <= t.durations
    {
      GenuineAccepted(runs, ws, t, workers, cutoff);
    }
    if Accepts(ws, t, workers, cutoff) && Sum(Values(ws, Needs(cutoff))) <= t.durations {
      var runs := Rebuild(ws, t, workers, cutoff);
    }
  }

  lemma Rebuild(ws: seq<Record>, t: Totals, workers: nat, cutoff: int) returns (runs: seq<Run>)
    requires workers >= 1 && cutoff >= 1
    requires Accepts(ws, t, workers, cutoff) && Sum(Values(ws, Needs(cutoff))) <= t.durations
    ensures Reports(runs, ws, t, workers, cutoff)
  {
    var ds := Choose(Values(ws, Needs(cutoff)), Values(ws, Lasts()), t.durations);
    if t.offered.None? {
      SumNonNegative(Values(ws, Drops()));
      assert forall i | 0 <= i < |ws| :: Values(ws, Drops())[i] == ws[i].dropped;
    }
    runs := ScheduleAll(ws, t, workers, cutoff, ds, |ws|);
    assert Values(runs, TotalDuration()) == ds;
    assert Values(runs, CallCount()) == Values(ws, Issues()) by {
      forall i | 0 <= i < workers ensures |runs[i].calls| == ws[i].issued {
        assert RunFits(runs[i], ws[i], i, t, workers);
      }
    }
    assert Values(runs, DropCount()) == Values(ws, Drops()) by {
      forall i | 0 <= i < workers ensures runs[i].dropped == ws[i].dropped {
        assert RunFits(runs[i], ws[i], i, t, workers);
      }
    }
    TailsLate(runs, ws, t, workers, cutoff);
  }

  /** One call that ends `excess` nanoseconds past the cutoff of a measurement, reported with any duration
      of at most `excess`, passes the check although no such call exists. */
  lemma ShortTailUnnoticed(measureMs: nat, excess: nat, duration: nat) returns (w: Record, t: Totals)
    requires 1 <= measureMs <= 60_000 && measureMs * 1_000_000 + excess <= U64 && duration <= excess
    ensures var cutoff := measureMs * 1_000_000;
            && w == Record(1, 0, cutoff + excess, cutoff + excess, false) && t == Totals(1, 0, None, 0, duration)
            && Accepts([w], t, 1, cutoff) && !exists runs :: Reports(runs, [w], t, 1, cutoff)
  {
    var cutoff := measureMs * 1_000_000;
    w := Record(1, 0, cutoff + excess, cutoff + excess, false);
    t := Totals(1, 0, None, 0, duration);
    SumOne(Values([w], Issues()));
    SumOne(Values([w], Drops()));
    SumOne(Values([w], Lasts()));
    SumOne(Values([w], EndsLate(cutoff)));
    SumOne(Values([w], Needs(cutoff)));
    CohortExact([w], t, 1, cutoff);
  }

  lemma SumOne(s: seq<int>)
    requires |s| == 1
    ensures Sum(s) == s[0]
  {
    assert s[1..] == [];
  }
}
