/** Routing a setup or probe RPC: retries follow only explicit refusals, within one deadline. */
module Router {
  import opened Wrappers

  // ----- refusals

  datatype Result = Result(returncode: int, stdout: string, stderr: string)

  /** How a refusal line begins, and the line the relay adds after a remote exit 1. */
  datatype Wording = Wording(prefix: string, relay: string)

  const KV9 := Wording("not_leader=true leader_node_id=", "command terminated with exit code 1\n")

  predicate IsDigit(ch: char) { '0' <= ch <= '9' }

  /** `[1-9][0-9]*` or `unknown`. */
  predicate NodeText(id: string) {
    id == "unknown" || (id != "" && id[0] != '0' && forall k | 0 <= k < |id| :: IsDigit(id[k]))
  }

  /** The position of the first newline, or the length. */
  function LineEnd(s: string): (n: nat)
    ensures n <= |s| && (forall k | 0 <= k < n :: s[k] != '\n') && (n < |s| ==> s[n] == '\n')
  {
    if s == "" || s[0] == '\n' then 0 else 1 + LineEnd(s[1..])
  }

  /** The whole text is one line naming a node after `prefix`, perhaps followed by `relay`. */
  predicate LineMatches(s: string, prefix: string, relay: string) {
    prefix <= s &&
    var rest := s[|prefix|..];
    var n := LineEnd(rest);
    n < |rest| && NodeText(rest[..n]) && (rest[n + 1..] == "" || rest[n + 1..] == relay)
  }

  predicate Refused(text: Wording, r: Result) {
    r.returncode == 1 && r.stdout == "" && LineMatches(r.stderr, text.prefix, text.relay)
  }

  function Decimal(n: nat): (s: string)
    ensures s != "" && forall k | 0 <= k < |s| :: IsDigit(s[k])
  {
    var d := [('0' as int + n % 10) as char];
    if n < 10 then d else Decimal(n / 10) + d
  }

  function Line(prefix: string, leader: Option<nat>, tail: string): string {
    prefix + ((if leader.Some? then Decimal(leader.value) else "unknown") + "\n" + tail)
  }

  /** What a node prints when it refuses, and what reaches the caller through the relay. */
  function Refusal(text: Wording, leader: Option<nat>, relayed: bool): string {
    Line(text.prefix, leader, if relayed then text.relay else "")
  }

  lemma {:induction false} DecimalLeads(n: nat)
    requires n >= 1
    ensures Decimal(n)[0] != '0'
  {
    if n >= 10 { DecimalLeads(n / 10); }
  }

  lemma {:induction false} DecimalOf(s: string) returns (n: nat)
    requires s != "" && forall k | 0 <= k < |s| :: IsDigit(s[k])
    requires s[0] != '0'
    ensures n >= 1 && Decimal(n) == s
  {
    var last := s[|s| - 1] as int - '0' as int;
    if |s| == 1 {
      n := last;
    } else {
      var m := DecimalOf(s[..|s| - 1]);
      n := 10 * m + last;
      assert n / 10 == m && n % 10 == last;
      assert s == s[..|s| - 1] + [s[|s| - 1]];
    }
  }

  lemma LineEndIs(s: string, n: nat)
    requires n < |s| && s[n] == '\n' && forall k | 0 <= k < n :: s[k] != '\n'
    ensures LineEnd(s) == n
  {
  }

  lemma LineRecognized(prefix: string, relay: string, leader: Option<nat>, tail: string)
    requires (leader.Some? ==> leader.value >= 1) && (tail == "" || tail == relay)
    ensures LineMatches(Line(prefix, leader, tail), prefix, relay)
  {
    var id := if leader.Some? then Decimal(leader.value) else "unknown";
    if leader.Some? { DecimalLeads(leader.value); }
    var s, rest := Line(prefix, leader, tail), id + "\n" + tail;
    assert s[|prefix|..] == rest;
    LineEndIs(rest, |id|);
    assert rest[..|id|] == id && rest[|id| + 1..] == tail;
  }

  lemma RecognizedLine(s: string, prefix: string, relay: string) returns (leader: Option<nat>, tail: string)
    requires LineMatches(s, prefix, relay)
    ensures (leader.Some? ==> leader.value >= 1) && (tail == "" || tail == relay) && s == Line(prefix, leader, tail)
  {
    var rest := s[|prefix|..];
    var n := LineEnd(rest);
    var id := rest[..n];
    tail := rest[n + 1..];
    assert rest == id + "\n" + tail;
    assert s == prefix + rest;
    leader := None;
    if id != "unknown" {
      var m := DecimalOf(id);
      leader := Some(m);
    }
  }

  ghost predicate IsRefusalOf(text: Wording, s: string, leader: Option<nat>, relayed: bool) {
    (leader.Some? ==> leader.value >= 1) && s == Refusal(text, leader, relayed)
  }

  /** A result is retried exactly when it is some node's refusal: exit 1, no output, no other word. */
  lemma RefusedIff(text: Wording, r: Result)
    ensures Refused(text, r) <==>
              && r.returncode == 1 && r.stdout == ""
              && exists leader, relayed :: IsRefusalOf(text, r.stderr, leader, relayed)
  {
    if LineMatches(r.stderr, text.prefix, text.relay) {
      var leader, tail := RecognizedLine(r.stderr, text.prefix, text.relay);
      assert IsRefusalOf(text, r.stderr, leader, tail == text.relay);
    }
    if leader, relayed :| IsRefusalOf(text, r.stderr, leader, relayed) {
      LineRecognized(text.prefix, text.relay, leader, if relayed then text.relay else "");
    }
  }

  // ----- the outside world

  type Candidate = (int, string)

  datatype Reply = TimedOut | Completed(result: Result)

  datatype Attempt = Attempt(
    ordinal: nat, candidate: Candidate, started: real, ended: real, remaining: real, reply: Reply)

  predicate IsRefusal(text: Wording, a: Attempt) {
    a.reply.Completed? && Refused(text, a.reply.result)
  }

  /** The clock, the remote commands issued so far and the evidence recorded so far. */
  class World {
    var clock: real
    var issued: seq<(Candidate, real)>
    var evidence: seq<Attempt>
    ghost var effects: nat  // commands that took effect at some node

    /** Reads the clock, which never goes back. */
    method Now() returns (t: real)
      modifies this`clock
      ensures t == clock >= old(clock)
    {
      var passed: real := *;
      if passed > 0.0 { clock := clock + passed; }
      return clock;
    }

    /** Sleeps for at least the given time. */
    method Pause(duration: real)
      modifies this`clock
      ensures clock >= old(clock) && clock >= old(clock) + duration
    {
      var passed: real := *;
      if duration > 0.0 { clock := clock + duration; }
      if passed > 0.0 { clock := clock + passed; }
    }

    /** Runs the command at a candidate; anything may come back, but a refusing node did nothing. */
    method Invoke(text: Wording, candidate: Candidate, remaining: real) returns (reply: Reply)
      modifies this`clock, this`issued, this`effects
      ensures clock >= old(clock) && issued == old(issued) + [(candidate, remaining)]
      ensures old(effects) <= effects <= old(effects) + 1
      ensures reply.Completed? && Refused(text, reply.result) ==> effects == old(effects)
    {
      var passed: real := *;
      if passed > 0.0 { clock := clock + passed; }
      issued := issued + [(candidate, remaining)];
      var expired := *;
      var code: int, out: string, err: string := *, *, *;
      reply := if expired then TimedOut else Completed(Result(code, out, err));
      var took := *;
      if took && !(reply.Completed? && Refused(text, reply.result)) { effects := effects + 1; }
    }

    method Record(a: Attempt)
      modifies this`evidence
      ensures evidence == old(evidence) + [a]
    {
      evidence := evidence + [a];
    }
  }

  // ----- routing

  datatype Ending = Success(stdout: string) | InvalidArguments | OutcomeUnknown | Failed(stderr: string) | Exhausted

  /** Attempt `k`: its turn among the candidates, and its budget. The budget is what was left of the one
      deadline at the moment `deadline - a.remaining`, after the previous attempt ended and before this one began. */
  ghost predicate AttemptOk(ran: seq<Attempt>, candidates: seq<Candidate>, deadline: real, k: nat)
    requires k < |ran| && candidates != []
  {
    var a := ran[k];
    && a.ordinal == k + 1 && a.candidate == candidates[k % |candidates|]
    && 0.0 < a.remaining && deadline - a.remaining <= a.started <= a.ended
    && (k > 0 ==> ran[k - 1].ended <= deadline - a.remaining && a.remaining <= ran[k - 1].remaining - 0.1)
  }

  ghost predicate RunOk(ran: seq<Attempt>, candidates: seq<Candidate>, deadline: real)
    requires candidates != []
  {
    forall k | 0 <= k < |ran| :: AttemptOk(ran, candidates, deadline, k)
  }

  /** Every attempt but the last is an exclusive refusal. */
  ghost predicate OnlyRefusalsRetried(text: Wording, ran: seq<Attempt>) {
    forall k | 0 <= k < |ran| - 1 :: IsRefusal(text, ran[k])
  }

  /** The commands behind recorded attempts. */
  ghost function Commands(ran: seq<Attempt>): (r: seq<(Candidate, real)>)
    ensures |r| == |ran| && forall k | 0 <= k < |ran| :: r[k] == (ran[k].candidate, ran[k].remaining)
  {
    if ran == [] then [] else Commands(ran[..|ran| - 1]) + [(ran[|ran| - 1].candidate, ran[|ran| - 1].remaining)]
  }

  /** How any reply but a refusal ends the run. */
  function Final(reply: Reply): Ending {
    match reply
    case TimedOut => OutcomeUnknown
    case Completed(r) => if r.returncode == 0 then Success(r.stdout) else Failed(r.stderr)
  }

  /** The last attempt, if any, as it was answered. */
  ghost function LastReply(ran: seq<Attempt>): Option<Reply> {
    if ran == [] then None else Some(ran[|ran| - 1].reply)
  }

  /** A zero exit ends the run with what was printed, an expired one with an unknown outcome, any other exit
      but a refusal with its error; without such an attempt nothing ran or every attempt was refused. */
  ghost predicate EndsWith(text: Wording, ran: seq<Attempt>, end: Ending) {
    match LastReply(ran)
    case Some(TimedOut) => end == OutcomeUnknown
    case Some(Completed(Result(0, out, _))) => end == Success(out)
    case Some(Completed(Result(_, _, err))) =>
      if IsRefusal(text, ran[|ran| - 1]) then end.Exhausted? else end == Failed(err)
    case None => end.Exhausted? || end.InvalidArguments?
  }

  function Rounds(left: real): nat {
    if left <= 0.0 then 0 else (left * 10.0).Floor + 1
  }

  lemma RoundsDecrease(before: real, after: real)
    requires before > 0.0 && (after <= 0.0 || after <= before - 0.1)
    ensures Rounds(after) < Rounds(before)
  {
  }

  lemma RunExtends(ran: seq<Attempt>, a: Attempt, candidates: seq<Candidate>, deadline: real)
    requires candidates != [] && RunOk(ran, candidates, deadline)
    requires a.ordinal == |ran| + 1 && a.candidate == candidates[|ran| % |candidates|]
    requires 0.0 < a.remaining && deadline - a.remaining <= a.started <= a.ended
    requires ran != [] ==>
               ran[|ran| - 1].ended <= deadline - a.remaining && a.remaining <= ran[|ran| - 1].remaining - 0.1
    ensures RunOk(ran + [a], candidates, deadline)
  {
    forall k | 0 <= k < |ran| + 1 ensures AttemptOk(ran + [a], candidates, deadline, k) {
      if k < |ran| { assert AttemptOk(ran, candidates, deadline, k); }
    }
  }

  lemma AppendAssociates<T>(before: seq<T>, s: seq<T>, x: T)
    ensures before + s + [x] == before + (s + [x])
  {
  }

  lemma CommandsExtend(ran: seq<Attempt>, a: Attempt)
    ensures Commands(ran + [a]) == Commands(ran) + [(a.candidate, a.remaining)]
  {
    assert (ran + [a])[..|ran|] == ran;
  }

  /** One invocation, timed and recorded. */
  method Try(w: World, text: Wording, ordinal: nat, candidate: Candidate, remaining: real) returns (a: Attempt)
    modifies w
    ensures a.ordinal == ordinal && a.candidate == candidate && a.remaining == remaining
    ensures old(w.clock) <= a.started <= a.ended <= w.clock
    ensures w.evidence == old(w.evidence) + [a] && w.issued == old(w.issued) + [(candidate, remaining)]
    ensures old(w.effects) <= w.effects <= old(w.effects) + if IsRefusal(text, a) then 0 else 1
  {
    var started := w.Now();
    var reply := w.Invoke(text, candidate, remaining);
    var ended := w.Now();
    a := Attempt(ordinal, candidate, started, ended, remaining, reply);
    w.Record(a);
  }

  /** Waits before the next attempt, but not past the deadline, and says what is left. */
  method Backoff(w: World, deadline: real) returns (remaining: real)
    modifies w`clock
    ensures old(w.clock) <= w.clock == deadline - remaining
    ensures remaining <= 0.0 || remaining <= deadline - old(w.clock) - 0.1
  {
    var now := w.Now();
    w.Pause(if deadline - now <= 0.0 then 0.0 else if deadline - now < 0.1 then deadline - now else 0.1);
    now := w.Now();
    return deadline - now;
  }

  /** The run so far, all refused, with `remaining` left of the one deadline. */
  ghost predicate Underway(text: Wording, ran: seq<Attempt>, candidates: seq<Candidate>, timeout: real, deadline: real,
                           remaining: real)
    requires candidates != []
  {
    && (forall k | 0 <= k < |ran| :: IsRefusal(text, ran[k])) && Timely(ran, candidates, timeout, deadline)
    && (remaining <= 0.0 || remaining <= timeout - 0.1 * |ran| as real)
    && (ran != [] ==>
        && ran[|ran| - 1].ended <= deadline - remaining
        && (remaining <= 0.0 || remaining <= ran[|ran| - 1].remaining - 0.1))
  }

  /** Legal attempts, the first within the timeout and as many as tenths of a second allow. */
  ghost predicate Timely(ran: seq<Attempt>, candidates: seq<Candidate>, timeout: real, deadline: real)
    requires candidates != []
  {
    && RunOk(ran, candidates, deadline) && |ran| as real < timeout * 10.0 + 1.0
    && (ran != [] ==> ran[0].remaining <= timeout)
  }

  lemma AttemptAllowed(attempts: nat, timeout: real, remaining: real)
    requires 0.0 < remaining <= timeout - 0.1 * attempts as real
    ensures (attempts + 1) as real < timeout * 10.0 + 1.0
  {
  }

  lemma UnderwayTries(text: Wording, ran: seq<Attempt>, candidates: seq<Candidate>, timeout: real, deadline: real,
                      remaining: real, a: Attempt)
    requires candidates != [] && Underway(text, ran, candidates, timeout, deadline, remaining) && remaining > 0.0
    requires a.ordinal == |ran| + 1 && a.candidate == candidates[|ran| % |candidates|] && a.remaining == remaining
    requires deadline - remaining <= a.started <= a.ended
    ensures Timely(ran + [a], candidates, timeout, deadline) && OnlyRefusalsRetried(text, ran + [a])
  {
    RunExtends(ran, a, candidates, deadline);
    AttemptAllowed(|ran|, timeout, remaining);
  }

  lemma UnderwayContinues(text: Wording, ran: seq<Attempt>, a: Attempt, candidates: seq<Candidate>, timeout: real,
                          deadline: real, clock: real, remaining: real)
    requires candidates != [] && Underway(text, ran, candidates, timeout, deadline, a.remaining) && a.remaining > 0.0
    requires Timely(ran + [a], candidates, timeout, deadline) && IsRefusal(text, a)
    requires a.ended <= clock <= deadline - remaining && deadline - a.remaining <= clock
    requires remaining <= 0.0 || remaining <= deadline - clock - 0.1
    ensures Underway(text, ran + [a], candidates, timeout, deadline, remaining)
  {
  }

  /** Retries explicit refusals, in candidate order, until the deadline; any other answer ends the run. */
  method Route(w: World, text: Wording, candidates: seq<Candidate>, timeout: real)
    returns (end: Ending, ghost ran: seq<Attempt>, ghost deadline: real)
    modifies w
    ensures end.InvalidArguments? <==> candidates == [] || timeout <= 0.0
    ensures w.evidence == old(w.evidence) + ran && w.issued == old(w.issued) + Commands(ran)
    ensures OnlyRefusalsRetried(text, ran) && EndsWith(text, ran, end) && (end.InvalidArguments? ==> ran == [])
    ensures old(w.effects) <= w.effects <= old(w.effects) + if end.Exhausted? || end.InvalidArguments? then 0 else 1
    ensures !end.InvalidArguments? ==> deadline >= old(w.clock) + timeout && Timely(ran, candidates, timeout, deadline)
    ensures end.Exhausted? ==> w.clock >= deadline
  {
    ran, deadline := [], 0.0;
    if candidates == [] || timeout <= 0.0 {
      end := InvalidArguments;
      return;
    }
    var start := w.Now();
    var limit := start + timeout;
    deadline := limit;
    var attempt := 0;
    var now := w.Now();
    var remaining := limit - now;
    while remaining > 0.0
      invariant w.clock == limit - remaining && w.effects == old(w.effects)
      invariant attempt == |ran| && w.evidence == old(w.evidence) + ran && w.issued == old(w.issued) + Commands(ran)
      invariant Underway(text, ran, candidates, timeout, limit, remaining)
      decreases Rounds(remaining)
    {
      var a := Try(w, text, attempt + 1, candidates[attempt % |candidates|], remaining);
      attempt := attempt + 1;
      CommandsExtend(ran, a);
      AppendAssociates(old(w.evidence), ran, a);
      AppendAssociates(old(w.issued), Commands(ran), (a.candidate, a.remaining));
      UnderwayTries(text, ran, candidates, timeout, limit, remaining, a);
      if !IsRefusal(text, a) {
        ran, end := ran + [a], Final(a.reply);
        return;
      }
      ghost var clock := w.clock;
      remaining := Backoff(w, limit);
      UnderwayContinues(text, ran, a, candidates, timeout, limit, clock, remaining);
      RoundsDecrease(a.remaining, remaining);
      ran := ran + [a];
    }
    end := Exhausted;
  }

  // ----- the command line

  /** The candidates other than the excluded node, in order. */
  function Admitted(entries: seq<Candidate>, exclude: int): (r: seq<Candidate>)
    ensures forall k | 0 <= k < |r| :: r[k] in entries && r[k].0 != exclude
    ensures forall c | c in entries && c.0 != exclude :: c in r
  {
    if entries == [] then []
    else
      var last := entries[|entries| - 1];
      Admitted(entries[..|entries| - 1], exclude) + if last.0 != exclude then [last] else []
  }

  /** The positions of every entry that is not excluded, in the order given. */
  ghost predicate Selects(entries: seq<Candidate>, exclude: int, at: seq<nat>) {
    && (forall j, k | 0 <= j < k < |at| :: at[j] < at[k])
    && (forall k | 0 <= k < |at| :: at[k] < |entries| && entries[at[k]].0 != exclude)
    && (forall i | 0 <= i < |entries| && entries[i].0 != exclude :: i in at)
  }

  lemma SelectsNext(entries: seq<Candidate>, exclude: int, before: seq<nat>, at: seq<nat>)
    requires entries != [] && Selects(entries[..|entries| - 1], exclude, before)
    requires at == before + if entries[|entries| - 1].0 != exclude then [|entries| - 1] else []
    ensures Selects(entries, exclude, at)
  {
    var n := |entries| - 1;
    forall i | 0 <= i < |entries| && entries[i].0 != exclude ensures i in at {
      if i < n { assert entries[..n][i] == entries[i] && i in before; } else { assert at[|before|] == n; }
    }
  }

  /** The admitted candidates are the entries at those positions. */
  lemma {:induction false} AdmittedPositions(entries: seq<Candidate>, exclude: int) returns (at: seq<nat>)
    ensures Selects(entries, exclude, at) && |at| == |Admitted(entries, exclude)|
    ensures forall k | 0 <= k < |at| :: Admitted(entries, exclude)[k] == entries[at[k]]
  {
    at := [];
    if entries != [] {
      var n := |entries| - 1;
      var before := AdmittedPositions(entries[..n], exclude);
      at := before + if entries[n].0 != exclude then [n] else [];
      SelectsNext(entries, exclude, before, at);
    }
  }

  /** Runs one single-key command that names no address of its own; the excluded node never receives it. */
  method Probe(w: World, command: seq<string>, entries: seq<Candidate>, exclude: int, timeout: real)
    returns (end: Option<Ending>, ghost ran: seq<Attempt>)
    modifies w
    ensures end.None? <==> command == [] || command[0] !in {"raw-put", "raw-get"} || "--addr" in command
    ensures end.None? ==> ran == [] && w.effects == old(w.effects)
    ensures end.Some? ==> (end.value.InvalidArguments? <==> timeout <= 0.0 || forall c | c in entries :: c.0 == exclude)
    ensures end.Some? ==> OnlyRefusalsRetried(KV9, ran) && EndsWith(KV9, ran, end.value)
    ensures end.Some? && (end.value.Exhausted? || end.value.InvalidArguments?) ==> w.effects == old(w.effects)
    ensures end.Some? ==> w.effects <= old(w.effects) + 1
    ensures w.evidence == old(w.evidence) + ran && w.issued == old(w.issued) + Commands(ran)
    ensures var admitted := Admitted(entries, exclude);
            forall k | 0 <= k < |ran| :: admitted != [] && ran[k].candidate == admitted[k % |admitted|]
    ensures forall k | 0 <= k < |ran| :: ran[k].candidate in entries && ran[k].candidate.0 != exclude
  {
    ran := [];
    if command == [] || !(command[0] == "raw-put" || command[0] == "raw-get") || "--addr" in command {
      return None, [];
    }
    var candidates := Admitted(entries, exclude);
    assert candidates == [] <==> forall c | c in entries :: c.0 == exclude by {
      if candidates != [] { assert candidates[0] in entries; }
    }
    var outcome;
    ghost var deadline;
    outcome, ran, deadline := Route(w, KV9, candidates, timeout);
    forall k | 0 <= k < |ran| ensures candidates != [] && ran[k].candidate == candidates[k % |candidates|] {
      assert AttemptOk(ran, candidates, deadline, k);
    }
    return Some(outcome), ran;
  }
}
