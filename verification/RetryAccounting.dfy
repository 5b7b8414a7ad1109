/**
 Retry accounting: which terminal and attempt counters can arise from client calls in which every
 attempt but the last was refused with NotLeader and the last carries the terminal reason.
 */
module RetryAccounting {
  import opened Buckets
  import opened Samples

  /** Why a call or an attempt ended; an RPC status carries its code. */
  datatype Reason =
    | Success | NotLeader | AdmissionCount | AdmissionBytes | AdmissionOversize
    | ReadQuorum | ReadApply | RpcStatus(code: nat) | Protocol | Deadline | Capacity | Input

  /** The reason's place in a report's twelve-entry reason vector. */
  function Index(r: Reason): (i: nat)
    ensures i < 12
  {
    match r
    case Success => 0
    case NotLeader => 1
    case AdmissionCount => 2
    case AdmissionBytes => 3
    case AdmissionOversize => 4
    case ReadQuorum => 5
    case ReadApply => 6
    case RpcStatus(_) => 7
    case Protocol => 8
    case Deadline => 9
    case Capacity => 10
    case Input => 11
  }

  /** The order of the vector's entries, one entry for all status codes. */
  const REASONS := [Success, NotLeader, AdmissionCount, AdmissionBytes, AdmissionOversize, ReadQuorum, ReadApply,
                    RpcStatus(0), Protocol, Deadline, Capacity, Input]

  lemma IndexPlaces(r: Reason)
    ensures |REASONS| == 12
    ensures REASONS[Index(r)] == if r.RpcStatus? then RpcStatus(0) else r
  {
  }

  /** Calls by outcome (success, refused, unknown write, read failure, rejected), then terminal
      reasons and status codes, then the same of attempts. */
  datatype Counters = Counters(
    calls: seq<int>, reasons: seq<int>, codes: seq<int>, attemptReasons: seq<int>, attemptCodes: seq<int>)

  function Total5(s: seq<int>): int
    requires |s| == 5
  {
    s[0] + s[1] + s[2] + s[3] + s[4]
  }

  function Total12(s: seq<int>): int
    requires |s| == 12
  {
    s[0] + s[1] + s[2] + s[3] + s[4] + s[5] + s[6] + s[7] + s[8] + s[9] + s[10] + s[11]
  }

  predicate Shaped(k: Counters) {
    |k.calls| == 5 && |k.reasons| == |k.attemptReasons| == 12 && |k.codes| == |k.attemptCodes| == 17
  }

  ghost predicate Counted(s: seq<int>) {
    forall i | 0 <= i < |s| :: s[i] >= 0
  }

  /** Calls that made at least one attempt. */
  function Issued(k: Counters): int
    requires Shaped(k)
  {
    Total5(k.calls) - k.calls[4]
  }

  function LocalDeadlines(k: Counters): int
    requires Shaped(k)
  {
    k.calls[4] - k.reasons[10] - k.reasons[11]
  }

  /** The identities the report check evaluates. */
  predicate Balanced(k: Counters, write: bool, maxAttempts: nat)
    requires Shaped(k)
  {
    CodesBalanced(k) && TerminalsBalanced(k, write) && AttemptsBalanced(k) && WithinBudget(k, maxAttempts)
  }

  /** Status codes break down the RPC-status terminals, and no attempt adds one. */
  predicate CodesBalanced(k: Counters)
    requires Shaped(k)
  {
    Sum(k.codes) == k.reasons[7] && Sum(k.attemptCodes) == k.attemptReasons[7] && k.attemptCodes == k.codes
  }

  predicate TerminalsBalanced(k: Counters, write: bool)
    requires Shaped(k)
  {
    TerminalsMatch(k.calls, k.reasons, write)
  }

  /** Terminal reasons break down the calls by outcome. */
  predicate TerminalsMatch(calls: seq<int>, reasons: seq<int>, write: bool)
    requires |calls| == 5 && |reasons| == 12
  {
    && (if write then calls[3] == 0 else calls[2] == 0)
    && Total12(reasons) == Total5(calls) && reasons[0] == calls[0]
    && reasons[1] + reasons[2] + reasons[3] + reasons[4] == calls[1]
    && reasons[8] == 0 && 0 <= calls[4] - reasons[10] - reasons[11] <= reasons[9]
  }

  predicate AttemptsBalanced(k: Counters)
    requires Shaped(k)
  {
    AttemptsMatch(k.attemptReasons, k.reasons, LocalDeadlines(k), Issued(k))
  }

  /** Attempt reasons match terminal reasons, except for retried NotLeader and local deadlines. */
  predicate AttemptsMatch(attempts: seq<int>, reasons: seq<int>, local: int, issued: int)
    requires |attempts| == |reasons| == 12
  {
    && attempts[0] == reasons[0] && attempts[1] >= reasons[1]
    && (forall i | 2 <= i < 9 :: attempts[i] == reasons[i])
    && attempts[9] == reasons[9] - local && attempts[10] == 0 && attempts[11] == 0
    && Total12(attempts) == issued + attempts[1] - reasons[1] && issued <= Total12(attempts)
  }

  predicate WithinBudget(k: Counters, maxAttempts: nat)
    requires Shaped(k)
  {
    Total12(k.attemptReasons) <= Issued(k) * maxAttempts
  }

  // ----- the calls behind the counters

  /** A finished call: its terminal reason and the outcome of each attempt. */
  datatype ClientCall = ClientCall(reason: Reason, attempts: seq<Reason>)

  /** A call the client can make; `strict` also keeps read-quorum outcomes out of writes. */
  predicate Legal(c: ClientCall, write: bool, maxAttempts: nat, strict: bool) {
    && c.reason != Protocol && (c.reason.RpcStatus? ==> c.reason.code < 17)
    && (strict && write ==> !c.reason.ReadQuorum? && !c.reason.ReadApply?)
    && |c.attempts| <= maxAttempts
    && (if c.attempts == [] then c.reason.Deadline? || c.reason.Capacity? || c.reason.Input?
        else && !c.reason.Capacity? && !c.reason.Input? && c.attempts[|c.attempts| - 1] == c.reason
             && forall k | 0 <= k < |c.attempts| - 1 :: c.attempts[k] == NotLeader)
  }

  /** Success, refused, unknown write, read failure, or rejected before any attempt. */
  function Population(c: ClientCall, write: bool): (p: nat)
    ensures p < 5
  {
    if c.reason.Success? then 0
    else if c.attempts == [] then 4
    else if 1 <= Index(c.reason) <= 4 then 1
    else if write then 2 else 3
  }

  function Plus(s: seq<int>, i: nat, n: int): seq<int>
    requires i < |s|
  {
    s[i := s[i] + n]
  }

  function Coded(codes: seq<int>, r: Reason): seq<int> {
    if r.RpcStatus? && r.code < |codes| then codes[r.code := codes[r.code] + 1] else codes
  }

  function AddAttempts(k: Counters, attempts: seq<Reason>): (r: Counters)
    requires Shaped(k)
    ensures Shaped(r)
    decreases |attempts|
  {
    if attempts == [] then k else
      AddAttempts(k.(attemptReasons := Plus(k.attemptReasons, Index(attempts[0]), 1),
                     attemptCodes := Coded(k.attemptCodes, attempts[0])), attempts[1..])
  }

  /** The counters after one more finished call. */
  function Add(k: Counters, c: ClientCall, write: bool): (r: Counters)
    requires Shaped(k)
    ensures Shaped(r)
  {
    AddAttempts(Counters(Plus(k.calls, Population(c, write), 1), Plus(k.reasons, Index(c.reason), 1),
                         Coded(k.codes, c.reason), k.attemptReasons, k.attemptCodes), c.attempts)
  }

  function Zeros(n: nat): (r: seq<int>)
    ensures |r| == n && forall i | 0 <= i < n :: r[i] == 0
  {
    seq(n, _ => 0)
  }

  function Aggregate(cs: seq<ClientCall>, write: bool): (k: Counters)
    ensures Shaped(k)
  {
    if cs == [] then Counters(Zeros(5), Zeros(12), Zeros(17), Zeros(12), Zeros(17))
    else Add(Aggregate(cs[1..], write), cs[0], write)
  }

  // ----- one call's contribution

  lemma PlusTotals(s: seq<int>, i: nat, n: int)
    requires i < |s|
    ensures |s| == 5 ==> Total5(Plus(s, i, n)) == Total5(s) + n
    ensures |s| == 12 ==> Total12(Plus(s, i, n)) == Total12(s) + n
  {
  }

  lemma CodedSum(codes: seq<int>, r: Reason)
    requires r.RpcStatus? ==> r.code < |codes|
    ensures |Coded(codes, r)| == |codes| && Sum(Coded(codes, r)) == Sum(codes) + if r.RpcStatus? then 1 else 0
  {
    if r.RpcStatus? { SumUpdate(codes, r.code, codes[r.code] + 1); }
  }

  /** A legal call adds its retries to NotLeader and one attempt to its terminal reason. */
  lemma {:induction false} LegalAttempts(k: Counters, attempts: seq<Reason>)
    requires Shaped(k) && attempts != [] && forall j | 0 <= j < |attempts| - 1 :: attempts[j] == NotLeader
    ensures var last := attempts[|attempts| - 1];
            AddAttempts(k, attempts) ==
            k.(attemptReasons := Plus(Plus(k.attemptReasons, 1, |attempts| - 1), Index(last), 1),
               attemptCodes := Coded(k.attemptCodes, last))
    decreases |attempts|
  {
    var k1 := k.(attemptReasons := Plus(k.attemptReasons, Index(attempts[0]), 1),
                 attemptCodes := Coded(k.attemptCodes, attempts[0]));
    if |attempts| > 1 {
      LegalAttempts(k1, attempts[1..]);
      assert Plus(k1.attemptReasons, 1, |attempts| - 2) == Plus(k.attemptReasons, 1, |attempts| - 1);
    } else {
      assert attempts[1..] == [];
      assert Plus(k.attemptReasons, 1, 0) == k.attemptReasons;
    }
  }

  /** The counters after a legal call, vector by vector. */
  lemma Contribution(k: Counters, c: ClientCall, write: bool, maxAttempts: nat)
    requires Shaped(k) && k.attemptCodes == k.codes && Legal(c, write, maxAttempts, false)
    ensures Add(k, c, write) ==
            Counters(Plus(k.calls, Population(c, write), 1), Plus(k.reasons, Index(c.reason), 1),
                     Coded(k.codes, c.reason),
                     if c.attempts == [] then k.attemptReasons
                     else Plus(Plus(k.attemptReasons, 1, |c.attempts| - 1), Index(c.reason), 1),
                     Coded(k.codes, c.reason))
    ensures Total12(Add(k, c, write).attemptReasons) == Total12(k.attemptReasons) + |c.attempts|
    ensures Total12(Add(k, c, write).reasons) == Total12(k.reasons) + 1
    ensures Total5(Add(k, c, write).calls) == Total5(k.calls) + 1
  {
    PlusTotals(k.calls, Population(c, write), 1);
    PlusTotals(k.reasons, Index(c.reason), 1);
    if c.attempts != [] {
      LegalAttempts(Counters(Plus(k.calls, Population(c, write), 1), Plus(k.reasons, Index(c.reason), 1),
                             Coded(k.codes, c.reason), k.attemptReasons, k.attemptCodes), c.attempts);
      PlusTotals(k.attemptReasons, 1, |c.attempts| - 1);
      PlusTotals(Plus(k.attemptReasons, 1, |c.attempts| - 1), Index(c.reason), 1);
    }
  }

  lemma AddWithinBudget(k: Counters, c: ClientCall, write: bool, maxAttempts: nat)
    requires Shaped(k) && k.attemptCodes == k.codes && Legal(c, write, maxAttempts, false)
             && WithinBudget(k, maxAttempts)
    ensures WithinBudget(Add(k, c, write), maxAttempts)
  {
    Contribution(k, c, write, maxAttempts);
    var issued := Issued(k);
    var issued' := Issued(Add(k, c, write));
    assert issued' == issued + if c.attempts == [] then 0 else 1;
    assert (issued + 1) * maxAttempts == issued * maxAttempts + maxAttempts;
  }

  lemma AddCodes(k: Counters, c: ClientCall, write: bool, maxAttempts: nat)
    requires Shaped(k) && CodesBalanced(k) && Legal(c, write, maxAttempts, false)
    ensures CodesBalanced(Add(k, c, write))
  {
    Contribution(k, c, write, maxAttempts);
    CodedSum(k.codes, c.reason);
  }

  lemma AddTerminals(k: Counters, c: ClientCall, write: bool, maxAttempts: nat)
    requires Shaped(k) && k.attemptCodes == k.codes && Legal(c, write, maxAttempts, false)
             && TerminalsBalanced(k, write)
    ensures TerminalsBalanced(Add(k, c, write), write)
  {
    Contribution(k, c, write, maxAttempts);
  }

  lemma AddAttemptReasons(k: Counters, c: ClientCall, write: bool, maxAttempts: nat)
    requires Shaped(k) && k.attemptCodes == k.codes && Legal(c, write, maxAttempts, false) && AttemptsBalanced(k)
    ensures AttemptsBalanced(Add(k, c, write))
  {
    Contribution(k, c, write, maxAttempts);
    if c.attempts != [] {
      AttemptsMore(k.attemptReasons, k.reasons, LocalDeadlines(k), Issued(k), Index(c.reason), |c.attempts| - 1);
      assert LocalDeadlines(Add(k, c, write)) == LocalDeadlines(k) && Issued(Add(k, c, write)) == Issued(k) + 1;
    }
  }

  /** One more issued call that ended with reason `i` after `n` retries. */
  lemma AttemptsMore(attempts: seq<int>, reasons: seq<int>, local: int, issued: int, i: nat, n: int)
    requires |attempts| == |reasons| == 12 && AttemptsMatch(attempts, reasons, local, issued) && i < 10 && n >= 0
    ensures AttemptsMatch(Plus(Plus(attempts, 1, n), i, 1), Plus(reasons, i, 1), local, issued + 1)
  {
    PlusTotals(attempts, 1, n);
    PlusTotals(Plus(attempts, 1, n), i, 1);
  }

  /** One issued call of `n` attempts fewer. */
  lemma AttemptsFewer(attempts: seq<int>, reasons: seq<int>, local: int, issued: int, i: nat, n: int)
    requires |attempts| == |reasons| == 12 && AttemptsMatch(attempts, reasons, local, issued) && i < 10
    requires 1 <= n <= attempts[1] - reasons[1] + 1
    ensures AttemptsMatch(Plus(Plus(attempts, 1, 1 - n), i, -1), Plus(reasons, i, -1), local, issued - 1)
  {
    PlusTotals(attempts, 1, 1 - n);
    PlusTotals(Plus(attempts, 1, 1 - n), i, -1);
  }

  /** Adding a legal call keeps the identities. */
  lemma AddBalanced(k: Counters, c: ClientCall, write: bool, maxAttempts: nat)
    requires Shaped(k) && Balanced(k, write, maxAttempts) && Legal(c, write, maxAttempts, false)
    ensures Balanced(Add(k, c, write), write, maxAttempts)
  {
    AddCodes(k, c, write, maxAttempts);
    AddWithinBudget(k, c, write, maxAttempts);
    AddTerminals(k, c, write, maxAttempts);
    AddAttemptReasons(k, c, write, maxAttempts);
  }

  lemma ZeroBalanced(k: Counters, write: bool, maxAttempts: nat)
    requires Shaped(k) && k.attemptReasons == k.reasons && k.attemptCodes == k.codes
    requires (forall i | 0 <= i < 5 :: k.calls[i] == 0) && (forall i | 0 <= i < 12 :: k.reasons[i] == 0)
    requires forall i | 0 <= i < 17 :: k.codes[i] == 0
    ensures Balanced(k, write, maxAttempts)
  {
    SumConstant(k.codes, 0);
  }

  /** Counters aggregated from legal calls satisfy every identity. */
  lemma {:induction false} GenuineBalanced(cs: seq<ClientCall>, write: bool, maxAttempts: nat)
    requires forall k | 0 <= k < |cs| :: Legal(cs[k], write, maxAttempts, false)
    ensures Balanced(Aggregate(cs, write), write, maxAttempts)
  {
    if cs == [] {
      ZeroBalanced(Aggregate(cs, write), write, maxAttempts);
    } else {
      GenuineBalanced(cs[1..], write, maxAttempts);
      AddBalanced(Aggregate(cs[1..], write), cs[0], write, maxAttempts);
    }
  }

  // ----- counters that balance come from calls

  ghost predicate AllCounted(k: Counters) {
    Counted(k.calls) && Counted(k.reasons) && Counted(k.codes) && Counted(k.attemptReasons) && Counted(k.attemptCodes)
  }

  /** NotLeader attempts beyond the terminal ones. */
  function Retries(k: Counters): int
    requires Shaped(k)
  {
    k.attemptReasons[1] - k.reasons[1]
  }

  /** The counters before the call, if it was counted. */
  ghost function Before(k: Counters, c: ClientCall, write: bool): (r: Counters)
    requires Shaped(k)
    ensures Shaped(r)
  {
    var codes := if c.reason.RpcStatus? && c.reason.code < 17 then Plus(k.codes, c.reason.code, -1) else k.codes;
    Counters(Plus(k.calls, Population(c, write), -1), Plus(k.reasons, Index(c.reason), -1), codes,
             if c.attempts == [] then k.attemptReasons
             else Plus(Plus(k.attemptReasons, 1, 1 - |c.attempts|), Index(c.reason), -1),
             codes)
  }

  lemma BeforeAdd(k: Counters, c: ClientCall, write: bool, maxAttempts: nat)
    requires Shaped(k) && k.attemptCodes == k.codes && Legal(c, write, maxAttempts, false)
    ensures Add(Before(k, c, write), c, write) == k
  {
    var b := Before(k, c, write);
    Contribution(b, c, write, maxAttempts);
    PlusUndone(k.calls, Population(c, write));
    PlusUndone(k.reasons, Index(c.reason));
    assert Coded(b.codes, c.reason) == k.codes;
    AttemptsUndone(k.attemptReasons, Index(c.reason), |c.attempts| - 1);
  }

  lemma PlusUndone(s: seq<int>, i: nat)
    requires i < |s|
    ensures Plus(Plus(s, i, -1), i, 1) == s
  {
  }

  lemma AttemptsUndone(s: seq<int>, i: nat, n: int)
    requires i < |s| && 1 < |s|
    ensures Plus(Plus(Plus(Plus(s, 1, -n), i, -1), 1, n), i, 1) == s
  {
  }

  /** The call was counted: every counter it touched is positive. */
  ghost predicate WasCounted(k: Counters, c: ClientCall, write: bool)
    requires Shaped(k)
  {
    && k.calls[Population(c, write)] > 0 && k.reasons[Index(c.reason)] > 0
    && (c.reason.RpcStatus? ==> c.reason.code < 17 && k.codes[c.reason.code] > 0)
    && (c.attempts != [] ==> |c.attempts| - 1 <= Retries(k))
    && (c.reason.Deadline? && c.attempts == [] ==> LocalDeadlines(k) > 0)
    && (c.reason.Deadline? && c.attempts != [] ==> LocalDeadlines(k) == 0)
  }

  lemma BeforeTerminals(k: Counters, c: ClientCall, write: bool, maxAttempts: nat)
    requires Shaped(k) && Counted(k.calls) && Counted(k.reasons) && TerminalsBalanced(k, write)
             && WasCounted(k, c, write)
    requires Legal(c, write, maxAttempts, false)
    ensures TerminalsBalanced(Before(k, c, write), write)
    ensures Counted(Before(k, c, write).calls) && Counted(Before(k, c, write).reasons)
  {
    var p, i := Population(c, write), Index(c.reason);
    Uncounted(k.calls, p);
    Uncounted(k.reasons, i);
    TerminalsFewer(k.calls, k.reasons, write, p, i);
  }

  /** One call fewer among the outcomes `p` and the reasons `i`. */
  lemma TerminalsFewer(calls: seq<int>, reasons: seq<int>, write: bool, p: nat, i: nat)
    requires |calls| == 5 && |reasons| == 12 && TerminalsMatch(calls, reasons, write) && p < 5 && i < 12 && i != 8
    requires p == 4 || p == if i == 0 then 0 else if i <= 4 then 1 else if write then 2 else 3
    requires p == 4 ==> i >= 9 && (i == 9 ==> calls[4] > reasons[10] + reasons[11])
    requires p != 4 ==> i < 10 && (i == 9 ==> calls[4] == reasons[10] + reasons[11] && reasons[9] > 0)
    ensures TerminalsMatch(Plus(calls, p, -1), Plus(reasons, i, -1), write)
  {
    PlusTotals(calls, p, -1);
    PlusTotals(reasons, i, -1);
  }

  lemma Uncounted(s: seq<int>, i: nat)
    requires i < |s| && Counted(s) && s[i] > 0
    ensures Counted(Plus(s, i, -1)) && forall j | 0 <= j < |s| :: Plus(s, i, -1)[j] == s[j] - if j == i then 1 else 0
  {
  }

  lemma BeforeAttempts(k: Counters, c: ClientCall, write: bool, maxAttempts: nat)
    requires Shaped(k) && Counted(k.attemptReasons) && Counted(k.reasons) && AttemptsBalanced(k)
    requires WasCounted(k, c, write) && Legal(c, write, maxAttempts, false)
    ensures AttemptsBalanced(Before(k, c, write)) && Counted(Before(k, c, write).attemptReasons)
  {
    PlusTotals(k.calls, Population(c, write), -1);
    if c.attempts == [] {
    } else {
      BeforeMatched(k, c, write);
      BeforeCounted(k, c, write);
    }
  }

  lemma BeforeMatched(k: Counters, c: ClientCall, write: bool)
    requires Shaped(k) && AttemptsBalanced(k) && 1 <= |c.attempts| <= Retries(k) + 1
    requires !c.reason.Capacity? && !c.reason.Input?
    ensures AttemptsBalanced(Before(k, c, write))
  {
    BeforeIssued(k, c, write);
    AttemptsFewer(k.attemptReasons, k.reasons, LocalDeadlines(k), Issued(k), Index(c.reason), |c.attempts|);
  }

  lemma BeforeCounted(k: Counters, c: ClientCall, write: bool)
    requires Shaped(k) && Counted(k.attemptReasons) && Counted(k.reasons) && AttemptsBalanced(k)
    requires 1 <= |c.attempts| <= Retries(k) + 1 && k.reasons[Index(c.reason)] > 0
    requires !c.reason.Capacity? && !c.reason.Input? && (c.reason.Deadline? ==> LocalDeadlines(k) == 0)
    ensures Counted(Before(k, c, write).attemptReasons)
  {
    ReasonsAttempted(k.attemptReasons, k.reasons, LocalDeadlines(k), Issued(k), Index(c.reason));
    StillCounted(k.attemptReasons, k.reasons, Index(c.reason), |c.attempts|);
  }

  lemma BeforeIssued(k: Counters, c: ClientCall, write: bool)
    requires Shaped(k) && c.attempts != [] && !c.reason.Capacity? && !c.reason.Input?
    ensures LocalDeadlines(Before(k, c, write)) == LocalDeadlines(k) && Issued(Before(k, c, write)) == Issued(k) - 1
  {
    PlusTotals(k.calls, Population(c, write), -1);
  }

  lemma ReasonsAttempted(attempts: seq<int>, reasons: seq<int>, local: int, issued: int, i: nat)
    requires |attempts| == |reasons| == 12 && AttemptsMatch(attempts, reasons, local, issued) && i < 10
    requires i == 9 ==> local == 0
    ensures reasons[i] <= attempts[i]
  {
  }

  lemma StillCounted(attempts: seq<int>, reasons: seq<int>, i: nat, n: int)
    requires |attempts| == |reasons| == 12 && i < 12 && Counted(attempts) && Counted(reasons)
    requires 1 <= n <= attempts[1] - reasons[1] + 1 && 0 < reasons[i] <= attempts[i]
    ensures Counted(Plus(Plus(attempts, 1, 1 - n), i, -1))
  {
  }

  lemma BeforeCodes(k: Counters, c: ClientCall, write: bool, maxAttempts: nat)
    requires Shaped(k) && AllCounted(k) && Balanced(k, write, maxAttempts) && WasCounted(k, c, write)
             && Legal(c, write, maxAttempts, false)
    ensures CodesBalanced(Before(k, c, write)) && Counted(Before(k, c, write).codes)
  {
    if c.reason.RpcStatus? { SumUpdate(k.codes, c.reason.code, k.codes[c.reason.code] - 1); }
  }

  lemma BudgetLeft(issued: int, retries: int, taken: int, maxAttempts: nat)
    requires issued >= 1 && issued + retries <= issued * maxAttempts && 0 <= taken <= retries
    requires taken == retries || taken == maxAttempts - 1
    ensures issued - 1 + retries - taken <= (issued - 1) * maxAttempts
  {
    assert (issued - 1) * maxAttempts == issued * maxAttempts - maxAttempts;
    if maxAttempts >= 1 {
      assert (issued - 1) * (maxAttempts - 1) >= 0;
      assert (issued - 1) * (maxAttempts - 1) == (issued - 1) * maxAttempts - (issued - 1);
    }
  }

  /** Taking as many retries as one call may have leaves the rest within the other calls' budget. */
  lemma BeforeBudget(k: Counters, c: ClientCall, write: bool, maxAttempts: nat)
    requires Shaped(k) && AttemptsBalanced(k) && WithinBudget(k, maxAttempts) && Counted(k.calls)
    requires WasCounted(k, c, write) && Legal(c, write, maxAttempts, false)
    requires AttemptsBalanced(Before(k, c, write))
    requires c.attempts != [] ==> |c.attempts| - 1 == Retries(k) || |c.attempts| == maxAttempts
    ensures WithinBudget(Before(k, c, write), maxAttempts)
  {
    var b := Before(k, c, write);
    PlusTotals(k.calls, Population(c, write), -1);
    if c.attempts == [] {
      assert Issued(b) == Issued(k);
    } else {
      BudgetLeft(Issued(k), Retries(k), |c.attempts| - 1, maxAttempts);
      assert Issued(b) == Issued(k) - 1;
      assert Retries(b) == Retries(k) - (|c.attempts| - 1);
    }
  }

  function Attempted(reason: Reason, retries: nat): ClientCall {
    ClientCall(reason, seq(retries, _ => NotLeader) + [reason])
  }

  /** Some reason with a positive count, as a reason of an attempted call. */
  lemma PickReason(k: Counters, write: bool, maxAttempts: nat) returns (r: Reason)
    requires Shaped(k) && AllCounted(k) && Balanced(k, write, maxAttempts) && Issued(k) > 0
    requires k.reasons[10] == 0 && k.reasons[11] == 0 && LocalDeadlines(k) == 0
    ensures k.reasons[Index(r)] > 0 && r != Protocol && !r.Capacity? && !r.Input?
    ensures r.RpcStatus? ==> r.code < 17 && k.codes[r.code] > 0
    ensures k.calls[Population(ClientCall(r, [r]), write)] > 0
  {
    if k.reasons[0] > 0 { return Success; }
    if k.reasons[1] > 0 { return NotLeader; }
    if k.reasons[2] > 0 { return AdmissionCount; }
    if k.reasons[3] > 0 { return AdmissionBytes; }
    if k.reasons[4] > 0 { return AdmissionOversize; }
    if k.reasons[5] > 0 { return ReadQuorum; }
    if k.reasons[6] > 0 { return ReadApply; }
    if k.reasons[9] > 0 { return Deadline; }
    assert k.reasons[7] > 0;
    var code := PositiveEntry(k.codes);
    return RpcStatus(code);
  }

  lemma {:induction false} PositiveEntry(s: seq<int>) returns (i: nat)
    requires Counted(s) && Sum(s) > 0
    ensures i < |s| && s[i] > 0
  {
    if s[0] > 0 { return 0; }
    i := PositiveEntry(s[1..]);
    i := i + 1;
  }

  /** A call that balanced counters must contain. */
  lemma PickCall(k: Counters, write: bool, maxAttempts: nat) returns (c: ClientCall)
    requires Shaped(k) && AllCounted(k) && Balanced(k, write, maxAttempts) && Total5(k.calls) > 0
    ensures Legal(c, write, maxAttempts, false) && WasCounted(k, c, write)
    ensures c.attempts != [] ==> |c.attempts| - 1 == Retries(k) || |c.attempts| == maxAttempts
  {
    if k.reasons[10] > 0 { return ClientCall(Capacity, []); }
    if k.reasons[11] > 0 { return ClientCall(Input, []); }
    if LocalDeadlines(k) > 0 { return ClientCall(Deadline, []); }
    var r := PickReason(k, write, maxAttempts);
    assert maxAttempts >= 1;
    var retries := if Retries(k) <= maxAttempts - 1 then Retries(k) else maxAttempts - 1;
    c := Attempted(r, retries);
    assert c.attempts[|c.attempts| - 1] == r;
    assert Population(c, write) == Population(ClientCall(r, [r]), write);
  }

  lemma BeforeBalanced(k: Counters, c: ClientCall, write: bool, maxAttempts: nat)
    requires Shaped(k) && AllCounted(k) && Balanced(k, write, maxAttempts)
    requires WasCounted(k, c, write) && Legal(c, write, maxAttempts, false)
    requires c.attempts != [] ==> |c.attempts| - 1 == Retries(k) || |c.attempts| == maxAttempts
    ensures AllCounted(Before(k, c, write)) && Balanced(Before(k, c, write), write, maxAttempts)
    ensures Total5(Before(k, c, write).calls) == Total5(k.calls) - 1
  {
    BeforeTerminals(k, c, write, maxAttempts);
    BeforeAttempts(k, c, write, maxAttempts);
    BeforeCodes(k, c, write, maxAttempts);
    BeforeBudget(k, c, write, maxAttempts);
    PlusTotals(k.calls, Population(c, write), -1);
  }

  /** Balanced counters are the aggregate of legal calls. */
  lemma {:induction false} Realize(k: Counters, write: bool, maxAttempts: nat) returns (cs: seq<ClientCall>)
    requires Shaped(k) && AllCounted(k) && Balanced(k, write, maxAttempts)
    ensures Aggregate(cs, write) == k && forall i | 0 <= i < |cs| :: Legal(cs[i], write, maxAttempts, false)
    decreases Total5(k.calls)
  {
    if Total5(k.calls) == 0 {
      NothingCounted(k, write, maxAttempts);
      return [];
    }
    var c := PickCall(k, write, maxAttempts);
    BeforeBalanced(k, c, write, maxAttempts);
    var rest := Realize(Before(k, c, write), write, maxAttempts);
    BeforeAdd(k, c, write, maxAttempts);
    cs := [c] + rest;
    assert cs[1..] == rest;
  }

  lemma NothingCounted(k: Counters, write: bool, maxAttempts: nat)
    requires Shaped(k) && AllCounted(k) && Balanced(k, write, maxAttempts) && Total5(k.calls) == 0
    ensures k == Aggregate([], write)
  {
    assert forall i | 0 <= i < 5 :: k.calls[i] == 0;
    assert forall i | 0 <= i < 12 :: k.reasons[i] == 0;
    assert Issued(k) * maxAttempts == 0;
    assert forall i | 0 <= i < 12 :: k.attemptReasons[i] == 0;
    SumNonNegative(k.codes);
    assert k.calls == Zeros(5) && k.reasons == Zeros(12) && k.attemptReasons == Zeros(12) && k.codes == Zeros(17);
  }

  lemma {:induction false} AggregateCounted(cs: seq<ClientCall>, write: bool, maxAttempts: nat)
    requires forall k | 0 <= k < |cs| :: Legal(cs[k], write, maxAttempts, false)
    ensures AllCounted(Aggregate(cs, write)) && Aggregate(cs, write).attemptCodes == Aggregate(cs, write).codes
    ensures forall k | 0 <= k < |cs| :: Aggregate(cs, write).reasons[Index(cs[k].reason)] > 0
  {
    if cs != [] {
      AggregateCounted(cs[1..], write, maxAttempts);
      AddCounted(Aggregate(cs[1..], write), cs[0], write, maxAttempts);
      forall k | 0 <= k < |cs| ensures Aggregate(cs, write).reasons[Index(cs[k].reason)] > 0 {
        if k > 0 { assert cs[k] == cs[1..][k - 1]; }
      }
    }
  }

  lemma AddCounted(k: Counters, c: ClientCall, write: bool, maxAttempts: nat)
    requires Shaped(k) && AllCounted(k) && k.attemptCodes == k.codes && Legal(c, write, maxAttempts, false)
    ensures AllCounted(Add(k, c, write)) && Add(k, c, write).attemptCodes == Add(k, c, write).codes
    ensures Add(k, c, write).reasons == Plus(k.reasons, Index(c.reason), 1)
  {
    Contribution(k, c, write, maxAttempts);
    PlusCounted(k.calls, Population(c, write), 1);
    PlusCounted(k.reasons, Index(c.reason), 1);
    if c.attempts != [] {
      PlusCounted(k.attemptReasons, 1, |c.attempts| - 1);
      PlusCounted(Plus(k.attemptReasons, 1, |c.attempts| - 1), Index(c.reason), 1);
    }
  }

  lemma PlusCounted(s: seq<int>, i: nat, n: nat)
    requires i < |s| && Counted(s)
    ensures Counted(Plus(s, i, n))
  {
  }

  ghost predicate Realizable(k: Counters, write: bool, maxAttempts: nat, strict: bool) {
    exists cs :: Aggregate(cs, write) == k && forall i | 0 <= i < |cs| :: Legal(cs[i], write, maxAttempts, strict)
  }

  /** What the check asks of the counters; `strict` adds what it leaves unchecked. */
  ghost predicate Consistent(k: Counters, write: bool, maxAttempts: nat, strict: bool) {
    && Shaped(k) && AllCounted(k) && Balanced(k, write, maxAttempts)
    && (strict && write ==> k.reasons[5] == 0 && k.reasons[6] == 0)
  }

  lemma AggregateConsistent(cs: seq<ClientCall>, write: bool, maxAttempts: nat, strict: bool)
    requires forall i | 0 <= i < |cs| :: Legal(cs[i], write, maxAttempts, strict)
    ensures Consistent(Aggregate(cs, write), write, maxAttempts, strict)
  {
    GenuineBalanced(cs, write, maxAttempts);
    AggregateCounted(cs, write, maxAttempts);
    if strict && write { StrictReasons(cs, write, maxAttempts); }
  }

  lemma RealizeStrictly(k: Counters, write: bool, maxAttempts: nat, strict: bool) returns (cs: seq<ClientCall>)
    requires Consistent(k, write, maxAttempts, strict)
    ensures Aggregate(cs, write) == k && forall i | 0 <= i < |cs| :: Legal(cs[i], write, maxAttempts, strict)
  {
    cs := Realize(k, write, maxAttempts);
    AggregateCounted(cs, write, maxAttempts);
    forall i | 0 <= i < |cs| ensures Legal(cs[i], write, maxAttempts, strict) {
      StrictlyLegal(k, cs[i], write, maxAttempts, strict);
    }
  }

  lemma StrictlyLegal(k: Counters, c: ClientCall, write: bool, maxAttempts: nat, strict: bool)
    requires Shaped(k) && Legal(c, write, maxAttempts, false) && k.reasons[Index(c.reason)] > 0
    requires strict && write ==> k.reasons[5] == 0 && k.reasons[6] == 0
    ensures Legal(c, write, maxAttempts, strict)
  {
  }

  /** The check accepts exactly the counters of legal calls. It does not keep read-quorum outcomes
      out of writes: counters of calls that do are those with both entries zero. */
  lemma ConsistentIffRealizable(k: Counters, write: bool, maxAttempts: nat, strict: bool)
    ensures Realizable(k, write, maxAttempts, strict) <==> Consistent(k, write, maxAttempts, strict)
  {
    if cs :| Aggregate(cs, write) == k && forall i | 0 <= i < |cs| :: Legal(cs[i], write, maxAttempts, strict) {
      AggregateConsistent(cs, write, maxAttempts, strict);
    }
    if Consistent(k, write, maxAttempts, strict) {
      var cs := RealizeStrictly(k, write, maxAttempts, strict);
    }
  }

  // ----- the ranges of the report

  const MAX_CALLS := 10_500_000

  ghost predicate CallsInRange(k: Counters) {
    forall i | 0 <= i < |k.calls| :: k.calls[i] <= MAX_CALLS
  }

  ghost predicate Words(s: seq<int>) {
    forall i | 0 <= i < |s| :: s[i] <= U64
  }

  /** Every counter within the bounds the report's fields have. */
  ghost predicate InRange(k: Counters) {
    CallsInRange(k) && Words(k.reasons) && Words(k.codes) && Words(k.attemptReasons) && Words(k.attemptCodes)
  }

  lemma {:induction false} EntryWithinSum(s: seq<int>, i: nat)
    requires Counted(s) && i < |s|
    ensures s[i] <= Sum(s)
  {
    SumNonNegative(s[1..]);
    if i > 0 { EntryWithinSum(s[1..], i - 1); }
  }

  lemma TotalAttempts(issued: int, maxAttempts: nat, total: int)
    requires 0 <= issued <= 5 * MAX_CALLS && maxAttempts <= 16 && total <= issued * maxAttempts
    ensures total <= 80 * MAX_CALLS
  {
    assert issued * maxAttempts <= issued * 16;
  }

  /** Bounded call counts keep every other counter of a consistent report far below 2^64. */
  lemma RangesImplied(k: Counters, write: bool, maxAttempts: nat)
    requires Shaped(k) && AllCounted(k) && Balanced(k, write, maxAttempts) && CallsInRange(k) && maxAttempts <= 16
    ensures InRange(k)
  {
    TotalAttempts(Issued(k), maxAttempts, Total12(k.attemptReasons));
    forall i | 0 <= i < 17 ensures k.codes[i] <= U64 { EntryWithinSum(k.codes, i); }
  }

  /** A report within its ranges is accepted exactly when calls of bounded number have its counters. */
  lemma ReportExact(k: Counters, write: bool, maxAttempts: nat, strict: bool)
    requires maxAttempts <= 16
    ensures Consistent(k, write, maxAttempts, strict) && InRange(k)
            <==> Realizable(k, write, maxAttempts, strict) && CallsInRange(k)
  {
    ConsistentIffRealizable(k, write, maxAttempts, strict);
    if Consistent(k, write, maxAttempts, strict) && CallsInRange(k) {
      RangesImplied(k, write, maxAttempts);
    }
  }

  lemma {:induction false} StrictReasons(cs: seq<ClientCall>, write: bool, maxAttempts: nat)
    requires write && forall k | 0 <= k < |cs| :: Legal(cs[k], write, maxAttempts, true)
    ensures Aggregate(cs, write).reasons[5] == 0 && Aggregate(cs, write).reasons[6] == 0
  {
    if cs != [] {
      AggregateCounted(cs[1..], write, maxAttempts);
      Contribution(Aggregate(cs[1..], write), cs[0], write, maxAttempts);
      StrictReasons(cs[1..], write, maxAttempts);
    }
  }

  /** The attempt-count identity follows from the per-reason ones. */
  lemma CountEquationRedundant(k: Counters, write: bool)
    requires Shaped(k) && TerminalsBalanced(k, write)
    requires k.attemptReasons[0] == k.reasons[0] && forall i | 2 <= i < 9 :: k.attemptReasons[i] == k.reasons[i]
    requires k.attemptReasons[9] == k.reasons[9] - LocalDeadlines(k)
             && k.attemptReasons[10] == k.attemptReasons[11] == 0
    ensures Total12(k.attemptReasons) == Issued(k) + k.attemptReasons[1] - k.reasons[1]
  {
  }

  /** A write that claims a read-quorum outcome passes the identities. */
  lemma QuorumWriteUnnoticed(maxAttempts: nat)
    requires maxAttempts >= 1
    ensures exists k :: Consistent(k, true, maxAttempts, false) && !Realizable(k, true, maxAttempts, true)
  {
    QuorumWrites([ClientCall(ReadQuorum, [ReadQuorum])], 0, true, maxAttempts);
  }

  /** Any writes among which one claims a read-quorum outcome pass, though no strictly legal writes have their
      counters. */
  lemma QuorumWrites(cs: seq<ClientCall>, i: nat, write: bool, maxAttempts: nat)
    requires write && i < |cs| && (cs[i].reason.ReadQuorum? || cs[i].reason.ReadApply?)
    requires forall j | 0 <= j < |cs| :: Legal(cs[j], write, maxAttempts, false)
    ensures Consistent(Aggregate(cs, write), write, maxAttempts, false)
            && !Realizable(Aggregate(cs, write), write, maxAttempts, true)
  {
    var k := Aggregate(cs, write);
    AggregateConsistent(cs, write, maxAttempts, false);
    ClaimsQuorum(cs, i, write, maxAttempts);
    NotStrict(k, write, maxAttempts);
    ConsistentIffRealizable(k, write, maxAttempts, true);
  }

  lemma ClaimsQuorum(cs: seq<ClientCall>, i: nat, write: bool, maxAttempts: nat)
    requires i < |cs| && (cs[i].reason.ReadQuorum? || cs[i].reason.ReadApply?)
    requires forall j | 0 <= j < |cs| :: Legal(cs[j], write, maxAttempts, false)
    ensures Aggregate(cs, write).reasons[5] > 0 || Aggregate(cs, write).reasons[6] > 0
  {
    AggregateCounted(cs, write, maxAttempts);
  }

  lemma NotStrict(k: Counters, write: bool, maxAttempts: nat)
    requires write && Shaped(k) && (k.reasons[5] > 0 || k.reasons[6] > 0)
    ensures !Consistent(k, write, maxAttempts, true)
  {
  }
}
