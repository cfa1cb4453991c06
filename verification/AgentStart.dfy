/** Bringing an agent back in a restored pane: the start loop with its busy waits and its
    rename ladder, the liveness check after a resume, and the at-most-one fallback. The
    server's replies, the samples and all delays are arbitrary. */
module AgentStart {
  import opened Prelude
  import opened AgentNames

  const SETTLE_BUDGET_MS: nat := 12_000
  const BUSY_SLEEP_MS: nat := 500
  const MAX_REQUESTS: nat := 29

  // ---------------------------------------------------------------- agent.start

  datatype Reply =
    | Accepted
    | PaneBusy
    | NameTaken
    | InvalidName
    | ServerTimeout
    | OtherRefusal
    | TransportTimeout
    | TransportError

  /** The server as one start sees it: the reply to each request and how long it took. */
  datatype Server = Server(reply: nat -> Reply, latency: nat -> nat)

  datatype StartResult = Started(name: string) | Failed(safeToPrefill: bool)

  predicate Renames(r: Reply) {
    r.NameTaken? || r.InvalidName?
  }

  /** How many of the first `k` replies asked for another name. */
  function RenameCount(sv: Server, k: nat): nat {
    if k == 0 then 0 else RenameCount(sv, k - 1) + if Renames(sv.reply(k - 1)) then 1 else 0
  }

  function BusyCount(sv: Server, k: nat): nat {
    if k == 0 then 0 else BusyCount(sv, k - 1) + if sv.reply(k - 1).PaneBusy? then 1 else 0
  }

  /** Milliseconds from the start of the loop to the arrival of reply `k`. */
  function ClockAt(sv: Server, k: nat): nat {
    sv.latency(k) +
    if k == 0 then 0
    else ClockAt(sv, k - 1) + if sv.reply(k - 1).PaneBusy? then BUSY_SLEEP_MS else 0
  }

  /** Reply `k` ends the loop. */
  predicate Ends(sv: Server, k: nat) {
    var r := sv.reply(k);
    if r.PaneBusy? then ClockAt(sv, k) >= SETTLE_BUDGET_MS
    else if Renames(r) then RenameCount(sv, k) >= 4
    else true
  }

  predicate GoesOn(sv: Server, k: nat) {
    forall j | 0 <= j < k :: !Ends(sv, j)
  }

  lemma {:induction false} ClockCountsSleeps(sv: Server, k: nat)
    ensures ClockAt(sv, k) >= BUSY_SLEEP_MS * BusyCount(sv, k)
  {
    if k > 0 { ClockCountsSleeps(sv, k - 1); }
  }

  /** A loop that is still going after `k` replies saw only busy panes and taken names, at
      most 24 of the one and 4 of the other. */
  lemma {:induction false} GoingOnIsBounded(sv: Server, k: nat)
    requires GoesOn(sv, k)
    ensures k == BusyCount(sv, k) + RenameCount(sv, k)
    ensures BusyCount(sv, k) <= 24 && RenameCount(sv, k) <= 4
  {
    if k > 0 {
      GoingOnIsBounded(sv, k - 1);
      ClockCountsSleeps(sv, k - 1);
      assert !Ends(sv, k - 1);
    }
  }

  /** The reply that ends the loop. */
  function EndOf(sv: Server, k: nat): (r: nat)
    requires GoesOn(sv, k)
    ensures k <= r < MAX_REQUESTS && Ends(sv, r) && GoesOn(sv, r)
    decreases MAX_REQUESTS - k
  {
    GoingOnIsBounded(sv, k);
    if Ends(sv, k) then k else
    assert GoesOn(sv, k + 1);
    GoingOnIsBounded(sv, k + 1);
    EndOf(sv, k + 1)
  }

  lemma EndIsFirst(sv: Server, k: nat)
    requires GoesOn(sv, k)
    ensures k <= EndOf(sv, 0) && (Ends(sv, k) ==> EndOf(sv, 0) == k)
  {
    assert k < EndOf(sv, 0) ==> !Ends(sv, k);
  }

  /** What the last reply to a start under this name means. */
  function Conclusion(r: Reply, name: string): StartResult {
    match r
    case Accepted => Started(name)
    case ServerTimeout => Started(name)
    case TransportTimeout => Failed(false)
    case _ => Failed(true)
  }

  /** What a start that walks the given names ends with. */
  function OutcomeOver(ladder: seq<string>, sv: Server): StartResult
    requires |ladder| == 5
  {
    var k := EndOf(sv, 0);
    GoingOnIsBounded(sv, k);
    Conclusion(sv.reply(k), ladder[RenameCount(sv, k)])
  }

  lemma OutcomeAt(ladder: seq<string>, sv: Server, k: nat)
    requires |ladder| == 5 && GoesOn(sv, k) && RenameCount(sv, k) <= 4
    ensures Ends(sv, k) ==>
              EndOf(sv, 0) == k && OutcomeOver(ladder, sv) == Conclusion(sv.reply(k), ladder[RenameCount(sv, k)])
  {
    EndIsFirst(sv, k);
  }

  /** The agent runs, or its start is still under way on the server. */
  predicate Succeeds(r: Reply) {
    r.Accepted? || r.ServerTimeout?
  }

  /** This reply lets the start go on: the pane is busy and time is left, or the name is no
      good and the ladder has another. */
  predicate Retries(sv: Server, k: nat) {
    || (sv.reply(k).PaneBusy? && ClockAt(sv, k) < 12_000)
    || ((sv.reply(k).NameTaken? || sv.reply(k).InvalidName?) && RenameCount(sv, k) < 4)
  }

  /** `k` is the reply that ends a start: the first that does not let it go on. */
  predicate IsLastReply(sv: Server, k: nat) {
    !Retries(sv, k) && forall j | 0 <= j < k :: Retries(sv, j)
  }

  lemma EndIsLastReply(sv: Server, k: nat)
    ensures k == EndOf(sv, 0) <==> IsLastReply(sv, k)
  {
    var end := EndOf(sv, 0);
    forall j: nat ensures Ends(sv, j) <==> !Retries(sv, j) {}
    assert k < end ==> !Ends(sv, k);
    assert IsLastReply(sv, end);
  }

  /** What the last reply decides: the start succeeded exactly when the agent was accepted or
      the server is still at it, under the name that so many renames lead to; the pane is not
      free exactly when the transport timed out. */
  predicate Concludes(ladder: seq<string>, sv: Server, result: StartResult, k: nat)
    requires |ladder| == 5
  {
    && (result.Started? <==> Succeeds(sv.reply(k)))
    && (result.Started? ==> RenameCount(sv, k) < 5 && result.name == ladder[RenameCount(sv, k)])
    && (result == Failed(false) <==> sv.reply(k).TransportTimeout?)
  }

  lemma OutcomeConcludes(ladder: seq<string>, sv: Server)
    requires |ladder| == 5
    ensures Concludes(ladder, sv, OutcomeOver(ladder, sv), EndOf(sv, 0))
  {
    GoingOnIsBounded(sv, EndOf(sv, 0));
  }

  function Sum(f: nat -> nat, n: nat): nat {
    if n == 0 then 0 else Sum(f, n - 1) + f(n - 1)
  }

  /** The clock counts the server's time and half a second for every busy pane. */
  lemma {:induction false} ClockIsTheSum(sv: Server, k: nat)
    ensures ClockAt(sv, k) == Sum(sv.latency, k + 1) + 500 * BusyCount(sv, k)
  {
    if k > 0 { ClockIsTheSum(sv, k - 1); }
  }

  function Outcome(seed: string, sv: Server): StartResult {
    OutcomeOver(Candidates(AliasOf(seed)), sv)
  }

  /** The names a start tries, in order. */
  method Ladder(seed: string) returns (ladder: seq<string>)
    ensures ladder == Candidates(AliasOf(seed))
    ensures |ladder| == 5 && forall i | 0 <= i < 5 :: IsValidAlias(ladder[i])
  {
    var base := Alias(seed);
    var candidates := AliasCandidates(base);
    LadderOfAliasIsSound(seed);
    ladder := Filter(candidates, IsValidAlias);
  }

  /** `start_agent`. For any replies and delays it ends within 29 requests. */
  method StartAgent(seed: string, sv: Server) returns (result: StartResult, requests: nat)
    ensures 1 <= requests <= 29 && IsLastReply(sv, requests - 1)
    ensures result == Outcome(seed, sv)
    ensures Concludes(Candidates(AliasOf(seed)), sv, result, requests - 1)
    ensures result.Started? ==> IsValidAlias(result.name)
  {
    var ladder := Ladder(seed);
    result, requests := StartWith(ladder, sv);
    GoingOnIsBounded(sv, requests - 1);
  }

  /** What one more reply adds to the counts and the clock. */
  lemma Advance(sv: Server, k: nat)
    ensures RenameCount(sv, k + 1) == RenameCount(sv, k) + if Renames(sv.reply(k)) then 1 else 0
    ensures ClockAt(sv, k + 1) - sv.latency(k + 1) ==
            ClockAt(sv, k) + if sv.reply(k).PaneBusy? then BUSY_SLEEP_MS else 0
    ensures GoesOn(sv, k) && !Ends(sv, k) ==> GoesOn(sv, k + 1) && k + 1 < MAX_REQUESTS
  {
    if GoesOn(sv, k) && !Ends(sv, k) { GoingOnIsBounded(sv, k + 1); }
  }

  /** The request loop over a ladder of names; `upcoming` is the iterator's position. */
  method StartWith(ladder: seq<string>, sv: Server) returns (result: StartResult, requests: nat)
    requires |ladder| == 5
    ensures requests == EndOf(sv, 0) + 1 && IsLastReply(sv, requests - 1)
    ensures result == OutcomeOver(ladder, sv) && Concludes(ladder, sv, result, requests - 1)
  {
    EndIsLastReply(sv, EndOf(sv, 0));
    OutcomeConcludes(ladder, sv);
    var name, upcoming := ladder[0], 1;
    var clock := 0;
    requests := 0;
    while true
      invariant GoesOn(sv, requests) && requests < MAX_REQUESTS
      invariant upcoming == RenameCount(sv, requests) + 1 <= 5 && name == ladder[upcoming - 1]
      invariant clock == ClockAt(sv, requests) - sv.latency(requests)
      decreases MAX_REQUESTS - requests
    {
      ghost var k := requests;
      OutcomeAt(ladder, sv, k);
      Advance(sv, k);
      var r := sv.reply(requests);
      clock := clock + sv.latency(requests);
      requests := requests + 1;
      match r {
        case Accepted =>
          return Started(name), requests;
        case PaneBusy =>
          if clock >= SETTLE_BUDGET_MS { return Failed(true), requests; }
          clock := clock + BUSY_SLEEP_MS;
        case NameTaken | InvalidName =>
          if upcoming == |ladder| { return Failed(true), requests; }
          name, upcoming := ladder[upcoming], upcoming + 1;
        case ServerTimeout =>
          return Started(name), requests;
        case TransportTimeout =>
          return Failed(false), requests;
        case OtherRefusal | TransportError =>
          return Failed(true), requests;
      }
      assert !Ends(sv, k);
    }
  }

  /** The server that makes a start last: busy as long as allowed, then four taken names. */
  const Stubborn := Server(k => if k < 24 then PaneBusy else if k < 28 then NameTaken else Accepted, k => 0)

  lemma {:induction false} StubbornGoesOn(k: nat)
    requires k <= 28
    ensures BusyCount(Stubborn, k) == Min(k, 24) && RenameCount(Stubborn, k) == SatSub(k, 24)
    ensures ClockAt(Stubborn, k) == BUSY_SLEEP_MS * Min(k, 24)
    ensures GoesOn(Stubborn, k)
  {
    if k > 0 { StubbornGoesOn(k - 1); }
  }

  /** The bound of 29 requests is reached. */
  lemma BoundIsTight()
    ensures EndOf(Stubborn, 0) + 1 == 29
  {
    StubbornGoesOn(28);
    assert !Ends(Stubborn, EndOf(Stubborn, 0)) || EndOf(Stubborn, 0) >= 28;
  }

  // ---------------------------------------------------------------- the liveness check

  datatype Liveness = Alive | Exited | Unknown

  datatype Verify = Verify(budget: nat, interval: nat, settle: nat, exitStreak: nat)

  const DefaultVerify := Verify(4_000, 400, 1_600, 2)

  /** The samples of a pane and how much later than planned each one is taken. */
  datatype Watch = Watch(sample: nat -> Liveness, delay: nat -> nat)

  function Elapsed(v: Verify, w: Watch, k: nat): nat {
    v.interval + w.delay(k) + if k == 0 then 0 else Elapsed(v, w, k - 1)
  }

  /** Consecutive exits up to and including sample `k`. */
  function Streak(w: Watch, k: nat): nat {
    if !w.sample(k).Exited? then 0 else 1 + if k == 0 then 0 else Streak(w, k - 1)
  }

  predicate Decides(v: Verify, w: Watch, k: nat) {
    || (w.sample(k).Exited? && Streak(w, k) >= v.exitStreak)
    || (w.sample(k).Alive? && Elapsed(v, w, k) >= v.settle)
    || Elapsed(v, w, k) >= v.budget
  }

  function Decision(v: Verify, w: Watch, k: nat): Liveness {
    if w.sample(k).Exited? && Streak(w, k) >= v.exitStreak then Exited
    else if w.sample(k).Alive? then Alive
    else Unknown
  }

  predicate Watches(v: Verify, w: Watch, k: nat) {
    forall j | 0 <= j < k :: !Decides(v, w, j)
  }

  lemma {:induction false} ElapsedGrows(v: Verify, w: Watch, k: nat)
    ensures Elapsed(v, w, k) >= (k + 1) * v.interval
  {
    if k > 0 {
      ElapsedGrows(v, w, k - 1);
      assert (k + 1) * v.interval == k * v.interval + v.interval;
    }
  }

  /** Rounded up; at least one sample is always taken. */
  function SampleBound(v: Verify): nat
    requires v.interval > 0
  {
    Max(1, (v.budget + v.interval - 1) / v.interval)
  }

  lemma BudgetEnds(v: Verify, w: Watch, k: nat)
    requires v.interval > 0 && k + 1 >= SampleBound(v)
    ensures Decides(v, w, k)
  {
    ElapsedGrows(v, w, k);
    var b, i := v.budget, v.interval;
    var q := (b + i - 1) / i;
    assert q * i >= b by { assert b + i - 1 < q * i + i; }
    assert (k + 1) * i >= q * i by { MulMonotone(q, k + 1, i); }
  }

  lemma MulMonotone(a: nat, b: nat, c: nat)
    requires a <= b
    ensures a * c <= b * c
  {
  }

  /** What every real clock does: it reaches the budget some time. */
  ghost predicate ClockReaches(v: Verify, w: Watch) {
    exists k: nat :: Elapsed(v, w, k) >= v.budget
  }

  /** With a positive interval the sleeps alone see to that. */
  lemma SleepsReach(v: Verify, w: Watch)
    requires v.interval > 0
    ensures ClockReaches(v, w)
  {
    ElapsedGrows(v, w, v.budget);
    MulMonotone(1, v.interval, v.budget + 1);
    assert (v.budget + 1) * v.interval >= v.budget;
    assert Elapsed(v, w, v.budget) >= v.budget;
  }

  ghost function FirstFrom(v: Verify, w: Watch, k: nat, limit: nat): (r: nat)
    requires k <= limit && Elapsed(v, w, limit) >= v.budget && Watches(v, w, k)
    ensures k <= r <= limit && Decides(v, w, r) && Watches(v, w, r)
    decreases limit - k
  {
    if Decides(v, w, k) then k else FirstFrom(v, w, k + 1, limit)
  }

  /** The first sample that decides. */
  ghost function Decider(v: Verify, w: Watch): (r: nat)
    requires ClockReaches(v, w)
    ensures Decides(v, w, r) && Watches(v, w, r)
  {
    var limit: nat :| Elapsed(v, w, limit) >= v.budget;
    FirstFrom(v, w, 0, limit)
  }

  lemma DeciderIsFirst(v: Verify, w: Watch, k: nat)
    requires ClockReaches(v, w) && Watches(v, w, k)
    ensures Decides(v, w, k) ==> Decider(v, w) == k
  {
    assert k < Decider(v, w) ==> !Decides(v, w, k);
  }

  /** A positive interval bounds the number of samples, whatever they show. */
  lemma DeciderIsBounded(v: Verify, w: Watch)
    requires v.interval > 0 && ClockReaches(v, w)
    ensures Decider(v, w) < SampleBound(v)
  {
    BudgetEnds(v, w, SampleBound(v) - 1);
  }

  /** The plugin's own settings take at most ten samples. */
  lemma DefaultTakesTen(w: Watch)
    ensures DefaultVerify.budget == 4_000 && DefaultVerify.interval == 400
    ensures DefaultVerify.settle == 1_600 && DefaultVerify.exitStreak == 2
    ensures ClockReaches(DefaultVerify, w) && Decider(DefaultVerify, w) < 10
  {
    SleepsReach(DefaultVerify, w);
    DeciderIsBounded(DefaultVerify, w);
  }

  ghost function Verdict(v: Verify, w: Watch): Liveness
    requires ClockReaches(v, w)
  {
    Decision(v, w, Decider(v, w))
  }

  /** There were `n` samples up to `k`, and the last `n` of them were exits. */
  predicate LastAreExits(w: Watch, k: nat, n: nat) {
    n <= k + 1 && forall j | 0 <= j <= k && k - n < j :: w.sample(j).Exited?
  }

  /** The streak counter measures exactly the consecutive exits at the end. */
  lemma {:induction false} StreakIsConsecutive(w: Watch, k: nat, n: nat)
    ensures Streak(w, k) >= n <==> LastAreExits(w, k, n)
  {
    if n > 0 && k > 0 {
      StreakIsConsecutive(w, k - 1, n - 1);
    }
  }

  /** A sample decides exactly when it completes the streak of exits, or shows the agent alive
      after the settle time, or comes after the budget. */
  lemma DecidesExactlyWhen(v: Verify, w: Watch, k: nat)
    ensures Decides(v, w, k) <==>
            || LastAreExits(w, k, Max(1, v.exitStreak))
            || (w.sample(k).Alive? && Elapsed(v, w, k) >= v.settle)
            || Elapsed(v, w, k) >= v.budget
  {
    StreakIsConsecutive(w, k, Max(1, v.exitStreak));
  }

  /** The time of a sample is its sleeps and all delays. */
  lemma {:induction false} ElapsedIsTheSum(v: Verify, w: Watch, k: nat)
    ensures Elapsed(v, w, k) == (k + 1) * v.interval + Sum(w.delay, k + 1)
  {
    if k > 0 {
      ElapsedIsTheSum(v, w, k - 1);
      assert (k + 1) * v.interval == k * v.interval + v.interval;
    }
  }

  /** What the deciding sample means: an exit exactly when it completes the streak, life
      exactly when it shows the agent alive, and neither only when the budget is spent. */
  predicate Judges(v: Verify, w: Watch, k: nat, verdict: Liveness) {
    && (verdict.Exited? <==> LastAreExits(w, k, Max(1, v.exitStreak)))
    && (verdict.Alive? <==> w.sample(k).Alive?)
    && (verdict.Alive? ==> Elapsed(v, w, k) >= Min(v.settle, v.budget))
    && (verdict.Unknown? ==> Elapsed(v, w, k) >= v.budget)
  }

  lemma VerdictMeans(v: Verify, w: Watch)
    requires ClockReaches(v, w)
    ensures Judges(v, w, Decider(v, w), Verdict(v, w))
  {
    StreakIsConsecutive(w, Decider(v, w), Max(1, v.exitStreak));
  }

  /** Sample `k` decides and none before it does. */
  predicate FirstToDecide(v: Verify, w: Watch, k: nat) {
    && (LastAreExits(w, k, Max(1, v.exitStreak)) || SettledAt(v, w, k) || Elapsed(v, w, k) >= v.budget)
    && forall j | 0 <= j < k ::
         !LastAreExits(w, j, Max(1, v.exitStreak)) && !SettledAt(v, w, j) && Elapsed(v, w, j) < v.budget
  }

  predicate SettledAt(v: Verify, w: Watch, k: nat) {
    w.sample(k).Alive? && Elapsed(v, w, k) >= v.settle
  }

  lemma DeciderIsFirstToDecide(v: Verify, w: Watch)
    requires ClockReaches(v, w)
    ensures FirstToDecide(v, w, Decider(v, w))
  {
    var k := Decider(v, w);
    DecidesExactlyWhen(v, w, k);
    forall j | 0 <= j < k
      ensures !LastAreExits(w, j, Max(1, v.exitStreak)) && !SettledAt(v, w, j) && Elapsed(v, w, j) < v.budget
    {
      DecidesExactlyWhen(v, w, j);
      assert !Decides(v, w, j);
    }
  }

  /** `verify_agent`. */
  method VerifyAgent(v: Verify, w: Watch) returns (result: Liveness, taken: nat)
    requires ClockReaches(v, w)
    ensures taken == Decider(v, w) + 1 && result == Verdict(v, w)
    ensures v.interval > 0 ==> taken <= SampleBound(v)
    ensures FirstToDecide(v, w, taken - 1) && Judges(v, w, taken - 1, result)
  {
    VerdictMeans(v, w);
    DeciderIsFirstToDecide(v, w);
    if v.interval > 0 { DeciderIsBounded(v, w); }
    ghost var decider := Decider(v, w);
    var streak := 0;
    var elapsed := 0;
    taken := 0;
    while true
      invariant taken <= decider && Watches(v, w, taken)
      invariant streak == if taken == 0 then 0 else Streak(w, taken - 1)
      invariant elapsed == if taken == 0 then 0 else Elapsed(v, w, taken - 1)
      decreases decider - taken
    {
      elapsed := elapsed + v.interval + w.delay(taken);
      var last := w.sample(taken);
      taken := taken + 1;
      DeciderIsFirst(v, w, taken - 1);
      match last {
        case Exited =>
          streak := streak + 1;
          if streak >= v.exitStreak { return Exited, taken; }
        case Alive =>
          streak := 0;
          if elapsed >= v.settle { return Alive, taken; }
        case Unknown =>
          streak := 0;
      }
      if elapsed >= v.budget {
        return if last.Alive? then Alive else Unknown, taken;
      }
    }
  }

  // ---------------------------------------------------------------- restoring an agent

  /** What one restored agent adds to the report: the arguments of each start, the counters,
      and how often text was typed into the pane. */
  datatype AgentReport = AgentReport(
    starts: seq<seq<string>>, resumed: nat, startedFresh: nat, failures: nat, prefilled: nat, typed: nat)

  const NoReport := AgentReport([], 0, 0, 0, 0, 0)

  /** The report counts the same starts and outcomes as before. */
  predicate SameStarts(r: AgentReport, out: AgentReport) {
    out.starts == r.starts && out.resumed == r.resumed && out.startedFresh == r.startedFresh
  }

  /** `prefill`: one text typed, counted as a prefill or as a failure. */
  method Prefill(r: AgentReport, sendOk: bool) returns (out: AgentReport)
    ensures SameStarts(r, out) && out.typed == r.typed + 1
    ensures out.prefilled + out.failures == r.prefilled + r.failures + 1
    ensures if sendOk then out.failures == r.failures else out.prefilled == r.prefilled
  {
    out := r.(typed := r.typed + 1);
    if sendOk { out := out.(prefilled := out.prefilled + 1); }
    else { out := out.(failures := out.failures + 1); }
  }

  /** `fallback_to_prefill`: the failed start is always reported, text is typed exactly when
      the pane is free, and each text is counted once more, by what became of it. */
  method FallBack(r: AgentReport, safe: bool, sendOk: bool) returns (out: AgentReport)
    ensures SameStarts(r, out) && out.failures > r.failures
    ensures out.typed == r.typed || out.typed == r.typed + 1
    ensures out.typed > r.typed <==> safe
    ensures (out.failures - r.failures) + (out.prefilled - r.prefilled) == 1 + (out.typed - r.typed)
    ensures out.prefilled >= r.prefilled && (out.prefilled > r.prefilled <==> safe && sendOk)
  {
    out := r.(failures := r.failures + 1);
    if safe { out := Prefill(out, sendOk); }
  }

  /** The last reply that a start gets from this server. */
  function LastReply(sv: Server): Reply {
    sv.reply(EndOf(sv, 0))
  }

  /** The watched pane was seen to lose its agent: the first sample that decides completes the
      streak of exits. */
  ghost predicate ExitConfirmed(v: Verify, w: Watch)
    requires ClockReaches(v, w)
  {
    LastAreExits(w, Decider(v, w), Max(1, v.exitStreak))
  }

  /** `restore_agent`: `resumeArgs` is None for an unsupported kind, `missing` says that the
      session has no transcript, `first` and `second` are the servers of the two starts. */
  method RestoreAgent(
    resumeArgs: Option<seq<string>>, missing: bool, seed: string,
    first: Server, second: Server, v: Verify, watch: Watch, sendOk: bool) returns (r: AgentReport)
    requires ClockReaches(v, watch)
    // exactly one of resumed, started fresh or failed
    ensures r.resumed + r.startedFresh + (if r.failures > 0 then 1 else 0) == 1
    ensures r.resumed == 1 <==>
              resumeArgs.Some? && !missing && Succeeds(LastReply(first)) && !ExitConfirmed(v, watch)
    ensures r.startedFresh == 1 <==>
              resumeArgs.Some? && Succeeds(LastReply(first)) &&
              (missing || (ExitConfirmed(v, watch) && Succeeds(LastReply(second))))
    // at most two starts, the second without resume arguments and only after a confirmed exit
    ensures r.starts ==
              if resumeArgs.None? then []
              else if missing then [[]]
              else if Succeeds(LastReply(first)) && ExitConfirmed(v, watch) then [resumeArgs.value, []]
              else [resumeArgs.value]
    // text is typed exactly after a first start that failed with the pane known to be free
    ensures r.typed == 1 <==>
              resumeArgs.Some? && !Succeeds(LastReply(first)) && !LastReply(first).TransportTimeout?
    ensures r.typed <= 1
    ensures r.prefilled == (if sendOk then r.typed else 0)
    ensures r.failures <= 2 && (r.failures == 2 <==> r.typed == 1 && !sendOk)
  {
    EndIsLastReply(first, EndOf(first, 0));
    EndIsLastReply(second, EndOf(second, 0));
    r := NoReport;
    if resumeArgs.None? {
      return r.(failures := 1);
    }
    if missing {
      r := r.(starts := r.starts + [[]]);
      var s, n := StartAgent(seed, first);
      EndIsLastReply(first, n - 1);
      match s {
        case Started(_) => r := r.(startedFresh := r.startedFresh + 1);
        case Failed(safe) => r := FallBack(r, safe, sendOk);
      }
      return;
    }
    r := r.(starts := r.starts + [resumeArgs.value]);
    var s, n := StartAgent(seed, first);
    EndIsLastReply(first, n - 1);
    match s {
      case Started(_) =>
        var liveness, taken := VerifyAgent(v, watch);
        if liveness.Exited? {
          r := r.(starts := r.starts + [[]]);
          var s2, n2 := StartAgent(seed, second);
          EndIsLastReply(second, n2 - 1);
          match s2 {
            case Started(_) => r := r.(startedFresh := r.startedFresh + 1);
            case Failed(_) => r := r.(failures := r.failures + 1);
          }
          return;
        }
        r := r.(resumed := r.resumed + 1);
      case Failed(safe) =>
        r := FallBack(r, safe, sendOk);
    }
  }
}
