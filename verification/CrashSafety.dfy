/** Crash tolerance: every file write of a locked section is its own step, and the process
    may die between any two of them. The operating system then releases the lock. */
module CrashSafety {
  import opened Prelude
  import opened Model
  import opened Bursts
  import opened Stacks

  /** What a stack write does: record the entries of a burst, take an entry for a reopen, put
      one back, or drop what has expired. */
  datatype Effect =
    | Records(burst: Burst, entries: seq<ClosedEntry>)
    | Takes(entry: ClosedEntry)
    | Returns(entry: ClosedEntry)
    | Prunes

  function RecordsOf(effect: Effect): Option<Burst> {
    if effect.Records? then Some(effect.burst) else None
  }

  /** One file write. A stack write names its effect; a pending write names the event it
      commits, the burst it throws away and the burst whose inference gave no entry to record. */
  datatype Write =
    | StackWrite(closed: ClosedStack, effect: Effect)
    | PendingWrite(pending: Option<Burst>, commits: multiset<BurstEvent>,
                   drops: Option<Burst>, silent: Option<Burst>)

  datatype Section =
    | PushS(token: Token, ev: BurstEvent, frozen: seq<WorkspaceSnap>, now: nat)
    | FinaliseS(token: Token, now: nat)
    | RecoverS(now: nat, later: nat)
    | PopS(want: Option<nat>, now: nat)
    | PushBackS(entry: ClosedEntry)

  function ApplyWrite(d: Disk, w: Write): Disk {
    match w
    case StackWrite(closed, _) => d.(closed := closed)
    case PendingWrite(pending, _, _, _) => d.(pending := pending)
  }

  function ApplyAll(d: Disk, ws: seq<Write>): Disk
    decreases |ws|
  {
    if ws == [] then d else ApplyAll(ApplyWrite(d, ws[0]), ws[1..])
  }

  // ---------------------------------------------------------------- the writes of a section

  /** The stack write of `finalize_locked`, if there is anything to record. */
  function RecordWrites(cfg: Config, d: Disk, b: Burst, now: nat): seq<Write> {
    if NewEntries(d.closed, b, cfg, now) == [] then []
    else [StackWrite(Finalized(d.closed, b, cfg, now), Records(b, NewEntries(d.closed, b, cfg, now)))]
  }

  function SilentIf(cfg: Config, d: Disk, b: Burst, now: nat): Option<Burst> {
    if NewEntries(d.closed, b, cfg, now) == [] then Some(b) else None
  }

  function RecoverHead(cfg: Config, d: Disk, now: nat, later: nat): seq<Write> {
    if !Abandoned(d.pending, now) then []
    else if HasCloseEvent(d.pending.value)
    then RecordWrites(cfg, d, d.pending.value, later)
         + [PendingWrite(None, multiset{}, None, SilentIf(cfg, d, d.pending.value, later))]
    else [PendingWrite(None, multiset{}, d.pending, None)]
  }

  function Writes(cfg: Config, d: Disk, s: Section): seq<Write> {
    match s
    case PushS(token, ev, frozen, now) =>
      var r := Push(d.pending, ev, token, frozen);
      if r.expired.Some?
      then RecordWrites(cfg, d, r.expired.value, now)
           + [PendingWrite(Some(r.burst), multiset{ev}, None, SilentIf(cfg, d, r.expired.value, now))]
      else [PendingWrite(Some(r.burst), multiset{ev}, r.dropped, None)]
    case FinaliseS(token, now) =>
      if OwnsFinalization(d.pending, token)
      then RecordWrites(cfg, d, d.pending.value, now)
           + [PendingWrite(None, multiset{}, None, SilentIf(cfg, d, d.pending.value, now))]
      else []
    case RecoverS(now, later) =>
      var head := RecoverHead(cfg, d, now, later);
      head + RecoverTail(cfg, ApplyAll(d, head), now)
    case PopS(want, now) =>
      var (after, picked) := PopSection(cfg, d, want, now);
      if picked.Some? then [StackWrite(after.closed, Takes(picked.value))] else []
    case PushBackS(entry) =>
      if OnStack(d.closed, entry.id) then [] else [StackWrite(PushBackSection(d, entry).closed, Returns(entry))]
  }

  function Outcome(cfg: Config, d: Disk, s: Section): Disk {
    match s
    case PushS(token, ev, frozen, now) => PushSection(cfg, d, ev, token, frozen, now)
    case FinaliseS(token, now) => FinaliseSection(cfg, d, token, now)
    case RecoverS(now, later) => RecoverSection(cfg, d, now, later)
    case PopS(want, now) => PopSection(cfg, d, want, now).0
    case PushBackS(entry) => PushBackSection(d, entry)
  }

  lemma ApplyAllAppend(d: Disk, a: seq<Write>, b: seq<Write>)
    ensures ApplyAll(d, a + b) == ApplyAll(ApplyAll(d, a), b)
    decreases |a|
  {
    if a == [] {
      assert a + b == b;
    } else {
      ApplyAllAppend(ApplyWrite(d, a[0]), a[1..], b);
      assert (a + b)[1..] == a[1..] + b;
    }
  }

  lemma RecordsThen(cfg: Config, d: Disk, b: Burst, now: nat, w: Write)
    requires w.PendingWrite?
    ensures ApplyAll(d, RecordWrites(cfg, d, b, now) + [w]) == Disk(w.pending, Finalized(d.closed, b, cfg, now))
  {
    var head := RecordWrites(cfg, d, b, now);
    ApplyAllAppend(d, head, [w]);
    assert ApplyAll(ApplyAll(d, head), [w]) == ApplyWrite(ApplyAll(d, head), w);
    if head != [] { assert ApplyAll(d, head) == ApplyWrite(d, head[0]); }
  }

  /** A section that is not cut short leaves exactly the files of its atomic step. */
  lemma WholeSectionIsAtomic(cfg: Config, d: Disk, s: Section)
    ensures ApplyAll(d, Writes(cfg, d, s)) == Outcome(cfg, d, s)
  {
    match s {
      case PushS(token, ev, frozen, now) =>
        var r := Push(d.pending, ev, token, frozen);
        if r.expired.Some? {
          RecordsThen(cfg, d, r.expired.value, now,
                      PendingWrite(Some(r.burst), multiset{ev}, None, SilentIf(cfg, d, r.expired.value, now)));
        }
      case FinaliseS(token, now) =>
        if OwnsFinalization(d.pending, token) {
          RecordsThen(cfg, d, d.pending.value, now,
                      PendingWrite(None, multiset{}, None, SilentIf(cfg, d, d.pending.value, now)));
        }
      case RecoverS(now, later) =>
        RecoverIsAtomic(cfg, d, now, later);
      case _ =>
    }
  }

  lemma RecoverIsAtomic(cfg: Config, d: Disk, now: nat, later: nat)
    ensures ApplyAll(d, Writes(cfg, d, RecoverS(now, later))) == RecoverSection(cfg, d, now, later)
  {
    var head := RecoverHead(cfg, d, now, later);
    if Abandoned(d.pending, now) && HasCloseEvent(d.pending.value) {
      RecordsThen(cfg, d, d.pending.value, later,
                  PendingWrite(None, multiset{}, None, SilentIf(cfg, d, d.pending.value, later)));
    }
    var mid := ApplyAll(d, head);
    var pruned := Prune(mid.closed, now, cfg.entryTtlHours, STACK_CAP);
    ApplyAllAppend(d, head, [StackWrite(pruned, Prunes)]);
    assert head + [] == head;
  }

  // ---------------------------------------------------------------- the write-level machine

  /** The section in progress: the writes still to come, and whether the pending burst's
      entries are already on the stack while the burst is still on disk. */
  datatype Running = Running(todo: seq<Write>, recorded: bool)

  datatype Machine = Machine(
    disk: Disk,
    running: Option<Running>,
    committed: multiset<BurstEvent>,
    recorded: multiset<BurstEvent>,
    dropped: multiset<BurstEvent>,
    repeats: multiset<BurstEvent>,
    issued: seq<ClosedEntry>,
    held: set<ClosedEntry>,
    bursts: seq<Burst>)

  const Boot := Machine(Disk(None, EmptyStack), None, multiset{}, multiset{}, multiset{}, multiset{}, [], {}, [])

  datatype MStep = Begin(section: Section) | DoWrite | Crash

  predicate MEnabled(m: Machine, step: MStep) {
    match step
    case Begin(_) => m.running.None?
    case DoWrite => m.running.Some? && m.running.value.todo != []
    case Crash => m.running.Some?
  }

  function Settle(m: Machine): Machine {
    if m.running.Some? && m.running.value.todo == [] then m.(running := None) else m
  }

  function IssuedBy(effect: Effect): seq<ClosedEntry> {
    if effect.Records? then effect.entries else []
  }

  /** The entries in the hands of reopens, those that died with one included. */
  function HeldAfter(held: set<ClosedEntry>, effect: Effect): set<ClosedEntry> {
    match effect
    case Takes(entry) => held + {entry}
    case Returns(entry) => held - {entry}
    case _ => held
  }

  function WithBurst(bursts: seq<Burst>, b: Option<Burst>): seq<Burst> {
    if b.Some? then bursts + [b.value] else bursts
  }

  function MNext(cfg: Config, m: Machine, step: MStep): Machine
    requires MEnabled(m, step)
  {
    match step
    case Begin(s) => Settle(m.(running := Some(Running(Writes(cfg, m.disk, s), false))))
    case DoWrite =>
      var w := m.running.value.todo[0];
      var rest := m.running.value.todo[1..];
      var m1 := m.(disk := ApplyWrite(m.disk, w));
      Settle(
        match w
        case StackWrite(_, effect) =>
          m1.(recorded := m.recorded + EventsOf(RecordsOf(effect)),
              bursts := WithBurst(m.bursts, RecordsOf(effect)),
              issued := m.issued + IssuedBy(effect),
              held := HeldAfter(m.held, effect),
              running := Some(Running(rest, m.running.value.recorded || effect.Records?)))
        case PendingWrite(_, commits, drops, silent) =>
          m1.(committed := m.committed + commits,
              dropped := m.dropped + EventsOf(drops),
              recorded := m.recorded + EventsOf(silent),
              bursts := WithBurst(m.bursts, silent),
              running := Some(Running(rest, false))))
    case Crash =>
      m.(running := None,
         repeats := m.repeats + (if m.running.value.recorded then EventsOf(m.disk.pending) else multiset{}))
  }

  predicate MValid(cfg: Config, m: Machine, run: seq<MStep>)
    decreases |run|
  {
    run == [] || (MEnabled(m, run[0]) && MValid(cfg, MNext(cfg, m, run[0]), run[1..]))
  }

  function MExec(cfg: Config, m: Machine, run: seq<MStep>): Machine
    requires MValid(cfg, m, run)
    decreases |run|
  {
    if run == [] then m else MExec(cfg, MNext(cfg, m, run[0]), run[1..])
  }

  // ---------------------------------------------------------------- the law

  // The books are kept per event: m[e] is how often e occurs.

  function Count(p: Option<Burst>, e: BurstEvent): nat {
    EventsOf(p)[e]
  }

  /** The writes still to come keep the books of `e`: a burst leaves the pending file only
      after its entries reached the stack, or because inference had nothing to record, or as
      a dropped chain. */
  predicate SafeTodo(todo: seq<Write>, recorded: bool, pending: Option<Burst>, e: BurstEvent) {
    if todo == [] then !recorded
    else match todo[0]
      case StackWrite(_, effect) =>
        (effect.Records? ==> !recorded && RecordsOf(effect) == pending)
        && SafeTodo(todo[1..], recorded || effect.Records?, pending, e)
      case PendingWrite(next, commits, drops, silent) =>
        && Count(next, e) + Count(drops, e) + Count(silent, e) + (if recorded then Count(pending, e) else 0)
           == commits[e] + Count(pending, e)
        && SafeTodo(todo[1..], false, next, e)
  }

  /** Recorded, dropped or pending occurrences are exactly the committed ones, plus one
      repeat for every crash that struck between a stack write and its pending write. */
  predicate Books(m: Machine, e: BurstEvent) {
    var recorded := m.running.Some? && m.running.value.recorded;
    && m.recorded[e] + m.dropped[e] + Count(m.disk.pending, e)
       == m.committed[e] + m.repeats[e] + (if recorded then Count(m.disk.pending, e) else 0)
    && (m.running.Some? ==> SafeTodo(m.running.value.todo, recorded, m.disk.pending, e))
  }

  lemma SafeStack(closed: ClosedStack, effect: Effect, rest: seq<Write>, recorded: bool,
                  pending: Option<Burst>, e: BurstEvent)
    requires effect.Records? ==> !recorded && RecordsOf(effect) == pending
    requires SafeTodo(rest, recorded || effect.Records?, pending, e)
    ensures SafeTodo([StackWrite(closed, effect)] + rest, recorded, pending, e)
  {
    var todo := [StackWrite(closed, effect)] + rest;
    assert todo[0] == StackWrite(closed, effect) && todo[1..] == rest;
  }

  lemma SafePending(w: Write, rest: seq<Write>, recorded: bool, pending: Option<Burst>, e: BurstEvent)
    requires w.PendingWrite? && SafeTodo(rest, false, w.pending, e)
    requires Count(w.pending, e) + Count(w.drops, e) + Count(w.silent, e) + (if recorded then Count(pending, e) else 0)
             == w.commits[e] + Count(pending, e)
    ensures SafeTodo([w] + rest, recorded, pending, e)
  {
    var todo := [w] + rest;
    assert todo[0] == w && todo[1..] == rest;
  }

  lemma Reassociate<T>(head: seq<T>, w: T, tail: seq<T>)
    ensures head == [] ==> head + [w] + tail == [w] + tail
    ensures |head| == 1 ==> head + [w] + tail == [head[0]] + ([w] + tail)
  {
  }

  lemma RecordedThenCleared(head: seq<Write>, silent: Option<Burst>, b: Burst, next: Option<Burst>,
                            commits: multiset<BurstEvent>, tail: seq<Write>, e: BurstEvent)
    requires EventsOf(next) == commits && SafeTodo(tail, false, next, e)
    requires || (head == [] && silent == Some(b))
             || (|head| == 1 && head[0].StackWrite? && RecordsOf(head[0].effect) == Some(b) && silent.None?)
    ensures SafeTodo(head + [PendingWrite(next, commits, None, silent)] + tail, false, Some(b), e)
  {
    var w := PendingWrite(next, commits, None, silent);
    Reassociate(head, w, tail);
    ClearIsSafe(w, b, tail, e);
    if head != [] {
      SafeStack(head[0].closed, head[0].effect, [w] + tail, false, Some(b), e);
    }
  }

  lemma ClearIsSafe(w: Write, b: Burst, tail: seq<Write>, e: BurstEvent)
    requires w.PendingWrite? && EventsOf(w.pending) == w.commits && w.drops.None?
    requires w.silent == None || w.silent == Some(b)
    requires SafeTodo(tail, false, w.pending, e)
    ensures SafeTodo([w] + tail, w.silent.None?, Some(b), e)
  {
    assert Count(w.drops, e) == 0;
    SafePending(w, tail, w.silent.None?, Some(b), e);
  }

  lemma RetireIsSafe(cfg: Config, d: Disk, now: nat, next: Option<Burst>, commits: multiset<BurstEvent>,
                     tail: seq<Write>, e: BurstEvent)
    requires d.pending.Some? && EventsOf(next) == commits
    requires SafeTodo(tail, false, next, e)
    ensures
      var w := PendingWrite(next, commits, None, SilentIf(cfg, d, d.pending.value, now));
      SafeTodo(RecordWrites(cfg, d, d.pending.value, now) + [w] + tail, false, d.pending, e)
  {
    var b := d.pending.value;
    RecordedThenCleared(RecordWrites(cfg, d, b, now), SilentIf(cfg, d, b, now), b, next, commits, tail, e);
  }

  lemma PushIsSafe(cfg: Config, d: Disk, s: Section, e: BurstEvent)
    requires s.PushS?
    ensures SafeTodo(Writes(cfg, d, s), false, d.pending, e)
  {
    var r := Push(d.pending, s.ev, s.token, s.frozen);
    if r.expired.Some? {
      RetireIsSafe(cfg, d, s.now, Some(r.burst), multiset{s.ev}, [], e);
      assert Writes(cfg, d, s) + [] == Writes(cfg, d, s);
    } else {
      PushConserves(d.pending, s.ev, s.token, s.frozen);
      JoinIsSafe(d, s.ev, r, e);
      assert Writes(cfg, d, s) == [PendingWrite(Some(r.burst), multiset{s.ev}, r.dropped, None)] + [];
    }
  }

  lemma JoinIsSafe(d: Disk, ev: BurstEvent, r: PushResult, e: BurstEvent)
    requires r.expired.None?
    requires EventsOf(d.pending) + multiset{ev} ==
             multiset(r.burst.events) + EventsOf(r.expired) + EventsOf(r.dropped)
    ensures SafeTodo([PendingWrite(Some(r.burst), multiset{ev}, r.dropped, None)] + [], false, d.pending, e)
  {
    assert (EventsOf(d.pending) + multiset{ev})[e] == Count(Some(r.burst), e) + Count(r.dropped, e);
    SafePending(PendingWrite(Some(r.burst), multiset{ev}, r.dropped, None), [], false, d.pending, e);
  }

  /** The pruning write at the end of recovery. */
  function RecoverTail(cfg: Config, d: Disk, now: nat): seq<Write> {
    var pruned := Prune(d.closed, now, cfg.entryTtlHours, STACK_CAP);
    if |pruned.entries| != |d.closed.entries| then [StackWrite(pruned, Prunes)] else []
  }

  lemma RecoverIsSafe(cfg: Config, d: Disk, now: nat, later: nat, e: BurstEvent)
    ensures SafeTodo(Writes(cfg, d, RecoverS(now, later)), false, d.pending, e)
  {
    var head := RecoverHead(cfg, d, now, later);
    var tail := RecoverTail(cfg, ApplyAll(d, head), now);
    assert SafeTodo(tail, false, None, e) && SafeTodo(tail, false, d.pending, e);
    assert Writes(cfg, d, RecoverS(now, later)) == head + tail;
    if !Abandoned(d.pending, now) {
      assert head + tail == tail;
    } else if HasCloseEvent(d.pending.value) {
      RetireIsSafe(cfg, d, later, None, multiset{}, tail, e);
    } else {
      assert (head + tail)[1..] == tail;
    }
  }

  lemma EverySectionIsSafe(cfg: Config, d: Disk, s: Section, e: BurstEvent)
    ensures SafeTodo(Writes(cfg, d, s), false, d.pending, e)
  {
    if s.PushS? {
      PushIsSafe(cfg, d, s, e);
    } else if s.FinaliseS? {
      FinaliseIsSafe(cfg, d, s, e);
    } else if s.RecoverS? {
      RecoverIsSafe(cfg, d, s.now, s.later, e);
    } else {
      TouchIsSafe(cfg, d, s, e);
    }
  }

  lemma FinaliseIsSafe(cfg: Config, d: Disk, s: Section, e: BurstEvent)
    requires s.FinaliseS?
    ensures SafeTodo(Writes(cfg, d, s), false, d.pending, e)
  {
    if OwnsFinalization(d.pending, s.token) {
      RetireIsSafe(cfg, d, s.now, None, multiset{}, [], e);
      assert Writes(cfg, d, s) + [] == Writes(cfg, d, s);
    }
  }

  lemma TouchIsSafe(cfg: Config, d: Disk, s: Section, e: BurstEvent)
    requires s.PopS? || s.PushBackS?
    ensures SafeTodo(Writes(cfg, d, s), false, d.pending, e)
  {
    var todo := Writes(cfg, d, s);
    if todo != [] {
      assert todo[1..] == [] && !todo[0].effect.Records?;
    }
  }

  lemma StackWriteKeepsBooks(cfg: Config, m: Machine, e: BurstEvent)
    requires Books(m, e) && MEnabled(m, DoWrite) && m.running.value.todo[0].StackWrite?
    ensures Books(MNext(cfg, m, DoWrite), e)
  {
    var effect := m.running.value.todo[0].effect;
    var n := MNext(cfg, m, DoWrite);
    assert SafeTodo(m.running.value.todo[1..], m.running.value.recorded || effect.Records?, m.disk.pending, e);
    assert n.recorded[e] == m.recorded[e] + Count(RecordsOf(effect), e);
  }

  lemma PendingWriteKeepsBooks(cfg: Config, m: Machine, e: BurstEvent)
    requires Books(m, e) && MEnabled(m, DoWrite) && m.running.value.todo[0].PendingWrite?
    ensures Books(MNext(cfg, m, DoWrite), e)
  {
    var w := m.running.value.todo[0];
    PendingWriteCounts(cfg, m, e);
    assert SafeTodo(m.running.value.todo[1..], false, w.pending, e);
  }

  lemma PendingWriteCounts(cfg: Config, m: Machine, e: BurstEvent)
    requires MEnabled(m, DoWrite) && m.running.value.todo[0].PendingWrite?
    ensures
      var w, n := m.running.value.todo[0], MNext(cfg, m, DoWrite);
      && n.committed[e] == m.committed[e] + w.commits[e]
      && n.dropped[e] == m.dropped[e] + Count(w.drops, e)
      && n.recorded[e] == m.recorded[e] + Count(w.silent, e)
      && n.repeats == m.repeats && n.disk.pending == w.pending
  {
  }

  lemma WriteKeepsBooks(cfg: Config, m: Machine, e: BurstEvent)
    requires Books(m, e) && MEnabled(m, DoWrite)
    ensures Books(MNext(cfg, m, DoWrite), e)
  {
    if m.running.value.todo[0].StackWrite? {
      StackWriteKeepsBooks(cfg, m, e);
    } else {
      PendingWriteKeepsBooks(cfg, m, e);
    }
  }

  lemma StepKeepsBooks(cfg: Config, m: Machine, step: MStep, e: BurstEvent)
    requires Books(m, e) && MEnabled(m, step)
    ensures Books(MNext(cfg, m, step), e)
  {
    match step {
      case Begin(section) => EverySectionIsSafe(cfg, m.disk, section, e);
      case DoWrite => WriteKeepsBooks(cfg, m, e);
      case Crash =>
        assert MNext(cfg, m, step).repeats[e] ==
               m.repeats[e] + (if m.running.value.recorded then Count(m.disk.pending, e) else 0);
    }
  }

  lemma {:induction false} RunKeepsBooks(cfg: Config, m: Machine, run: seq<MStep>, e: BurstEvent)
    requires Books(m, e) && MValid(cfg, m, run)
    ensures Books(MExec(cfg, m, run), e)
    decreases |run|
  {
    if run != [] {
      StepKeepsBooks(cfg, m, run[0], e);
      RunKeepsBooks(cfg, MNext(cfg, m, run[0]), run[1..], e);
    }
  }

  /** Wherever crashes strike, no event that reached the pending file is lost: it is still
      pending, or its burst was recorded, or it was in a dropped chain. Counted with
      multiplicity, the surplus is exactly the bursts caught by a crash between the stack
      write and the pending write. */
  lemma CrashesLoseNothing(cfg: Config, run: seq<MStep>)
    requires MValid(cfg, Boot, run)
    ensures
      var m := MExec(cfg, Boot, run);
      && m.committed <= m.recorded + m.dropped + EventsOf(m.disk.pending)
      && (m.running.None? ==>
            m.recorded + m.dropped + EventsOf(m.disk.pending) == m.committed + m.repeats)
  {
    forall e: BurstEvent ensures Books(MExec(cfg, Boot, run), e) {
      RunKeepsBooks(cfg, Boot, run, e);
    }
    var m := MExec(cfg, Boot, run);
    var held := m.recorded + m.dropped + EventsOf(m.disk.pending);
    forall e: BurstEvent ensures m.committed[e] <= held[e] {
      assert Books(m, e);
    }
    if m.running.None? {
      forall e: BurstEvent ensures held[e] == (m.committed + m.repeats)[e] {
        assert Books(m, e);
      }
    }
  }

  lemma {:induction false} NoCrashNoRepeat(cfg: Config, m: Machine, run: seq<MStep>)
    requires MValid(cfg, m, run) && forall i | 0 <= i < |run| :: !run[i].Crash?
    ensures MExec(cfg, m, run).repeats == m.repeats
    decreases |run|
  {
    if run != [] {
      assert forall i | 0 <= i < |run[1..]| :: run[1..][i] == run[i + 1];
      assert MNext(cfg, m, run[0]).repeats == m.repeats;
      NoCrashNoRepeat(cfg, MNext(cfg, m, run[0]), run[1..]);
    }
  }

  /** Without crashes every committed event is in exactly one place whenever the lock is free. */
  lemma CrashFreeIsExactlyOnce(cfg: Config, run: seq<MStep>)
    requires MValid(cfg, Boot, run) && forall i | 0 <= i < |run| :: !run[i].Crash?
    ensures
      var m := MExec(cfg, Boot, run);
      m.running.None? ==> m.recorded + m.dropped + EventsOf(m.disk.pending) == m.committed
  {
    CrashesLoseNothing(cfg, run);
    NoCrashNoRepeat(cfg, Boot, run);
  }

  // ---------------------------------------------------------------- finishing a section

  /** The steps that do all remaining writes. */
  function WriteAll(n: nat): seq<MStep> {
    seq(n, _ => DoWrite)
  }

  lemma FirstStep(cfg: Config, m: Machine, step: MStep, rest: seq<MStep>)
    requires MEnabled(m, step)
    ensures
      var n := MNext(cfg, m, step);
      && (MValid(cfg, m, [step] + rest) <==> MValid(cfg, n, rest))
      && (MValid(cfg, n, rest) ==> MExec(cfg, m, [step] + rest) == MExec(cfg, n, rest))
  {
    assert ([step] + rest)[1..] == rest;
  }

  lemma {:induction false} WritesRunOut(cfg: Config, m: Machine, todo: seq<Write>)
    requires m.running.Some? && m.running.value.todo == todo && todo != []
    ensures MValid(cfg, m, WriteAll(|todo|))
    ensures MExec(cfg, m, WriteAll(|todo|)).running.None?
    ensures MExec(cfg, m, WriteAll(|todo|)).disk == ApplyAll(m.disk, todo)
    decreases |todo|
  {
    var n := MNext(cfg, m, DoWrite);
    var rest := WriteAll(|todo| - 1);
    OneWrite(cfg, m);
    FirstStep(cfg, m, DoWrite, rest);
    assert WriteAll(|todo|) == [DoWrite] + rest;
    if |todo| == 1 {
      NothingLeft(cfg, n, todo[1..], rest);
    } else {
      WritesRunOut(cfg, n, todo[1..]);
    }
    assert ApplyAll(m.disk, todo) == ApplyAll(n.disk, todo[1..]);
  }

  lemma NothingLeft(cfg: Config, m: Machine, todo: seq<Write>, steps: seq<MStep>)
    requires todo == [] && steps == []
    ensures MValid(cfg, m, steps) && MExec(cfg, m, steps) == m && ApplyAll(m.disk, todo) == m.disk
  {
  }

  lemma OneWrite(cfg: Config, m: Machine)
    requires MEnabled(m, DoWrite)
    ensures
      var n := MNext(cfg, m, DoWrite);
      var todo := m.running.value.todo;
      && n.disk == ApplyWrite(m.disk, todo[0])
      && if |todo| == 1 then n.running.None? else n.running.Some? && n.running.value.todo == todo[1..]
  {
  }

  /** A section that begins on a free lock and is not cut short is its atomic step. */
  lemma SectionRunsToItsOutcome(cfg: Config, m: Machine, s: Section)
    requires m.running.None?
    ensures
      var steps := [Begin(s)] + WriteAll(|Writes(cfg, m.disk, s)|);
      && MValid(cfg, m, steps)
      && MExec(cfg, m, steps).running.None?
      && MExec(cfg, m, steps).disk == Outcome(cfg, m.disk, s)
  {
    var n := |Writes(cfg, m.disk, s)|;
    assert ([Begin(s)] + WriteAll(n))[1..] == WriteAll(n);
    if n == 0 {
      assert WriteAll(0) == [];
    } else {
      WritesRunOut(cfg, MNext(cfg, m, Begin(s)), Writes(cfg, m.disk, s));
    }
    WholeSectionIsAtomic(cfg, m.disk, s);
  }

  lemma {:induction false} RunsCompose(cfg: Config, m: Machine, a: seq<MStep>, b: seq<MStep>)
    ensures MValid(cfg, m, a + b) <==> MValid(cfg, m, a) && MValid(cfg, MExec(cfg, m, a), b)
    ensures MValid(cfg, m, a + b) ==> MExec(cfg, m, a + b) == MExec(cfg, MExec(cfg, m, a), b)
    decreases |a|
  {
    if a == [] {
      assert a + b == b;
    } else {
      assert (a + b)[0] == a[0] && (a + b)[1..] == a[1..] + b;
      if MEnabled(m, a[0]) { RunsCompose(cfg, MNext(cfg, m, a[0]), a[1..], b); }
    }
  }

  /** After any run, crashes and all, an uninterrupted recovery pass over an old enough
      burst leaves nothing pending: every event ever committed has then been recorded at
      least once or dropped with a chain. */
  lemma RecoveryRecordsEverything(cfg: Config, run: seq<MStep>, now: nat, later: nat)
    returns (recovery: seq<MStep>)
    requires MValid(cfg, Boot, run)
    requires
      var m := MExec(cfg, Boot, run);
      m.running.None? && (m.disk.pending.Some? ==> m.disk.pending.value.firstMs + BURST_STALE_MS < now)
    ensures recovery == [Begin(RecoverS(now, later))]
                        + WriteAll(|Writes(cfg, MExec(cfg, Boot, run).disk, RecoverS(now, later))|)
    ensures MValid(cfg, Boot, run + recovery)
    ensures
      var done := MExec(cfg, Boot, run + recovery);
      done.running.None? && done.disk.pending.None? && done.committed <= done.recorded + done.dropped
  {
    var m := MExec(cfg, Boot, run);
    recovery := [Begin(RecoverS(now, later))] + WriteAll(|Writes(cfg, m.disk, RecoverS(now, later))|);
    SectionRunsToItsOutcome(cfg, m, RecoverS(now, later));
    RunsCompose(cfg, Boot, run, recovery);
    CrashesLoseNothing(cfg, run + recovery);
    var done := MExec(cfg, Boot, run + recovery);
    assert done.recorded + done.dropped + multiset{} == done.recorded + done.dropped;
  }

  /** The price of never losing: an owner that dies right after the stack write leaves the
      burst pending, and its events will be recorded a second time. */
  lemma CrashAfterStackWriteRepeats(cfg: Config, m: Machine, now: nat)
    requires m.running.None? && m.disk.pending.Some?
    requires NewEntries(m.disk.closed, m.disk.pending.value, cfg, now) != []
    ensures
      var steps := [Begin(FinaliseS(m.disk.pending.value.lastToken, now)), DoWrite, Crash];
      && MValid(cfg, m, steps)
      && var n := MExec(cfg, m, steps);
         && n.disk.pending == m.disk.pending
         && n.disk.closed == Finalized(m.disk.closed, m.disk.pending.value, cfg, now)
         && n.repeats == m.repeats + multiset(m.disk.pending.value.events)
  {
    var b := m.disk.pending.value;
    var steps := [Begin(FinaliseS(b.lastToken, now)), DoWrite, Crash];
    var m1 := MNext(cfg, m, steps[0]);
    var m2 := MNext(cfg, m1, DoWrite);
    var m3 := MNext(cfg, m2, Crash);
    assert steps[1..][0] == DoWrite && steps[1..][1..][0] == Crash && steps[1..][1..][1..] == [];
    assert MValid(cfg, m3, []) && MExec(cfg, m3, []) == m3;
    assert MValid(cfg, m2, steps[1..][1..]) && MExec(cfg, m2, steps[1..][1..]) == m3;
    assert MValid(cfg, m1, steps[1..]) && MExec(cfg, m1, steps[1..]) == m3;
  }
}
