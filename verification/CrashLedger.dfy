/** The ledger of entries at the level of single file writes: whatever the crash points, the
    entries issued are those of the recorded bursts, a burst recorded twice included twice. */
module CrashLedger {
  import opened Prelude
  import opened Model
  import opened Bursts
  import opened Inference
  import opened Stacks
  import opened StackLaws
  import opened Drafting
  import opened CrashSafety
  import opened CrashIds

  // ---------------------------------------------------------------- the ledger as a list

  /** The entries of the lists one after the other, numbered from 1 without a gap. */
  function Numbered(lists: seq<seq<ClosedEntry>>): seq<ClosedEntry> {
    if lists == [] then []
    else
      var before := lists[..|lists| - 1];
      Numbered(before) + Renumber(lists[|lists| - 1], 1 + Total(before))
  }

  lemma {:induction false} NumberedInOrder(lists: seq<seq<ClosedEntry>>)
    ensures |Numbered(lists)| == Total(lists)
    ensures forall i | 0 <= i < |Numbered(lists)| :: Numbered(lists)[i].id == i + 1
  {
    if lists != [] { NumberedInOrder(lists[..|lists| - 1]); }
  }

  lemma NumberedGrows(lists: seq<seq<ClosedEntry>>, more: seq<ClosedEntry>)
    ensures Numbered(lists + [more]) == Numbered(lists) + Renumber(more, 1 + Total(lists))
    ensures Total(lists + [more]) == Total(lists) + |more|
  {
    assert (lists + [more])[..|lists|] == lists;
  }

  /** This draft has been issued, under some id. */
  predicate IsIssued(issued: seq<ClosedEntry>, draft: ClosedEntry) {
    exists x | x in issued :: x == draft.(id := x.id)
  }

  lemma IssuedStays(issued: seq<ClosedEntry>, more: seq<ClosedEntry>, draft: ClosedEntry)
    requires IsIssued(issued, draft)
    ensures IsIssued(issued + more, draft)
  {
    var x :| x in issued && x == draft.(id := x.id);
    assert x in issued + more;
  }

  lemma {:induction false} NumberedHas(lists: seq<seq<ClosedEntry>>, k: nat, draft: ClosedEntry)
    requires k < |lists| && draft in lists[k]
    ensures IsIssued(Numbered(lists), draft)
    decreases |lists|
  {
    var n := |lists| - 1;
    var before := lists[..n];
    assert before + [lists[n]] == lists;
    NumberedGrows(before, lists[n]);
    var newest := Renumber(lists[n], 1 + Total(before));
    if k == n {
      var i :| 0 <= i < |lists[n]| && lists[n][i] == draft;
      assert newest[i] in Numbered(before) + newest;
    } else {
      NumberedHas(before, k, draft);
      IssuedStays(Numbered(before), newest, draft);
    }
  }

  // ---------------------------------------------------------------- the sections write true

  function NextOf(closed: ClosedStack): nat {
    Max(closed.nextId, 1)
  }

  /** A write that issues what inference makes of the burst it records, and nothing else. */
  predicate TrueWrite(cfg: Config, w: Write, next: nat) {
    match w
    case PendingWrite(_, _, _, silent) => silent.Some? ==> DraftsOf(cfg, silent.value) == []
    case StackWrite(after, effect) =>
      if effect.Records?
      then effect.entries == Renumber(DraftsOf(cfg, effect.burst), next) && NextOf(after) == next + |effect.entries|
      else NextOf(after) == next
  }

  function NextAfter(w: Write, next: nat): nat {
    if w.StackWrite? then NextOf(w.closed) else next
  }

  predicate TrueTodo(cfg: Config, todo: seq<Write>, next: nat)
    decreases |todo|
  {
    todo == [] || (TrueWrite(cfg, todo[0], next) && TrueTodo(cfg, todo[1..], NextAfter(todo[0], next)))
  }

  lemma TrueCons(cfg: Config, w: Write, rest: seq<Write>, next: nat)
    requires TrueWrite(cfg, w, next) && TrueTodo(cfg, rest, NextAfter(w, next))
    ensures TrueTodo(cfg, [w] + rest, next)
  {
    assert ([w] + rest)[1..] == rest;
  }

  lemma OneIsTrue(cfg: Config, w: Write, next: nat)
    requires TrueWrite(cfg, w, next)
    ensures TrueTodo(cfg, [w], next)
  {
    assert [w][1..] == [];
  }

  /** Recording a burst and clearing the pending file issue the drafts of that burst. */
  lemma RetireIsTrue(cfg: Config, d: Disk, b: Burst, now: nat, w: Write, tail: seq<Write>)
    requires StackOk(d.closed) && w.PendingWrite? && w.silent == SilentIf(cfg, d, b, now)
    requires TrueTodo(cfg, tail, NextOf(Finalized(d.closed, b, cfg, now)))
    ensures TrueTodo(cfg, RecordWrites(cfg, d, b, now) + [w] + tail, NextOf(d.closed))
  {
    var head := RecordWrites(cfg, d, b, now);
    NewEntriesAreNumbered(d.closed, b, cfg, now);
    TrueCons(cfg, w, tail, NextOf(Finalized(d.closed, b, cfg, now)));
    Reassociate(head, w, tail);
    if head != [] { TrueCons(cfg, head[0], [w] + tail, NextOf(d.closed)); }
  }

  lemma PruneIsTrue(cfg: Config, d: Disk, now: nat)
    ensures TrueTodo(cfg, RecoverTail(cfg, d, now), NextOf(d.closed))
  {
    OneIsTrue(cfg, StackWrite(Prune(d.closed, now, cfg.entryTtlHours, STACK_CAP), Prunes), NextOf(d.closed));
  }

  lemma RecoverIsTrue(cfg: Config, d: Disk, now: nat, later: nat)
    requires StackOk(d.closed)
    ensures TrueTodo(cfg, Writes(cfg, d, RecoverS(now, later)), NextOf(d.closed))
  {
    var head := RecoverHead(cfg, d, now, later);
    var mid := ApplyAll(d, head);
    var tail := RecoverTail(cfg, mid, now);
    PruneIsTrue(cfg, mid, now);
    if !Abandoned(d.pending, now) {
      assert head + tail == tail;
    } else if HasCloseEvent(d.pending.value) {
      var b := d.pending.value;
      var w := PendingWrite(None, multiset{}, None, SilentIf(cfg, d, b, later));
      RecordsThen(cfg, d, b, later, w);
      RetireIsTrue(cfg, d, b, later, w, tail);
    } else {
      var w := PendingWrite(None, multiset{}, d.pending, None);
      assert head == [w] && head[1..] == [];
      assert ApplyAll(d, head) == ApplyWrite(d, w);
      TrueCons(cfg, w, tail, NextOf(d.closed));
    }
  }

  lemma PushIsTrue(cfg: Config, d: Disk, s: Section)
    requires StackOk(d.closed) && s.PushS?
    ensures TrueTodo(cfg, Writes(cfg, d, s), NextOf(d.closed))
  {
    var r := Push(d.pending, s.ev, s.token, s.frozen);
    if r.expired.Some? {
      var w := PendingWrite(Some(r.burst), multiset{s.ev}, None, SilentIf(cfg, d, r.expired.value, s.now));
      RetireIsTrue(cfg, d, r.expired.value, s.now, w, []);
      assert Writes(cfg, d, s) + [] == Writes(cfg, d, s);
    } else {
      OneIsTrue(cfg, PendingWrite(Some(r.burst), multiset{s.ev}, r.dropped, None), NextOf(d.closed));
    }
  }

  lemma FinaliseIsTrue(cfg: Config, d: Disk, s: Section)
    requires StackOk(d.closed) && s.FinaliseS?
    ensures TrueTodo(cfg, Writes(cfg, d, s), NextOf(d.closed))
  {
    if OwnsFinalization(d.pending, s.token) {
      var b := d.pending.value;
      RetireIsTrue(cfg, d, b, s.now, PendingWrite(None, multiset{}, None, SilentIf(cfg, d, b, s.now)), []);
      assert Writes(cfg, d, s) + [] == Writes(cfg, d, s);
    }
  }

  lemma EverySectionIsTrue(cfg: Config, d: Disk, s: Section)
    requires StackOk(d.closed)
    ensures TrueTodo(cfg, Writes(cfg, d, s), NextOf(d.closed))
  {
    match s {
      case PushS(_, _, _, _) => PushIsTrue(cfg, d, s);
      case FinaliseS(_, _) => FinaliseIsTrue(cfg, d, s);
      case RecoverS(now, later) => RecoverIsTrue(cfg, d, now, later);
      case PopS(_, _) | PushBackS(_) =>
        var todo := Writes(cfg, d, s);
        if todo != [] { OneIsTrue(cfg, todo[0], NextOf(d.closed)); }
    }
  }

  // ---------------------------------------------------------------- the law

  /** The entries issued are those of the lists, and the next id is the one after them. */
  predicate Issued(m: Machine, lists: seq<seq<ClosedEntry>>) {
    m.issued == Numbered(lists) && NextOf(m.disk.closed) == 1 + Total(lists)
  }

  predicate WritesTrue(cfg: Config, m: Machine) {
    m.running.Some? ==> TrueTodo(cfg, m.running.value.todo, NextOf(m.disk.closed))
  }

  lemma WriteChanges(cfg: Config, m: Machine)
    requires MEnabled(m, DoWrite)
    ensures
      var n, w := MNext(cfg, m, DoWrite), m.running.value.todo[0];
      var b := RecordedBy(w);
      && n.bursts == WithBurst(m.bursts, b)
      && n.recorded == m.recorded + EventsOf(b)
      && n.issued == m.issued + (if w.StackWrite? then IssuedBy(w.effect) else [])
      && n.disk.closed == (if w.StackWrite? then w.closed else m.disk.closed)
      && (n.running.Some? ==> n.running.value.todo == m.running.value.todo[1..])
  {
    var w := m.running.value.todo[0];
    if w.PendingWrite? { assert m.issued + [] == m.issued; }
  }

  function RecordedBy(w: Write): Option<Burst> {
    match w
    case StackWrite(_, effect) => RecordsOf(effect)
    case PendingWrite(_, _, _, silent) => silent
  }

  /** What a true write issues is what it adds to the ledger. */
  lemma TrueWriteAdds(cfg: Config, w: Write, next: nat)
    requires TrueWrite(cfg, w, next)
    ensures
      var issued := if w.StackWrite? then IssuedBy(w.effect) else [];
      var b := RecordedBy(w);
      && issued == (if b.Some? then Renumber(DraftsOf(cfg, b.value), next) else [])
      && NextAfter(w, next) == next + |issued|
  {
  }

  lemma WritesStayTrue(cfg: Config, m: Machine)
    requires WritesTrue(cfg, m) && MEnabled(m, DoWrite)
    ensures WritesTrue(cfg, MNext(cfg, m, DoWrite))
    ensures TrueWrite(cfg, m.running.value.todo[0], NextOf(m.disk.closed))
  {
    WriteChanges(cfg, m);
  }

  /** What a write issues, given what it adds to the next id. */
  lemma WriteIssues(cfg: Config, m: Machine, b: Option<Burst>)
    requires MEnabled(m, DoWrite) && TrueWrite(cfg, m.running.value.todo[0], NextOf(m.disk.closed))
    requires b == BurstOf(m, DoWrite)
    ensures
      var n, more := MNext(cfg, m, DoWrite), if b.Some? then DraftsOf(cfg, b.value) else [];
      && n.issued == m.issued + Renumber(more, NextOf(m.disk.closed))
      && NextOf(n.disk.closed) == NextOf(m.disk.closed) + |more|
  {
    WriteChanges(cfg, m);
    TrueWriteAdds(cfg, m.running.value.todo[0], NextOf(m.disk.closed));
  }

  function ListOf(cfg: Config, b: Option<Burst>): seq<seq<ClosedEntry>> {
    if b.Some? then [DraftsOf(cfg, b.value)] else []
  }

  lemma LedgerGrowsBy(cfg: Config, lists: seq<seq<ClosedEntry>>, b: Option<Burst>)
    ensures
      var more := if b.Some? then DraftsOf(cfg, b.value) else [];
      && Numbered(lists + ListOf(cfg, b)) == Numbered(lists) + Renumber(more, 1 + Total(lists))
      && Total(lists + ListOf(cfg, b)) == Total(lists) + |more|
  {
    if b.Some? {
      NumberedGrows(lists, DraftsOf(cfg, b.value));
    } else {
      assert lists + [] == lists;
    }
  }

  lemma WriteKeepsLedger(cfg: Config, m: Machine, lists: seq<seq<ClosedEntry>>)
    requires Issued(m, lists) && WritesTrue(cfg, m) && MEnabled(m, DoWrite)
    ensures Issued(MNext(cfg, m, DoWrite), lists + ListOf(cfg, BurstOf(m, DoWrite)))
    ensures WritesTrue(cfg, MNext(cfg, m, DoWrite))
  {
    WritesStayTrue(cfg, m);
    var b := BurstOf(m, DoWrite);
    WriteIssues(cfg, m, b);
    LedgerGrowsBy(cfg, lists, b);
  }

  /** The burst a step records, if it does. */
  function BurstOf(m: Machine, step: MStep): Option<Burst>
    requires MEnabled(m, step)
  {
    if step.DoWrite? then RecordedBy(m.running.value.todo[0]) else None
  }

  /** The lists of drafts and the recorded events both grow with the recorded bursts. */
  lemma BurstsGrow(cfg: Config, m: Machine, step: MStep)
    requires MEnabled(m, step)
    ensures
      var n := MNext(cfg, m, step);
      && DraftLists(cfg, n.bursts) == DraftLists(cfg, m.bursts) + ListOf(cfg, BurstOf(m, step))
      && (m.recorded == AllEvents(m.bursts) ==> n.recorded == AllEvents(n.bursts))
  {
    var b := BurstOf(m, step);
    if step.DoWrite? { WriteChanges(cfg, m); }
    AllEventsRetire(m.bursts, b);
    if b.Some? { DraftListsGrow(cfg, m.bursts, b.value); }
  }

  lemma StepKeepsLedger(cfg: Config, m: Machine, step: MStep, lists: seq<seq<ClosedEntry>>)
    requires StackOk(m.disk.closed) && Issued(m, lists) && WritesTrue(cfg, m) && MEnabled(m, step)
    ensures
      var n := MNext(cfg, m, step);
      Issued(n, lists + ListOf(cfg, BurstOf(m, step))) && WritesTrue(cfg, n)
  {
    match step {
      case Begin(s) =>
        EverySectionIsTrue(cfg, m.disk, s);
        assert lists + [] == lists;
      case DoWrite => WriteKeepsLedger(cfg, m, lists);
      case Crash => assert lists + [] == lists;
    }
  }

  lemma {:induction false} HonestRuns(cfg: Config, m: Machine, a: seq<MStep>, b: seq<MStep>)
    requires MValid(cfg, m, a + b) && HonestRun(cfg, m, a + b) && MValid(cfg, m, a)
    ensures HonestRun(cfg, m, a)
    decreases |a|
  {
    if a != [] {
      assert (a + b)[0] == a[0] && (a + b)[1..] == a[1..] + b;
      HonestRuns(cfg, MNext(cfg, m, a[0]), a[1..], b);
    }
  }

  lemma LastWrite(cfg: Config, run: seq<MStep>) returns (before: seq<MStep>)
    requires MValid(cfg, Boot, run) && HonestRun(cfg, Boot, run) && run != []
    ensures before == run[..|run| - 1] && MValid(cfg, Boot, before) && HonestRun(cfg, Boot, before)
    ensures
      var m := MExec(cfg, Boot, before);
      && StackOk(m.disk.closed) && MEnabled(m, run[|before|])
      && MExec(cfg, Boot, run) == MNext(cfg, m, run[|before|])
  {
    before := run[..|run| - 1];
    var last := [run[|before|]];
    assert before + last == run;
    RunsCompose(cfg, Boot, before, last);
    OneOnly(cfg, MExec(cfg, Boot, before), last);
    HonestRuns(cfg, Boot, before, last);
    StackStaysOk(cfg, before);
  }

  lemma StackStaysOk(cfg: Config, run: seq<MStep>)
    requires MValid(cfg, Boot, run) && HonestRun(cfg, Boot, run)
    ensures StackOk(MExec(cfg, Boot, run).disk.closed)
  {
    CrashesNeverReuseIds(cfg, run);
  }

  lemma OneOnly(cfg: Config, m: Machine, steps: seq<MStep>)
    requires |steps| == 1 && MValid(cfg, m, steps)
    ensures MEnabled(m, steps[0]) && MExec(cfg, m, steps) == MNext(cfg, m, steps[0])
  {
    assert steps[1..] == [];
  }

  lemma {:induction false} RunKeepsLedger(cfg: Config, run: seq<MStep>)
    requires MValid(cfg, Boot, run) && HonestRun(cfg, Boot, run)
    ensures
      var m := MExec(cfg, Boot, run);
      Issued(m, DraftLists(cfg, m.bursts)) && WritesTrue(cfg, m) && m.recorded == AllEvents(m.bursts)
    decreases |run|
  {
    if run == [] {
      assert DraftLists(cfg, Boot.bursts) == [];
    } else {
      var before := LastWrite(cfg, run);
      var m := MExec(cfg, Boot, before);
      RunKeepsLedger(cfg, before);
      StepKeepsLedger(cfg, m, run[|before|], DraftLists(cfg, m.bursts));
      BurstsGrow(cfg, m, run[|before|]);
    }
  }

  /** Wherever crashes strike: the events recorded are those of the recorded bursts, and the
      entries issued are what inference makes of these bursts, in the order of the stack
      writes, under the ids 1, 2, 3 and so on. */
  lemma CrashesKeepTheLedger(cfg: Config, run: seq<MStep>)
    requires MValid(cfg, Boot, run) && HonestRun(cfg, Boot, run)
    ensures
      var m := MExec(cfg, Boot, run);
      && m.recorded == AllEvents(m.bursts)
      && m.issued == Numbered(DraftLists(cfg, m.bursts))
      && (forall i | 0 <= i < |m.issued| :: m.issued[i].id == i + 1)
  {
    RunKeepsLedger(cfg, run);
    NumberedInOrder(DraftLists(cfg, MExec(cfg, Boot, run).bursts));
  }

  /** A close that reached the pending file is, after any crashes, pending still, in a dropped
      chain, or in a recorded burst all of whose entries have been issued. */
  lemma EveryCommittedCloseIsIssued(cfg: Config, run: seq<MStep>, e: BurstEvent)
    requires MValid(cfg, Boot, run) && HonestRun(cfg, Boot, run) && e in MExec(cfg, Boot, run).committed
    ensures
      var m := MExec(cfg, Boot, run);
      || e in EventsOf(m.disk.pending) || e in m.dropped
      || exists b | b in m.bursts ::
           e in b.events && forall draft | draft in DraftsOf(cfg, b) :: IsIssued(m.issued, draft)
  {
    var m := MExec(cfg, Boot, run);
    CrashesLoseNothing(cfg, run);
    CrashesKeepTheLedger(cfg, run);
    if e !in EventsOf(m.disk.pending) && e !in m.dropped {
      assert e in m.recorded + m.dropped + EventsOf(m.disk.pending);
      var k := SomeBurstHas(m.bursts, e);
      forall draft | draft in DraftsOf(cfg, m.bursts[k]) ensures IsIssued(m.issued, draft) {
        DraftListAt(cfg, m.bursts, k);
        NumberedHas(DraftLists(cfg, m.bursts), k, draft);
      }
      assert m.bursts[k] in m.bursts;
    }
  }
}
