/** Entry ids at the level of single file writes: a burst may be recorded twice when its owner
    dies between two writes, but its second entries get ids of their own. */
module CrashIds {
  import opened Prelude
  import opened Model
  import opened Bursts
  import opened Stacks
  import opened StackLaws
  import opened CrashSafety

  /** What the stack and the reopens' entries look like whenever the lock is free. */
  ghost predicate IdBooks(closed: ClosedStack, issued: seq<ClosedEntry>, held: set<ClosedEntry>) {
    && StackOk(closed)
    && DistinctIds(issued)
    && (forall e | e in issued :: 1 <= e.id < closed.nextId)
    && (forall e | e in closed.entries :: e in issued)
    && (forall e | e in held :: e in issued && e.id !in IdSet(closed.entries))
  }

  /** A stack write that follows from the stack it replaces. */
  ghost predicate GoodWrite(closed: ClosedStack, held: set<ClosedEntry>, after: ClosedStack, effect: Effect) {
    && StackOk(after)
    && match effect
       case Records(_, entries) =>
         && (forall i | 0 <= i < |entries| :: entries[i].id == Max(closed.nextId, 1) + i)
         && after.nextId == Max(closed.nextId, 1) + |entries|
         && (forall e | e in after.entries :: e in entries || e in closed.entries)
       case Takes(entry) =>
         && after.nextId == closed.nextId && entry in closed.entries && entry.id !in IdSet(after.entries)
         && (forall e | e in after.entries :: e in closed.entries)
       case Returns(entry) =>
         && after.nextId == closed.nextId && entry in held
         && (forall e | e in after.entries :: e == entry || e in closed.entries)
       case Prunes =>
         && after.nextId == closed.nextId
         && (forall e | e in after.entries :: e in closed.entries)
  }

  /** All stack writes still to come are good, one after the other. */
  ghost predicate GoodTodo(todo: seq<Write>, closed: ClosedStack, held: set<ClosedEntry>)
    decreases |todo|
  {
    if todo == [] then true
    else match todo[0]
      case PendingWrite(_, _, _, _) => GoodTodo(todo[1..], closed, held)
      case StackWrite(after, effect) =>
        GoodWrite(closed, held, after, effect) && GoodTodo(todo[1..], after, HeldAfter(held, effect))
  }

  lemma IdInSet(entries: seq<ClosedEntry>, e: ClosedEntry)
    requires e in entries
    ensures e.id in IdSet(entries)
  {
    var k :| 0 <= k < |entries| && entries[k] == e;
    assert entries[k].id in IdSet(entries);
  }

  /** A held entry and an entry of the stack have different ids, as both were issued. */
  lemma NotOnStack(entries: seq<ClosedEntry>, after: seq<ClosedEntry>, id: nat)
    requires id !in IdSet(entries) && forall e | e in after :: e in entries || e.id != id
    ensures id !in IdSet(after)
  {
    forall i | 0 <= i < |after| ensures after[i].id != id {
      assert after[i] in after;
      if after[i] in entries { IdInSet(entries, after[i]); }
    }
  }

  lemma RecordKeepsBooks(closed: ClosedStack, issued: seq<ClosedEntry>, held: set<ClosedEntry>,
                         after: ClosedStack, effect: Effect)
    requires IdBooks(closed, issued, held) && effect.Records? && GoodWrite(closed, held, after, effect)
    ensures IdBooks(after, issued + effect.entries, held)
  {
    var all := issued + effect.entries;
    var next := Max(closed.nextId, 1);
    forall i, j | 0 <= i < j < |all| ensures all[i].id != all[j].id {
      if i < |issued| <= j {
        assert issued[i] in issued && all[j] == effect.entries[j - |issued|];
      }
    }
    forall e | e in all ensures 1 <= e.id < after.nextId {
      assert e in issued || e in effect.entries;
    }
    forall e | e in held ensures e in all && e.id !in IdSet(after.entries) {
      assert e.id < next;
      NotOnStack(closed.entries, after.entries, e.id);
    }
  }

  lemma TakeKeepsBooks(closed: ClosedStack, issued: seq<ClosedEntry>, held: set<ClosedEntry>,
                       after: ClosedStack, effect: Effect)
    requires IdBooks(closed, issued, held) && effect.Takes? && GoodWrite(closed, held, after, effect)
    ensures IdBooks(after, issued, held + {effect.entry})
  {
    forall e | e in held + {effect.entry} ensures e in issued && e.id !in IdSet(after.entries) {
      if e in held { NotOnStack(closed.entries, after.entries, e.id); }
    }
  }

  lemma ReturnKeepsBooks(closed: ClosedStack, issued: seq<ClosedEntry>, held: set<ClosedEntry>,
                         after: ClosedStack, effect: Effect)
    requires IdBooks(closed, issued, held) && effect.Returns? && GoodWrite(closed, held, after, effect)
    ensures IdBooks(after, issued, held - {effect.entry})
  {
    forall e | e in held - {effect.entry} ensures e in issued && e.id !in IdSet(after.entries) {
      NotOnStack(closed.entries, after.entries, e.id);
    }
  }

  lemma WriteKeepsIds(closed: ClosedStack, issued: seq<ClosedEntry>, held: set<ClosedEntry>,
                      after: ClosedStack, effect: Effect)
    requires IdBooks(closed, issued, held) && GoodWrite(closed, held, after, effect)
    ensures IdBooks(after, issued + IssuedBy(effect), HeldAfter(held, effect))
  {
    assert !effect.Records? ==> issued + [] == issued;
    match effect {
      case Records(_, _) => RecordKeepsBooks(closed, issued, held, after, effect);
      case Takes(_) => TakeKeepsBooks(closed, issued, held, after, effect);
      case Returns(_) => ReturnKeepsBooks(closed, issued, held, after, effect);
      case Prunes =>
        forall e | e in held ensures e.id !in IdSet(after.entries) {
          NotOnStack(closed.entries, after.entries, e.id);
        }
    }
  }

  // ---------------------------------------------------------------- the sections write well

  lemma GoodThenPending(head: seq<Write>, w: Write, tail: seq<Write>, closed: ClosedStack, after: ClosedStack,
                        held: set<ClosedEntry>)
    requires w.PendingWrite? && GoodTodo(tail, after, held)
    requires || (head == [] && after == closed)
             || (|head| == 1 && head[0].StackWrite? && head[0].effect.Records? && head[0].closed == after
                 && GoodWrite(closed, held, after, head[0].effect))
    ensures GoodTodo(head + [w] + tail, closed, held)
  {
    var last := [w] + tail;
    assert last[0] == w && last[1..] == tail;
    Reassociate(head, w, tail);
    if head != [] {
      var todo := [head[0]] + last;
      assert todo[0] == head[0] && todo[1..] == last;
    }
  }

  lemma RecordIsGood(cfg: Config, d: Disk, b: Burst, now: nat, held: set<ClosedEntry>)
    requires StackOk(d.closed)
    ensures
      var head, after := RecordWrites(cfg, d, b, now), Finalized(d.closed, b, cfg, now);
      && StackOk(after)
      && (|| (head == [] && after == d.closed)
          || (|head| == 1 && head[0].StackWrite? && head[0].effect.Records? && head[0].closed == after
              && GoodWrite(d.closed, held, after, head[0].effect)))
  {
    FinalizedAllocates(d.closed, b, cfg, now);
  }

  lemma RetireIsGood(cfg: Config, d: Disk, b: Burst, now: nat, w: Write, tail: seq<Write>, held: set<ClosedEntry>)
    requires StackOk(d.closed) && w.PendingWrite?
    requires GoodTodo(tail, Finalized(d.closed, b, cfg, now), held)
    ensures GoodTodo(RecordWrites(cfg, d, b, now) + [w] + tail, d.closed, held)
  {
    RecordIsGood(cfg, d, b, now, held);
    GoodThenPending(RecordWrites(cfg, d, b, now), w, tail, d.closed, Finalized(d.closed, b, cfg, now), held);
  }

  lemma OneIsGood(w: Write, closed: ClosedStack, held: set<ClosedEntry>)
    requires w.StackWrite? ==> GoodWrite(closed, held, w.closed, w.effect)
    ensures GoodTodo([w], closed, held)
  {
    assert [w][1..] == [];
  }

  lemma PruneIsGood(cfg: Config, d: Disk, now: nat, held: set<ClosedEntry>)
    requires StackOk(d.closed)
    ensures GoodTodo(RecoverTail(cfg, d, now), d.closed, held)
  {
    PruneThins(d.closed, now, cfg.entryTtlHours);
    OneIsGood(StackWrite(Prune(d.closed, now, cfg.entryTtlHours, STACK_CAP), Prunes), d.closed, held);
  }

  lemma RecoverIsGood(cfg: Config, d: Disk, now: nat, later: nat, held: set<ClosedEntry>)
    requires StackOk(d.closed)
    ensures GoodTodo(Writes(cfg, d, RecoverS(now, later)), d.closed, held)
  {
    var head := RecoverHead(cfg, d, now, later);
    var mid := ApplyAll(d, head);
    var tail := RecoverTail(cfg, mid, now);
    if !Abandoned(d.pending, now) {
      PruneIsGood(cfg, d, now, held);
      assert head + tail == tail;
    } else if HasCloseEvent(d.pending.value) {
      var b := d.pending.value;
      var w := PendingWrite(None, multiset{}, None, SilentIf(cfg, d, b, later));
      RecordsThen(cfg, d, b, later, w);
      FinalizedAllocates(d.closed, b, cfg, later);
      PruneIsGood(cfg, mid, now, held);
      RetireIsGood(cfg, d, b, later, w, tail, held);
    } else {
      var w := PendingWrite(None, multiset{}, d.pending, None);
      assert head == [w] && head[1..] == [];
      assert ApplyAll(d, head) == ApplyWrite(d, w);
      PruneIsGood(cfg, mid, now, held);
      GoodThenPending([], w, tail, d.closed, d.closed, held);
      assert [] + [w] + tail == head + tail;
    }
  }

  lemma PushIsGood(cfg: Config, d: Disk, s: Section, held: set<ClosedEntry>)
    requires StackOk(d.closed) && s.PushS?
    ensures GoodTodo(Writes(cfg, d, s), d.closed, held)
  {
    var r := Push(d.pending, s.ev, s.token, s.frozen);
    if r.expired.Some? {
      var w := PendingWrite(Some(r.burst), multiset{s.ev}, None, SilentIf(cfg, d, r.expired.value, s.now));
      RetireIsGood(cfg, d, r.expired.value, s.now, w, [], held);
      assert Writes(cfg, d, s) + [] == Writes(cfg, d, s);
    } else {
      OneIsGood(PendingWrite(Some(r.burst), multiset{s.ev}, r.dropped, None), d.closed, held);
    }
  }

  lemma FinaliseIsGood(cfg: Config, d: Disk, s: Section, held: set<ClosedEntry>)
    requires StackOk(d.closed) && s.FinaliseS?
    ensures GoodTodo(Writes(cfg, d, s), d.closed, held)
  {
    if OwnsFinalization(d.pending, s.token) {
      var b := d.pending.value;
      var w := PendingWrite(None, multiset{}, None, SilentIf(cfg, d, b, s.now));
      RetireIsGood(cfg, d, b, s.now, w, [], held);
      assert Writes(cfg, d, s) + [] == Writes(cfg, d, s);
    }
  }

  lemma PopIsGood(cfg: Config, d: Disk, s: Section, held: set<ClosedEntry>)
    requires StackOk(d.closed) && s.PopS?
    ensures GoodTodo(Writes(cfg, d, s), d.closed, held)
  {
    PopTakesOne(cfg, d, s.want, s.now);
    var (after, picked) := PopSection(cfg, d, s.want, s.now);
    if picked.Some? { OneIsGood(StackWrite(after.closed, Takes(picked.value)), d.closed, held); }
  }

  lemma PushBackIsGood(cfg: Config, d: Disk, s: Section, issued: seq<ClosedEntry>, held: set<ClosedEntry>)
    requires IdBooks(d.closed, issued, held) && s.PushBackS? && s.entry in held
    ensures GoodTodo(Writes(cfg, d, s), d.closed, held)
  {
    PushBackPutsOnTop(d, s.entry);
    OneIsGood(StackWrite(PushBackSection(d, s.entry).closed, Returns(s.entry)), d.closed, held);
  }

  /** A reopen puts back only what it has taken. */
  predicate Honest(m: Machine, step: MStep) {
    step.Begin? && step.section.PushBackS? ==> step.section.entry in m.held
  }

  lemma EverySectionIsGood(cfg: Config, m: Machine, s: Section)
    requires IdBooks(m.disk.closed, m.issued, m.held) && Honest(m, Begin(s))
    ensures GoodTodo(Writes(cfg, m.disk, s), m.disk.closed, m.held)
  {
    match s {
      case PushS(_, _, _, _) => PushIsGood(cfg, m.disk, s, m.held);
      case FinaliseS(_, _) => FinaliseIsGood(cfg, m.disk, s, m.held);
      case RecoverS(now, later) => RecoverIsGood(cfg, m.disk, now, later, m.held);
      case PopS(_, _) => PopIsGood(cfg, m.disk, s, m.held);
      case PushBackS(_) => PushBackIsGood(cfg, m.disk, s, m.issued, m.held);
    }
  }

  // ---------------------------------------------------------------- the law

  ghost predicate IdInv(m: Machine) {
    && IdBooks(m.disk.closed, m.issued, m.held)
    && (m.running.Some? ==> GoodTodo(m.running.value.todo, m.disk.closed, m.held))
  }

  predicate HonestRun(cfg: Config, m: Machine, run: seq<MStep>)
    requires MValid(cfg, m, run)
    decreases |run|
  {
    run == [] || (Honest(m, run[0]) && HonestRun(cfg, MNext(cfg, m, run[0]), run[1..]))
  }

  lemma BeginKeepsIds(cfg: Config, m: Machine, s: Section)
    requires IdInv(m) && m.running.None? && Honest(m, Begin(s))
    ensures IdInv(MNext(cfg, m, Begin(s)))
  {
    EverySectionIsGood(cfg, m, s);
  }

  lemma DoWriteKeepsIds(cfg: Config, m: Machine)
    requires IdInv(m) && MEnabled(m, DoWrite)
    ensures IdInv(MNext(cfg, m, DoWrite))
  {
    var w := m.running.value.todo[0];
    if w.StackWrite? {
      WriteKeepsIds(m.disk.closed, m.issued, m.held, w.closed, w.effect);
    }
  }

  lemma {:induction false} RunKeepsIds(cfg: Config, m: Machine, run: seq<MStep>)
    requires IdInv(m) && MValid(cfg, m, run) && HonestRun(cfg, m, run)
    ensures IdInv(MExec(cfg, m, run))
    decreases |run|
  {
    if run != [] {
      match run[0] {
        case Begin(s) => BeginKeepsIds(cfg, m, s);
        case DoWrite => DoWriteKeepsIds(cfg, m);
        case Crash =>
      }
      RunKeepsIds(cfg, MNext(cfg, m, run[0]), run[1..]);
    }
  }

  /** Wherever crashes strike, no two stack writes ever issue the same id, the second recording
      of a burst included; the stack stays valid, and holds and hands out only entries that
      were issued, each at one place. */
  lemma CrashesNeverReuseIds(cfg: Config, run: seq<MStep>)
    requires MValid(cfg, Boot, run) && HonestRun(cfg, Boot, run)
    ensures
      var m := MExec(cfg, Boot, run);
      && DistinctIds(m.issued) && StackOk(m.disk.closed)
      && (forall e | e in m.disk.closed.entries :: e in m.issued)
      && (forall e | e in m.held :: e in m.issued && e.id !in IdSet(m.disk.closed.entries))
  {
    RunKeepsIds(cfg, Boot, run);
  }
}
