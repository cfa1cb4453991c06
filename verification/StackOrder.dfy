/** In which order the undo stack gives closes back. As long as no reopen puts an entry back,
    the stack keeps the newest burst on top and, inside a burst, the entries in the order
    inference made them; undoing again and again takes the bursts last first. */
module StackOrder {
  import opened Prelude
  import opened Model
  import opened Stacks
  import opened StackLaws
  import opened Drafting
  import opened Protocol
  import opened Runs
  import opened Ledgers

  // ---------------------------------------------------------------- which burst made an id

  /** The number of the finalised burst that this id was issued for. */
  function BurstNo(lists: seq<seq<ClosedEntry>>, id: nat): nat {
    if lists == [] then 0
    else
      var n := |lists| - 1;
      if id > Total(lists[..n]) then n else BurstNo(lists[..n], id)
  }

  /** An id belongs to the burst whose entries were numbered around it. */
  lemma {:induction false} BurstNoMeans(lists: seq<seq<ClosedEntry>>, id: nat)
    requires 1 <= id <= Total(lists)
    ensures
      var k := BurstNo(lists, id);
      k < |lists| && Total(lists[..k]) < id <= Total(lists[..k]) + |lists[k]|
  {
    var n := |lists| - 1;
    if id <= Total(lists[..n]) {
      BurstNoMeans(lists[..n], id);
      var k := BurstNo(lists[..n], id);
      assert lists[..n][..k] == lists[..k] && lists[..n][k] == lists[k];
    }
  }

  /** `a` is undone before `b`: it is from a later burst, or earlier in the same one. */
  predicate Before(lists: seq<seq<ClosedEntry>>, a: nat, b: nat) {
    BurstNo(lists, a) > BurstNo(lists, b) || (BurstNo(lists, a) == BurstNo(lists, b) && a < b)
  }

  predicate InUndoOrder(lists: seq<seq<ClosedEntry>>, entries: seq<ClosedEntry>) {
    forall i, j | 0 <= i < j < |entries| :: Before(lists, entries[i].id, entries[j].id)
  }

  lemma ThinnedKeepsOrder(lists: seq<seq<ClosedEntry>>, kept: seq<ClosedEntry>, all: seq<ClosedEntry>)
    requires Thinned(kept, all) && InUndoOrder(lists, all)
    ensures InUndoOrder(lists, kept)
  {
    var at :| Embeds(kept, all, at);
    forall i, j | 0 <= i < j < |kept| ensures Before(lists, kept[i].id, kept[j].id) {
      assert all[at[i]] == kept[i] && all[at[j]] == kept[j];
    }
  }

  // ---------------------------------------------------------------- one more burst

  lemma OlderNo(lists: seq<seq<ClosedEntry>>, more: seq<ClosedEntry>, id: nat)
    requires 1 <= id <= Total(lists)
    ensures BurstNo(lists + [more], id) == BurstNo(lists, id) < |lists|
  {
    assert (lists + [more])[..|lists|] == lists;
    BurstNoMeans(lists, id);
  }

  lemma NewestNo(lists: seq<seq<ClosedEntry>>, more: seq<ClosedEntry>, id: nat)
    requires Total(lists) < id
    ensures BurstNo(lists + [more], id) == |lists|
  {
    assert (lists + [more])[..|lists|] == lists;
  }

  lemma OlderKeepOrder(lists: seq<seq<ClosedEntry>>, more: seq<ClosedEntry>, entries: seq<ClosedEntry>)
    requires InUndoOrder(lists, entries) && forall e | e in entries :: 1 <= e.id <= Total(lists)
    ensures InUndoOrder(lists + [more], entries)
  {
    forall i, j | 0 <= i < j < |entries| ensures Before(lists + [more], entries[i].id, entries[j].id) {
      OlderNo(lists, more, entries[i].id);
      OlderNo(lists, more, entries[j].id);
    }
  }

  /** New entries on top of older ones, all numbered from the first free id. */
  lemma NewestFirst(lists: seq<seq<ClosedEntry>>, more: seq<ClosedEntry>, after: seq<ClosedEntry>, n: nat)
    requires n <= |after| && forall i | 0 <= i < n :: after[i].id == 1 + Total(lists) + i
    requires InUndoOrder(lists, after[n..]) && forall e | e in after[n..] :: 1 <= e.id <= Total(lists)
    ensures InUndoOrder(lists + [more], after)
  {
    OlderKeepOrder(lists, more, after[n..]);
    forall i, j | 0 <= i < j < |after| ensures Before(lists + [more], after[i].id, after[j].id) {
      if i < n { NewestNo(lists, more, after[i].id); }
      if j < n {
        NewestNo(lists, more, after[j].id);
      } else {
        assert after[j] == after[n..][j - n];
        OlderNo(lists, more, after[j].id);
      }
      if n <= i { assert after[i] == after[n..][i - n]; }
    }
  }

  lemma FinaliseKeepsOrder(cfg: Config, u: Undo, b: Burst, now: nat, lists: seq<seq<ClosedEntry>>)
    requires StackOk(u.closed) && OnLedger(u, lists) && InUndoOrder(lists, u.closed.entries)
    ensures InUndoOrder(lists + [DraftsOf(cfg, b)], UndoFinalise(cfg, u, b, now).closed.entries)
  {
    var entries := NewEntries(u.closed, b, cfg, now);
    var after := Finalized(u.closed, b, cfg, now).entries;
    var n := Min(STACK_CAP, |entries|);
    NewEntriesAreNumbered(u.closed, b, cfg, now);
    FinalizedPutsInFront(u.closed, b, cfg, now);
    ThinnedMeans(after[n..], u.closed.entries);
    ThinnedKeepsOrder(lists, after[n..], u.closed.entries);
    assert forall i | 0 <= i < n :: after[i] == after[..n][i] == entries[i];
    NewestFirst(lists, DraftsOf(cfg, b), after, n);
  }

  // ---------------------------------------------------------------- every other step

  /** Pruning, popping and restoring only take entries away. */
  lemma OthersThin(cfg: Config, u: Undo, step: Step)
    requires StackOk(u.closed) && !step.PushedBack? && (step.Restored? ==> step.pid in u.holding)
    ensures Thinned(NextUndo(cfg, u, step, None).closed.entries, u.closed.entries)
  {
    assert Thinned(u.closed.entries, u.closed.entries) by { ThinsItself(u.closed.entries); }
    if step.Pop? {
      PopThins(cfg, Disk(None, u.closed), step.want, step.now);
    } else if step.Recovery? {
      PruneThins(u.closed, step.now, cfg.entryTtlHours);
    }
  }

  lemma ThinsItself(entries: seq<ClosedEntry>)
    ensures Thinned(entries, entries)
  {
    TakeThins(entries, |entries|);
    assert entries[..|entries|] == entries;
  }

  lemma StepKeepsOrder(cfg: Config, s: System, step: Step, lists: seq<seq<ClosedEntry>>)
    requires UndoInv(s.undo) && Enabled(s, step) && !step.PushedBack?
    requires OnLedger(s.undo, lists) && InUndoOrder(lists, s.undo.closed.entries)
    ensures InUndoOrder(lists + DraftsAdded(cfg, s.capture, step), Next(cfg, s, step).undo.closed.entries)
  {
    var f := Finalises(s.capture, step);
    if f.Some? {
      FinalisingKeepsOrder(cfg, s.undo, step, f.value, lists);
    } else {
      OthersThin(cfg, s.undo, step);
      ThinnedKeepsOrder(lists, Next(cfg, s, step).undo.closed.entries, s.undo.closed.entries);
      assert lists + [] == lists;
    }
  }

  lemma FinalisingKeepsOrder(cfg: Config, u: Undo, step: Step, f: (Burst, nat), lists: seq<seq<ClosedEntry>>)
    requires UndoInv(u) && !step.Restored? && !step.PushedBack?
    requires OnLedger(u, lists) && InUndoOrder(lists, u.closed.entries)
    ensures InUndoOrder(lists + [DraftsOf(cfg, f.0)], NextUndo(cfg, u, step, Some(f)).closed.entries)
  {
    var u1 := UndoFinalise(cfg, u, f.0, f.1);
    FinaliseKeepsOrder(cfg, u, f.0, f.1, lists);
    FinaliseKeepsUndo(cfg, u, f.0, f.1);
    FinalisesFirst(cfg, u, step, f);
    OthersThin(cfg, u1, step);
    ThinnedKeepsOrder(lists + [DraftsOf(cfg, f.0)], NextUndo(cfg, u, step, Some(f)).closed.entries, u1.closed.entries);
  }

  lemma {:induction false} RunKeepsOrder(cfg: Config, run: seq<Step>)
    requires ValidRun(cfg, Initial, run) && forall i | 0 <= i < |run| :: !run[i].PushedBack?
    ensures
      var s := Exec(cfg, Initial, run);
      InUndoOrder(DraftLists(cfg, s.capture.finalised), s.undo.closed.entries)
    decreases |run|
  {
    if run != [] {
      var before := LastStep(cfg, run);
      var s := Exec(cfg, Initial, before);
      RunKeepsOrder(cfg, before);
      RunKeepsLedger(cfg, before);
      StepKeepsOrder(cfg, s, run[|before|], DraftLists(cfg, s.capture.finalised));
      DraftListsStep(cfg, s, run[|before|]);
    }
  }

  // ---------------------------------------------------------------- undoing again and again

  /** The entries that one reopen after another takes, at these times, when none names an id. */
  function Undone(cfg: Config, d: Disk, clocks: seq<nat>): seq<ClosedEntry>
    decreases |clocks|
  {
    if clocks == [] then []
    else
      var (after, picked) := PopSection(cfg, d, None, clocks[0]);
      (if picked.Some? then [picked.value] else []) + Undone(cfg, after, clocks[1..])
  }

  /** The top entry comes before all that stay. */
  lemma TopIsFirst(cfg: Config, d: Disk, now: nat, lists: seq<seq<ClosedEntry>>)
    requires InUndoOrder(lists, d.closed.entries)
    ensures
      var (after, picked) := PopSection(cfg, d, None, now);
      && InUndoOrder(lists, after.closed.entries)
      && (picked.Some? ==> IsBeforeAll(lists, picked.value, after.closed.entries))
  {
    var pruned := Prune(d.closed, now, cfg.entryTtlHours, STACK_CAP).entries;
    assert InUndoOrder(lists, pruned) by {
      PruneThins(d.closed, now, cfg.entryTtlHours);
      ThinnedKeepsOrder(lists, pruned, d.closed.entries);
    }
    PopsTop(cfg, d, now);
    if pruned != [] { HeadIsFirst(lists, pruned); }
  }

  predicate IsBeforeAll(lists: seq<seq<ClosedEntry>>, top: ClosedEntry, rest: seq<ClosedEntry>) {
    forall e | e in rest :: Before(lists, top.id, e.id)
  }

  lemma HeadIsFirst(lists: seq<seq<ClosedEntry>>, entries: seq<ClosedEntry>)
    requires entries != [] && InUndoOrder(lists, entries)
    ensures InUndoOrder(lists, entries[1..]) && IsBeforeAll(lists, entries[0], entries[1..])
  {
    var rest := entries[1..];
    assert forall k | 0 <= k < |rest| :: rest[k] == entries[k + 1];
    forall e | e in rest ensures Before(lists, entries[0].id, e.id) {
      var k :| 0 <= k < |rest| && rest[k] == e;
    }
  }

  lemma FirstOnTop(lists: seq<seq<ClosedEntry>>, top: ClosedEntry, rest: seq<ClosedEntry>)
    requires IsBeforeAll(lists, top, rest) && InUndoOrder(lists, rest)
    ensures InUndoOrder(lists, [top] + rest)
  {
    forall i, j | 0 <= i < j < |rest| + 1 ensures Before(lists, ([top] + rest)[i].id, ([top] + rest)[j].id) {
      assert rest[j - 1] in rest;
      assert ([top] + rest)[j] == rest[j - 1];
      if i > 0 { assert ([top] + rest)[i] == rest[i - 1]; }
    }
  }

  lemma PopsTop(cfg: Config, d: Disk, now: nat)
    ensures
      var (after, picked) := PopSection(cfg, d, None, now);
      var pruned := Prune(d.closed, now, cfg.entryTtlHours, STACK_CAP).entries;
      if pruned == [] then after == d && picked.None?
      else after.closed.entries == pruned[1..] && picked == Some(pruned[0])
  {
    var pruned := Prune(d.closed, now, cfg.entryTtlHours, STACK_CAP).entries;
    if pruned != [] { assert pruned[..0] + pruned[0 + 1..] == pruned[1..]; }
  }

  lemma {:induction false} UndoneComesFrom(cfg: Config, d: Disk, clocks: seq<nat>)
    requires StackOk(d.closed)
    ensures forall e | e in Undone(cfg, d, clocks) :: e in d.closed.entries
    decreases |clocks|
  {
    if clocks != [] {
      PopTakesOne(cfg, d, None, clocks[0]);
      UndoneComesFrom(cfg, PopSection(cfg, d, None, clocks[0]).0, clocks[1..]);
    }
  }

  lemma {:induction false} UndoneInOrder(cfg: Config, d: Disk, clocks: seq<nat>, lists: seq<seq<ClosedEntry>>)
    requires StackOk(d.closed) && InUndoOrder(lists, d.closed.entries)
    ensures InUndoOrder(lists, Undone(cfg, d, clocks))
    decreases |clocks|
  {
    if clocks != [] {
      var (after, picked) := PopSection(cfg, d, None, clocks[0]);
      var rest := Undone(cfg, after, clocks[1..]);
      assert InUndoOrder(lists, after.closed.entries) && StackOk(after.closed) by {
        TopIsFirst(cfg, d, clocks[0], lists);
        PopTakesOne(cfg, d, None, clocks[0]);
      }
      UndoneInOrder(cfg, after, clocks[1..], lists);
      if picked.None? {
        assert [] + rest == rest;
      } else {
        assert IsBeforeAll(lists, picked.value, rest) by {
          UndoneComesFrom(cfg, after, clocks[1..]);
          TopIsFirst(cfg, d, clocks[0], lists);
        }
        FirstOnTop(lists, picked.value, rest);
      }
    }
  }

  /** Over every interleaving without a push-back: the stack stands newest burst first, in
      the order of inference inside each burst, and whatever the clocks, reopening again and
      again takes the entries of the last burst first, then those of the one before it. */
  lemma StackIsInUndoOrder(cfg: Config, run: seq<Step>, clocks: seq<nat>)
    requires ValidRun(cfg, Initial, run) && forall i | 0 <= i < |run| :: !run[i].PushedBack?
    ensures
      var s := Exec(cfg, Initial, run);
      var lists := DraftLists(cfg, s.capture.finalised);
      && InUndoOrder(lists, s.undo.closed.entries)
      && InUndoOrder(lists, Undone(cfg, DiskOf(s), clocks))
      && (forall e | e in s.undo.closed.entries :: 1 <= e.id <= Total(lists))
  {
    InitialInv();
    RunKeepsOrder(cfg, run);
    RunKeepsLedger(cfg, run);
    RunKeepsInv(cfg, Initial, run);
    var s := Exec(cfg, Initial, run);
    UndoneInOrder(cfg, DiskOf(s), clocks, DraftLists(cfg, s.capture.finalised));
  }
}
