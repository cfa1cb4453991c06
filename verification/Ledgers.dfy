/** The undo entries over every interleaving: which entries are ever issued, under which ids,
    and what becomes of each close event. */
module Ledgers {
  import opened Prelude
  import opened Model
  import opened Bursts
  import opened Inference
  import opened InferenceLaws
  import opened EntryContents
  import opened Stacks
  import opened StackLaws
  import opened Drafting
  import opened Protocol
  import opened Runs

  // ---------------------------------------------------------------- the ledger of entries

  /** Every entry of the lists under its id, numbered from 1 without a gap. */
  function Ledger(lists: seq<seq<ClosedEntry>>): map<nat, ClosedEntry> {
    if lists == [] then map[]
    else
      var before := lists[..|lists| - 1];
      Issue(Ledger(before), Renumber(lists[|lists| - 1], 1 + Total(before)))
  }

  lemma {:induction false} LedgerKeys(lists: seq<seq<ClosedEntry>>, id: nat)
    ensures id in Ledger(lists) <==> 1 <= id <= Total(lists)
  {
    if lists != [] {
      var before, last := lists[..|lists| - 1], lists[|lists| - 1];
      LedgerKeys(before, id);
      IssueAddsKeys(Ledger(before), last, 1 + Total(before), id);
    }
  }

  lemma IssueAddsKeys(issued: map<nat, ClosedEntry>, drafts: seq<ClosedEntry>, next: nat, id: nat)
    ensures id in Issue(issued, Renumber(drafts, next)) <==> id in issued || next <= id < next + |drafts|
  {
    var entries := Renumber(drafts, next);
    IssueKeys(issued, entries);
    if next <= id < next + |drafts| {
      assert entries[id - next].id == id;
    }
  }

  /** Where the ledger keeps entry `i` of list `k`. */
  lemma {:induction false} LedgerHas(lists: seq<seq<ClosedEntry>>, k: nat, i: nat)
    requires k < |lists| && i < |lists[k]|
    ensures
      var id := 1 + Total(lists[..k]) + i;
      id in Ledger(lists) && Ledger(lists)[id] == lists[k][i].(id := id)
    decreases |lists|
  {
    var n := |lists| - 1;
    var before := lists[..n];
    var id := 1 + Total(lists[..k]) + i;
    if k == n {
      NewestHas(before, lists[n], i);
      assert before + [lists[n]] == lists;
    } else {
      assert before[..k] == lists[..k] && before[k] == lists[k];
      LedgerHas(before, k, i);
      OlderStays(before, lists[n], id);
      assert before + [lists[n]] == lists;
    }
  }

  lemma NewestHas(before: seq<seq<ClosedEntry>>, last: seq<ClosedEntry>, i: nat)
    requires i < |last|
    ensures
      var id := 1 + Total(before) + i;
      id in Ledger(before + [last]) && Ledger(before + [last])[id] == last[i].(id := id)
  {
    var next := 1 + Total(before);
    var after := Issue(Ledger(before), Renumber(last, next));
    IssueAddsNewest(Ledger(before), last, next, i);
    assert Ledger(before + [last]) == after by { LedgerGrows(before, last); }
  }

  lemma IssueAddsNewest(issued: map<nat, ClosedEntry>, drafts: seq<ClosedEntry>, next: nat, i: nat)
    requires i < |drafts|
    ensures
      var after := Issue(issued, Renumber(drafts, next));
      next + i in after && after[next + i] == drafts[i].(id := next + i)
  {
    IssueLooksUp(issued, Renumber(drafts, next), next, next + i);
  }

  lemma OlderStays(before: seq<seq<ClosedEntry>>, last: seq<ClosedEntry>, id: nat)
    requires id in Ledger(before)
    ensures id in Ledger(before + [last]) && Ledger(before + [last])[id] == Ledger(before)[id]
  {
    LedgerKeys(before, id);
    LedgerGrows(before, last);
    IssueKeepsOlder(Ledger(before), last, 1 + Total(before), id);
  }

  lemma IssueKeepsOlder(issued: map<nat, ClosedEntry>, drafts: seq<ClosedEntry>, next: nat, id: nat)
    requires id in issued && id < next
    ensures
      var after := Issue(issued, Renumber(drafts, next));
      id in after && after[id] == issued[id]
  {
    IssueLooksUp(issued, Renumber(drafts, next), next, id);
  }

  lemma LedgerGrows(lists: seq<seq<ClosedEntry>>, more: seq<ClosedEntry>)
    ensures Ledger(lists + [more]) == Issue(Ledger(lists), Renumber(more, 1 + Total(lists)))
    ensures Total(lists + [more]) == Total(lists) + |more|
  {
    assert (lists + [more])[..|lists|] == lists;
  }

  /** The entries ever issued are those of the finalised bursts, in order; nothing that
      happens on the stack in between shows. */
  predicate OnLedger(u: Undo, lists: seq<seq<ClosedEntry>>) {
    u.issued == Ledger(lists) && Max(u.closed.nextId, 1) == 1 + Total(lists)
  }

  lemma FinalisesRetires(s: System, step: Step)
    requires Enabled(s, step)
    ensures
      var f := Finalises(s.capture, step);
      NextCapture(s.capture, step).finalised ==
      s.capture.finalised + (if f.Some? then [f.value.0] else [])
  {
  }

  lemma FinaliseIssues(cfg: Config, u: Undo, b: Burst, now: nat, lists: seq<seq<ClosedEntry>>)
    requires UndoInv(u) && OnLedger(u, lists)
    ensures OnLedger(UndoFinalise(cfg, u, b, now), lists + [DraftsOf(cfg, b)])
  {
    NewEntriesAreNumbered(u.closed, b, cfg, now);
    LedgerGrows(lists, DraftsOf(cfg, b));
    FinaliseWrites(cfg, u, b, now);
  }

  lemma FinaliseWrites(cfg: Config, u: Undo, b: Burst, now: nat)
    ensures
      var v := UndoFinalise(cfg, u, b, now);
      && v.issued == Issue(u.issued, NewEntries(u.closed, b, cfg, now))
      && v.closed == Finalized(u.closed, b, cfg, now)
  {
  }

  lemma FinalisesFirst(cfg: Config, u: Undo, step: Step, f: (Burst, nat))
    requires !step.Restored? && !step.PushedBack?
    ensures NextUndo(cfg, u, step, Some(f)) == NextUndo(cfg, UndoFinalise(cfg, u, f.0, f.1), step, None)
  {
  }

  /** Popping, restoring, putting back and pruning issue nothing. */
  lemma OthersIssueNothing(cfg: Config, u: Undo, step: Step)
    requires UndoInv(u) && ((step.Restored? || step.PushedBack?) ==> step.pid in u.holding)
    ensures
      var v := NextUndo(cfg, u, step, None);
      v.issued == u.issued && v.closed.nextId == u.closed.nextId
  {
    if step.Pop? {
      PopTakesOne(cfg, Disk(None, u.closed), step.want, step.now);
    }
  }

  /** The drafts of the burst a step finalises, if it does. */
  function DraftsAdded(cfg: Config, c: Capture, step: Step): seq<seq<ClosedEntry>> {
    var f := Finalises(c, step);
    if f.Some? then [DraftsOf(cfg, f.value.0)] else []
  }

  lemma DraftListsStep(cfg: Config, s: System, step: Step)
    requires Enabled(s, step)
    ensures DraftLists(cfg, NextCapture(s.capture, step).finalised) ==
            DraftLists(cfg, s.capture.finalised) + DraftsAdded(cfg, s.capture, step)
  {
    var f := Finalises(s.capture, step);
    FinalisesRetires(s, step);
    if f.Some? { DraftListsGrow(cfg, s.capture.finalised, f.value.0); }
  }

  lemma StepKeepsLedger(cfg: Config, s: System, step: Step, lists: seq<seq<ClosedEntry>>)
    requires UndoInv(s.undo) && OnLedger(s.undo, lists) && Enabled(s, step)
    ensures OnLedger(Next(cfg, s, step).undo, lists + DraftsAdded(cfg, s.capture, step))
  {
    var f := Finalises(s.capture, step);
    if f.Some? {
      FinalisingKeepsLedger(cfg, s.undo, step, f.value, lists);
    } else {
      OthersIssueNothing(cfg, s.undo, step);
      assert lists + [] == lists;
    }
  }

  lemma QuietKeepsLedger(cfg: Config, u: Undo, step: Step, lists: seq<seq<ClosedEntry>>)
    requires UndoInv(u) && OnLedger(u, lists) && ((step.Restored? || step.PushedBack?) ==> step.pid in u.holding)
    ensures OnLedger(NextUndo(cfg, u, step, None), lists)
  {
    OthersIssueNothing(cfg, u, step);
  }

  lemma FinalisingKeepsLedger(cfg: Config, u: Undo, step: Step, f: (Burst, nat), lists: seq<seq<ClosedEntry>>)
    requires UndoInv(u) && OnLedger(u, lists) && !step.Restored? && !step.PushedBack?
    ensures OnLedger(NextUndo(cfg, u, step, Some(f)), lists + [DraftsOf(cfg, f.0)])
  {
    var u1 := UndoFinalise(cfg, u, f.0, f.1);
    FinaliseIssues(cfg, u, f.0, f.1, lists);
    FinaliseKeepsUndo(cfg, u, f.0, f.1);
    QuietKeepsLedger(cfg, u1, step, lists + [DraftsOf(cfg, f.0)]);
    FinalisesFirst(cfg, u, step, f);
  }

  lemma {:induction false} RunKeepsLedger(cfg: Config, run: seq<Step>)
    requires ValidRun(cfg, Initial, run)
    ensures
      var s := Exec(cfg, Initial, run);
      OnLedger(s.undo, DraftLists(cfg, s.capture.finalised))
    decreases |run|
  {
    if run == [] {
      assert DraftLists(cfg, Initial.capture.finalised) == [];
    } else {
      var before := LastStep(cfg, run);
      var s := Exec(cfg, Initial, before);
      RunKeepsLedger(cfg, before);
      StepKeepsLedger(cfg, s, run[|before|], DraftLists(cfg, s.capture.finalised));
      DraftListsStep(cfg, s, run[|before|]);
    }
  }

  lemma LastStep(cfg: Config, run: seq<Step>) returns (before: seq<Step>)
    requires ValidRun(cfg, Initial, run) && run != []
    ensures before == run[..|run| - 1] && ValidRun(cfg, Initial, before)
    ensures
      var s := Exec(cfg, Initial, before);
      && SystemInv(s) && Enabled(s, run[|before|])
      && Exec(cfg, Initial, run) == Next(cfg, s, run[|before|])
  {
    before := run[..|run| - 1];
    assert before + [run[|before|]] == run;
    RunsCompose(cfg, Initial, before, [run[|before|]]);
    OneStep(cfg, Exec(cfg, Initial, before), run[|before|]);
    InitialInv();
    RunKeepsInv(cfg, Initial, before);
  }

  /** For every interleaving of hooks, crashes, recovery passes and reopens: the entries ever
      issued, ids and contents, are a function of the finalised bursts alone, and the ids are
      1, 2, 3 and so on without a gap. */
  lemma IssuedIsTheLedger(cfg: Config, run: seq<Step>)
    requires ValidRun(cfg, Initial, run)
    ensures
      var s := Exec(cfg, Initial, run);
      var lists := DraftLists(cfg, s.capture.finalised);
      && s.undo.issued == Ledger(lists)
      && (forall id: nat :: id in s.undo.issued <==> 1 <= id <= Total(lists))
  {
    RunKeepsLedger(cfg, run);
    var lists := DraftLists(cfg, Exec(cfg, Initial, run).capture.finalised);
    forall id: nat ensures id in Ledger(lists) <==> 1 <= id <= Total(lists) {
      LedgerKeys(lists, id);
    }
  }

  // ---------------------------------------------------------------- from a close to its entry

  predicate Accounted(u: Undo, id: nat) {
    id in StackIds(u) || id in HeldIds(u) || id in u.restored || id in u.lost
  }

  /** A finalised burst has made an entry that describes this event. */
  predicate HasEntryFor(cfg: Config, u: Undo, b: Burst, e: BurstEvent)
    requires Draftable(b.frozen, e)
  {
    exists id | id in u.issued ::
      Accounted(u, id) && u.issued[id].id == id && u.issued[id].protocol == 22 && Describes(u.issued[id], b.frozen, e)
  }

  /** This entry keeps workspace `wid` as the burst froze it, with all its remembered tabs. */
  predicate HoldsWorkspace(entry: ClosedEntry, frozen: seq<WorkspaceSnap>, wid: Id) {
    exists w | w in [entry.workspace] + entry.group ::
      w.workspaceId == wid && KeepsFrozen(w, frozen)
  }

  /** An entry on the books is the burst's one entry for the workspaces it closed, and keeps
      this one. */
  predicate KeepsWorkspace(u: Undo, b: Burst, wid: Id) {
    exists id | id in u.issued ::
      && Accounted(u, id) && u.issued[id].protocol == 22
      && DescribesAll(u.issued[id], b) && HoldsWorkspace(u.issued[id], b.frozen, wid)
  }

  /** What a finalised burst has put on the books for one of its close events: the closed
      workspace, if the event closed one or its workspace closed in the same burst; otherwise
      the entry made from the event, if it yields one. */
  predicate OnTheBooks(cfg: Config, u: Undo, b: Burst, e: BurstEvent) {
    && (e.name.WorkspaceClosed? ==> KeepsWorkspace(u, b, ClosedIdOf(e)))
    && (!e.name.WorkspaceClosed? && Covered(BurstClosed(b), WorkspaceOf(b.frozen, e)) ==>
          KeepsWorkspace(u, b, WorkspaceOf(b.frozen, e)))
    && (Yields(b, cfg.captureExited, e) ==> Draftable(b.frozen, e) && HasEntryFor(cfg, u, b, e))
  }

  /** A close event that was pushed is, in every state of every run, in the pending burst, in
      a dropped chain, or in a finalised burst that has put what the event closed on the
      books: an issued entry on the stack, held by a reopen, restored, or lost to age or cap. */
  lemma EveryCloseIsAccountedFor(cfg: Config, run: seq<Step>, e: BurstEvent)
    requires ValidRun(cfg, Initial, run) && e in Exec(cfg, Initial, run).capture.pushed
    ensures
      var s := Exec(cfg, Initial, run);
      || (s.capture.pending.Some? && e in s.capture.pending.value.events)
      || (exists b | b in s.capture.dropped :: e in b.events)
      || (exists b | b in s.capture.finalised ::
            e in b.events && OnTheBooks(cfg, s.undo, b, e))
  {
    var s := Exec(cfg, Initial, run);
    ExactlyOnce(cfg, run);
    var c := s.capture;
    assert c.pushed[e] == EventsOf(c.pending)[e] + AllEvents(c.finalised)[e] + AllEvents(c.dropped)[e];
    if e in AllEvents(c.dropped) {
      var k := SomeBurstHas(c.dropped, e);
      assert c.dropped[k] in c.dropped;
    } else if e in AllEvents(c.finalised) {
      var k := SomeBurstHas(c.finalised, e);
      assert c.finalised[k] in c.finalised;
      FinalisedEventIsOnTheBooks(cfg, run, k, e);
    } else {
      assert e in EventsOf(c.pending);
    }
  }

  lemma FinalisedEventIsOnTheBooks(cfg: Config, run: seq<Step>, k: nat, e: BurstEvent)
    requires ValidRun(cfg, Initial, run) && k < |Exec(cfg, Initial, run).capture.finalised|
    requires e in Exec(cfg, Initial, run).capture.finalised[k].events
    ensures
      var s := Exec(cfg, Initial, run);
      OnTheBooks(cfg, s.undo, s.capture.finalised[k], e)
  {
    var b := Exec(cfg, Initial, run).capture.finalised[k];
    if e.name.WorkspaceClosed? {
      ClosedIdsAre(b, e);
      ClosedWorkspaceIsKept(cfg, run, k, ClosedIdOf(e));
    } else if Covered(BurstClosed(b), WorkspaceOf(b.frozen, e)) {
      ClosedWorkspaceIsKept(cfg, run, k, WorkspaceOf(b.frozen, e));
    }
    if Yields(b, cfg.captureExited, e) {
      FinalisedEventHasEntry(cfg, run, k, e);
    }
  }

  lemma ClosedIdsAre(b: Burst, e: BurstEvent)
    requires e in b.events && e.name.WorkspaceClosed?
    ensures ClosedIdOf(e) in BurstClosed(b)
  {
    var closes := WorkspaceCloses(b.events);
    FilterIn(b.events, (x: BurstEvent) => x.name.WorkspaceClosed?);
    var k :| 0 <= k < |closes| && closes[k] == e;
    assert ClosedIds(closes)[k] == ClosedIdOf(e);
  }

  /** The first draft of a burst that closed this workspace holds it. */
  lemma FirstDraftHolds(cfg: Config, b: Burst, wid: Id, id: nat)
    requires wid in BurstClosed(b)
    ensures DraftsOf(cfg, b) != []
    ensures
      var entry := DraftsOf(cfg, b)[0].(id := id);
      DescribesAll(entry, b) && entry.protocol == 22 && HoldsWorkspace(entry, b.frozen, wid)
  {
    var snaps := ClosedSnaps(b.frozen, WorkspaceCloses(b.events));
    var w := CollectedSnap(b.frozen, WorkspaceCloses(b.events), wid);
    GroupDraftDescribes(b, EXPECTED_PROTOCOL, id);
    var first := GroupDraft(b, snaps, EXPECTED_PROTOCOL);
    assert HoldsWorkspace(first.(id := id), b.frozen, wid);
    assert DraftsOf(cfg, b) == [first] + DraftAll(b.frozen, BurstSources(b, cfg.captureExited), EXPECTED_PROTOCOL);
  }

  lemma CollectedSnap(frozen: seq<WorkspaceSnap>, closes: seq<BurstEvent>, wid: Id) returns (w: WorkspaceSnap)
    requires wid in ClosedIds(closes)
    ensures w in ClosedSnaps(frozen, closes) && w.workspaceId == wid && KeepsFrozen(w, frozen)
  {
    var snaps := ClosedSnaps(frozen, closes);
    assert wid in SnapIds(snaps) by {
      ClosedSnapIds(frozen, closes);
      DedupIsDistinct(ClosedIds(closes));
    }
    var i :| 0 <= i < |snaps| && SnapIds(snaps)[i] == wid;
    w := snaps[i];
    ClosedSnapsKeepFrozen(frozen, closes);
  }

  lemma ClosedWorkspaceIsKept(cfg: Config, run: seq<Step>, k: nat, wid: Id)
    requires ValidRun(cfg, Initial, run) && k < |Exec(cfg, Initial, run).capture.finalised|
    requires wid in BurstClosed(Exec(cfg, Initial, run).capture.finalised[k])
    ensures
      var s := Exec(cfg, Initial, run);
      KeepsWorkspace(s.undo, s.capture.finalised[k], wid)
  {
    var s := Exec(cfg, Initial, run);
    var b := s.capture.finalised[k];
    FirstDraftHolds(cfg, b, wid, 0);
    var id := IssuedInBurst(cfg, run, k, 0);
    FirstDraftHolds(cfg, b, wid, id);
  }

  /** Every draft of a finalised burst has been issued and is accounted for. */
  lemma IssuedInBurst(cfg: Config, run: seq<Step>, k: nat, i: nat) returns (id: nat)
    requires ValidRun(cfg, Initial, run) && k < |Exec(cfg, Initial, run).capture.finalised|
    requires i < |DraftsOf(cfg, Exec(cfg, Initial, run).capture.finalised[k])|
    ensures
      var s := Exec(cfg, Initial, run);
      && id in s.undo.issued && Accounted(s.undo, id)
      && s.undo.issued[id] == DraftsOf(cfg, s.capture.finalised[k])[i].(id := id)
  {
    var s := Exec(cfg, Initial, run);
    DraftListAt(cfg, s.capture.finalised, k);
    IssuedIsTheLedger(cfg, run);
    EntriesConserved(cfg, run);
    id := IssuedAt(s.undo, DraftLists(cfg, s.capture.finalised), k, i);
  }

  lemma FinalisedEventHasEntry(cfg: Config, run: seq<Step>, k: nat, e: BurstEvent)
    requires ValidRun(cfg, Initial, run) && k < |Exec(cfg, Initial, run).capture.finalised|
    requires
      var b := Exec(cfg, Initial, run).capture.finalised[k];
      e in b.events && Yields(b, cfg.captureExited, e)
    ensures
      var s := Exec(cfg, Initial, run);
      Draftable(s.capture.finalised[k].frozen, e) && HasEntryFor(cfg, s.undo, s.capture.finalised[k], e)
  {
    var s := Exec(cfg, Initial, run);
    var b := s.capture.finalised[k];
    var i := DraftFor(cfg, b, e);
    var id := IssuedInBurst(cfg, run, k, i);
    assert DraftsOf(cfg, b)[i].(id := id) == DraftOf(b.frozen, e, EXPECTED_PROTOCOL).(id := id);
    DraftDescribes(b.frozen, e, EXPECTED_PROTOCOL, id);
  }

  lemma IssuedAt(u: Undo, lists: seq<seq<ClosedEntry>>, k: nat, i: nat) returns (id: nat)
    requires u.issued == Ledger(lists) && IdsConserved(u)
    requires k < |lists| && i < |lists[k]|
    ensures id in u.issued && Accounted(u, id) && u.issued[id] == lists[k][i].(id := id)
  {
    LedgerHas(lists, k, i);
    id := 1 + Total(lists[..k]) + i;
    IssuedIsAccounted(u, id);
  }

  lemma IssuedIsAccounted(u: Undo, id: nat)
    requires IdsConserved(u) && id in u.issued
    ensures Accounted(u, id)
  {
    assert id in u.issued.Keys;
  }

  lemma DraftFor(cfg: Config, b: Burst, e: BurstEvent) returns (i: nat)
    requires e in b.events && Yields(b, cfg.captureExited, e)
    ensures Draftable(b.frozen, e)
    ensures i < |DraftsOf(cfg, b)|
    ensures forall id: nat :: DraftsOf(cfg, b)[i].(id := id) == DraftOf(b.frozen, e, EXPECTED_PROTOCOL).(id := id)
  {
    i := YieldingEventHasItsEntry(b, cfg.captureExited, 0, EXPECTED_PROTOCOL, e);
    assert Inferred(b, cfg.captureExited, 0, EXPECTED_PROTOCOL)[i] == DraftsOf(cfg, b)[i].(id := i);
  }
}
