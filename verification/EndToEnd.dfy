/** The laws that span the whole plugin: from a pane in the shadow snapshot, over its close
    event and any interleaving of hooks and reopens, to the entry on the undo stack and the
    layout that entry restores. */
module EndToEnd {
  import opened Prelude
  import opened Model
  import opened Bursts
  import opened Inference
  import opened InferenceLaws
  import opened EntryContents
  import opened Protocol
  import opened Runs
  import opened Ledgers
  import opened Snapshots
  import opened Assembly
  import opened Layouts
  import opened LayoutLaws

  // ---------------------------------------------------------------- from the snapshot to the burst

  /** No other workspace of the snapshot has this pane. */
  predicate OneHolder(snap: Snapshot, pane: Id, ws: Id) {
    forall w | w in snap.workspaces :: HasPane(w, pane) ==> w.workspaceId == ws
  }

  /** Given a remembered pane: after its close event is pushed, on whatever burst, the burst
      holds the pane exactly when the burst it joined did or the event's freeze adds it; with
      one holder, exactly when the pane's workspace was not frozen before or was frozen with
      the pane. A workspace frozen now is held whole. */
  lemma PushedPaneIsHeldExactlyWhen(snap: Snapshot, pending: Option<Burst>, ev: BurstEvent, token: Token)
    requires Coherent(snap) && ev.paneId.Some? && InSnapshot(snap, ev.paneId.value)
    ensures
      var pane := ev.paneId.value;
      var at := FindPane(snap.workspaces, pane).value;
      var kept := FrozenOf(Target(pending, ev.t0));
      var held := FindPane(Push(pending, ev, token, FreezeFor(snap, ev)).burst.frozen, pane);
      && (held.Some? <==> FindPane(kept, pane).Some? || Adds(kept, FreezeFor(snap, ev), pane))
      && (OneHolder(snap, pane, at.ws.workspaceId) ==>
            (held.Some? <==> FindWorkspaceIn(kept, at.ws.workspaceId).None? || FindPane(kept, pane).Some?))
      && (FindWorkspaceIn(kept, at.ws.workspaceId).None? ==>
            && held.Some?
            && FindWorkspaceIn(Push(pending, ev, token, FreezeFor(snap, ev)).burst.frozen, at.ws.workspaceId) == Some(at.ws))
      && (FindPane(kept, pane).Some? ==> held == FindPane(kept, pane))
  {
    var pane := ev.paneId.value;
    var kept := FrozenOf(Target(pending, ev.t0));
    var frozen := FreezeFor(snap, ev);
    FreezeIsDistinct(snap, Wanted(snap, ev));
    PushMerges(pending, ev, token, frozen);
    PushHolds(pending, ev, token, frozen, pane);
    FreezeAdds(snap, kept, ev);
    MergeFinds(kept, frozen, FindPane(snap.workspaces, pane).value.ws.workspaceId);
    MergeExtends(kept, frozen);
    if FindPane(kept, pane).Some? { FindPaneInLonger(kept, MergeFrozen(kept, frozen), pane); }
  }

  lemma FreezeAdds(snap: Snapshot, kept: seq<WorkspaceSnap>, ev: BurstEvent)
    requires Coherent(snap) && ev.paneId.Some? && InSnapshot(snap, ev.paneId.value)
    ensures
      var pane := ev.paneId.value;
      var at := FindPane(snap.workspaces, pane).value;
      && FindWorkspaceIn(FreezeFor(snap, ev), at.ws.workspaceId) == Some(at.ws)
      && (FindWorkspaceIn(kept, at.ws.workspaceId).None? ==> Adds(kept, FreezeFor(snap, ev), pane))
      && (OneHolder(snap, pane, at.ws.workspaceId) && Adds(kept, FreezeFor(snap, ev), pane) ==>
            FindWorkspaceIn(kept, at.ws.workspaceId).None?)
  {
    var pane := ev.paneId.value;
    FrozenHoldsPane(snap, ev);
    FreezeFrom(snap, Wanted(snap, ev));
    FindPaneIff(snap.workspaces, pane);
    var at := FindPane(snap.workspaces, pane).value;
    FindWorkspaceInIff(FreezeFor(snap, ev), at.ws.workspaceId);
    assert HasPane(at.ws, pane);
  }

  /** What it holds is then the pane as the snapshot remembered it, unless the burst it joined
      had the pane already. */
  lemma HeldAsRemembered(snap: Snapshot, pending: Option<Burst>, ev: BurstEvent, token: Token)
    requires Coherent(snap) && ev.paneId.Some? && InSnapshot(snap, ev.paneId.value)
    requires OneHolder(snap, ev.paneId.value, FindPane(snap.workspaces, ev.paneId.value).value.ws.workspaceId)
    requires FindPane(FrozenOf(Target(pending, ev.t0)), ev.paneId.value).None?
    ensures
      var burst := Push(pending, ev, token, FreezeFor(snap, ev)).burst;
      var held := FindPane(burst.frozen, ev.paneId.value);
      held.Some? ==> held == FindPane(snap.workspaces, ev.paneId.value)
  {
    var pane := ev.paneId.value;
    var kept := FrozenOf(Target(pending, ev.t0));
    var frozen := FreezeFor(snap, ev);
    PushMerges(pending, ev, token, frozen);
    var merged := MergeFrozen(kept, frozen);
    if FindPane(merged, pane).Some? {
      var at := FindPane(snap.workspaces, pane).value;
      FindPaneIff(merged, pane);
      FindPaneIff(snap.workspaces, pane);
      var w := FindPane(merged, pane).value.ws;
      assert HasPane(w, pane);
      MergeFrom(kept, frozen);
      FindPaneIff(kept, pane);
      FreezeFrom(snap, Wanted(snap, ev));
      SameWorkspace(snap.workspaces, w, at.ws);
      FoundIn(merged, pane);
      FoundIn(snap.workspaces, pane);
    }
  }

  lemma MergeFrom(kept: seq<WorkspaceSnap>, add: seq<WorkspaceSnap>)
    ensures forall w | w in MergeFrozen(kept, add) :: w in kept || w in add
  {
    if add != [] {
      MergeFrom(kept, add[..|add| - 1]);
      assert forall w | w in add[..|add| - 1] :: w in add;
    }
  }

  lemma SameWorkspace(ws: seq<WorkspaceSnap>, a: WorkspaceSnap, b: WorkspaceSnap)
    requires DistinctWorkspaces(ws) && a in ws && b in ws && a.workspaceId == b.workspaceId
    ensures a == b
  {
    FindDistinctWorkspace(ws, a);
    FindDistinctWorkspace(ws, b);
  }

  /** A pane is found where its workspace has it. */
  lemma {:induction false} FoundIn(ws: seq<WorkspaceSnap>, pane: Id)
    requires FindPane(ws, pane).Some?
    ensures
      var w := FindPane(ws, pane).value.ws;
      FindPane(ws, pane) == FindPaneInTabs(w, w.tabs, pane)
  {
    FindPaneInTabsIff(ws[0], ws[0].tabs, pane);
    if FindPaneInTabs(ws[0], ws[0].tabs, pane).None? { FoundIn(ws[1..], pane); }
  }

  /** From shadow snapshot to burst, for every run of refreshes, whole or torn, and create
      events: the close hook of a pane finds it exactly when at most one losing commit has
      happened since it was last current (an event that names a tab besides may be answered
      by a snapshot that still has the tab only), and then the law above applies. */
  lemma ClosedPaneIsFrozenWhole(
    start: Cache, run: seq<CacheStep>, pending: Option<Burst>, ev: BurstEvent, token: Token)
    requires CoherentCache(start) && (forall i | 0 <= i < |run| && IsRefresh(run[i]) :: Coherent(run[i].snap))
    requires ev.paneId.Some?
    ensures
      var pane := ev.paneId.value;
      var c := RunCache(start, run);
      var snap := Chosen(c, ev);
      var found := FindPane(snap.workspaces, pane);
      var kept := FrozenOf(Target(pending, ev.t0));
      var burst := Push(pending, ev, token, FreezeFor(snap, ev)).burst;
      && (found.Some? <==> InSnapshot(c.current, pane) || (InSnapshot(c.previous, pane) && !Knows(c.current, ev)))
      && (ev.tabId.None? ==> (found.Some? <==> MissedSince(start, run, pane, Age(start, pane)) <= 1))
      && (found.Some? && FindWorkspaceIn(kept, found.value.ws.workspaceId).None? ==>
            && FindPane(burst.frozen, pane).Some?
            && FindWorkspaceIn(burst.frozen, found.value.ws.workspaceId) == Some(found.value.ws))
      && (found.Some? && OneHolder(snap, pane, found.value.ws.workspaceId) ==>
            (FindPane(burst.frozen, pane).Some? <==>
             FindWorkspaceIn(kept, found.value.ws.workspaceId).None? || FindPane(kept, pane).Some?))
  {
    var pane := ev.paneId.value;
    var c := RunCache(start, run);
    RunKeepsCoherence(start, run);
    RememberedExactlyWhen(start, run, pane, Age(start, pane));
    HookFindsPane(c, ev);
    if InSnapshot(Chosen(c, ev), pane) {
      PushedPaneIsHeldExactlyWhen(Chosen(c, ev), pending, ev, token);
    }
  }

  // ---------------------------------------------------------------- the burst on its way

  /** A burst that grew out of `base`, which `ev` had joined. */
  predicate GrewFrom(b: Burst, base: Burst, ev: BurstEvent) {
    ev in b.events && base.frozen <= b.frozen
  }

  /** The burst of the event is pending, dropped or finalised. */
  predicate Tracked(c: Capture, base: Burst, ev: BurstEvent) {
    || (c.pending.Some? && GrewFrom(c.pending.value, base, ev))
    || (exists b | b in c.dropped :: GrewFrom(b, base, ev))
    || (exists b | b in c.finalised :: GrewFrom(b, base, ev))
  }

  lemma PushTracks(c: Capture, base: Burst, ev: BurstEvent, step: Step)
    requires Tracked(c, base, ev) && step.HookPush?
    ensures Tracked(NextCapture(c, step), base, ev)
  {
    var r := Push(c.pending, step.ev, step.token, step.frozen);
    var d := NextCapture(c, step);
    RetireKeeps(c.finalised, r.expired);
    RetireKeeps(c.dropped, r.dropped);
    if c.pending.Some? && GrewFrom(c.pending.value, base, ev) {
      MergeExtends(c.pending.value.frozen, step.frozen);
      if FateOf(c.pending.value, step.ev.t0) == Joins {
        assert GrewFrom(d.pending.value, base, ev);
      } else if FateOf(c.pending.value, step.ev.t0) == Expires {
        assert c.pending.value in d.finalised;
      } else {
        assert c.pending.value in d.dropped;
      }
    }
  }

  lemma RetireKeeps(bursts: seq<Burst>, b: Option<Burst>)
    ensures forall x | x in bursts :: x in Retire(bursts, b)
    ensures b.Some? ==> b.value in Retire(bursts, b)
  {
  }

  lemma StepTracks(c: Capture, base: Burst, ev: BurstEvent, step: Step)
    requires Tracked(c, base, ev)
    ensures Tracked(NextCapture(c, step), base, ev)
  {
    if step.HookPush? {
      PushTracks(c, base, ev, step);
    } else {
      RetireKeeps(c.finalised, c.pending);
      RetireKeeps(c.dropped, c.pending);
    }
  }

  lemma {:induction false} RunTracks(cfg: Config, s: System, run: seq<Step>, base: Burst, ev: BurstEvent)
    requires ValidRun(cfg, s, run) && Tracked(s.capture, base, ev)
    ensures Tracked(Exec(cfg, s, run).capture, base, ev)
    decreases |run|
  {
    if run != [] {
      StepTracks(s.capture, base, ev, run[0]);
      RunTracks(cfg, Next(cfg, s, run[0]), run[1..], base, ev);
    }
  }

  // ---------------------------------------------------------------- from the snapshot to the stack

  /** An entry that was issued and is on the stack, held, restored or lost, and that holds
      the pane in its remembered tab with that tab's layout, dated by its close. */
  predicate Keeps(u: Undo, ev: BurstEvent, at: PaneAt) {
    exists id | id in u.issued :: Accounted(u, id) && EntryKeeps(u.issued[id], ev, at)
  }

  predicate EntryKeeps(entry: ClosedEntry, ev: BurstEvent, at: PaneAt) {
    && entry.closedAt == ev.t0 && entry.events == [ev.name] && entry.group == []
    && entry.reason == (if ev.name.PaneExited? then Exited else Closed)
    && HoldsFrozenPane(entry, at) && at.pane in entry.workspace.tabs[0].panes
  }

  /** The close hook of a pane: which snapshot it freezes from and the step it takes. */
  function CloseHook(c: Cache, ev: BurstEvent, token: Token, now: nat): Step {
    HookPush(token, ev, FreezeFor(Chosen(c, ev), ev), now)
  }

  /** The whole way, for every state of the shadow snapshot, every run of the protocol before
      the close and every run after it: the event's burst is pending, in a dropped chain, or
      finalised; and a finalised burst in which the event yields has put an entry on the
      books that keeps whatever the burst held of the pane when it was pushed. */
  lemma ClosedPaneReachesTheStack(
    cfg: Config, cache: Cache, before: seq<Step>, ev: BurstEvent, token: Token, now: nat, after: seq<Step>)
    requires IsPaneClose(ev)
    requires ValidRun(cfg, Initial, before + [CloseHook(cache, ev, token, now)] + after)
    ensures ValidRun(cfg, Initial, before)
    ensures
      var pending := Exec(cfg, Initial, before).capture.pending;
      var base := Push(pending, ev, token, FreezeFor(Chosen(cache, ev), ev)).burst;
      var held := FindPane(base.frozen, ev.paneId.value);
      var s := Exec(cfg, Initial, before + [CloseHook(cache, ev, token, now)] + after);
      && Tracked(s.capture, base, ev)
      && (held.Some? ==>
            forall b | b in s.capture.finalised && GrewFrom(b, base, ev) && Yields(b, cfg.captureExited, ev) ::
              Keeps(s.undo, ev, held.value))
  {
    var hook := CloseHook(cache, ev, token, now);
    var run := before + [hook] + after;
    HookPushes(cfg, before, hook, after);
    var s0 := Exec(cfg, Initial, before);
    var base := Push(s0.capture.pending, ev, token, FreezeFor(Chosen(cache, ev), ev)).burst;
    PushMerges(s0.capture.pending, ev, token, FreezeFor(Chosen(cache, ev), ev));
    RunTracks(cfg, Next(cfg, s0, hook), after, base, ev);
    var s := Exec(cfg, Initial, run);
    if FindPane(base.frozen, ev.paneId.value).Some? {
      forall b | b in s.capture.finalised && GrewFrom(b, base, ev) && Yields(b, cfg.captureExited, ev)
        ensures Keeps(s.undo, ev, FindPane(base.frozen, ev.paneId.value).value)
      {
        FinalisedPaneIsKept(cfg, run, b, base, ev);
      }
    }
  }

  /** The same from the pane's last sighting on, for every pane close: found by its hook, for
      an event without a tab id exactly when at most one losing commit has happened since the
      pane was last current, and not frozen before in the burst it joins, the pane ends up in
      an entry that keeps it, its tab and its layout as the snapshot remembered them. */
  lemma RememberedPaneReachesTheStack(
    cfg: Config, start: Cache, memory: seq<CacheStep>,
    before: seq<Step>, ev: BurstEvent, token: Token, now: nat, after: seq<Step>)
    requires CoherentCache(start) && (forall i | 0 <= i < |memory| && IsRefresh(memory[i]) :: Coherent(memory[i].snap))
    requires IsPaneClose(ev)
    requires ValidRun(cfg, Initial, before + [CloseHook(RunCache(start, memory), ev, token, now)] + after)
    ensures ValidRun(cfg, Initial, before)
    ensures
      var pane := ev.paneId.value;
      var cache := RunCache(start, memory);
      var found := FindPane(Chosen(cache, ev).workspaces, pane);
      var pending := Exec(cfg, Initial, before).capture.pending;
      var kept := FrozenOf(Target(pending, ev.t0));
      var base := Push(pending, ev, token, FreezeFor(Chosen(cache, ev), ev)).burst;
      var s := Exec(cfg, Initial, before + [CloseHook(cache, ev, token, now)] + after);
      && (found.Some? <==>
            InSnapshot(cache.current, pane) || (InSnapshot(cache.previous, pane) && !Knows(cache.current, ev)))
      && (ev.tabId.None? ==> (found.Some? <==> MissedSince(start, memory, pane, Age(start, pane)) <= 1))
      && Tracked(s.capture, base, ev)
      && (&& found.Some? && OneHolder(Chosen(cache, ev), pane, found.value.ws.workspaceId)
          && FindPane(kept, pane).None? && FindWorkspaceIn(kept, found.value.ws.workspaceId).None? ==>
            forall b | b in s.capture.finalised && GrewFrom(b, base, ev) && Yields(b, cfg.captureExited, ev) ::
              Keeps(s.undo, ev, found.value))
  {
    var cache := RunCache(start, memory);
    var snap := Chosen(cache, ev);
    ClosedPaneReachesTheStack(cfg, cache, before, ev, token, now, after);
    var pending := Exec(cfg, Initial, before).capture.pending;
    RunKeepsCoherence(start, memory);
    ClosedPaneIsFrozenWhole(start, memory, pending, ev, token);
    var found := FindPane(snap.workspaces, ev.paneId.value);
    var kept := FrozenOf(Target(pending, ev.t0));
    if && found.Some? && OneHolder(snap, ev.paneId.value, found.value.ws.workspaceId)
       && FindPane(kept, ev.paneId.value).None?
    {
      HeldAsRemembered(snap, pending, ev, token);
    }
  }

  /** An exited pane whose tab is still current while only the history has the pane: its event
      names the tab, the hook freezes from the current snapshot, and the pane is not found
      although it is remembered. */
  lemma TabMasksRememberedPane(c: Cache, ev: BurstEvent, pane: Id, tab: Id)
    requires ev.name.PaneExited? && ev.paneId == Some(pane) && ev.tabId == Some(tab)
    requires FindTab(c.current.workspaces, tab).Some?
    requires !InSnapshot(c.current, pane) && InSnapshot(c.previous, pane)
    ensures Remembered(c, pane) && FindPane(Chosen(c, ev).workspaces, pane).None?
    ensures FindPane(Chosen(c, ev.(tabId := None)).workspaces, pane).Some?
  {
    HookFindsPane(c, ev);
    HookFindsPane(c, ev.(tabId := None));
  }

  /** Two refreshes are enough: the second drops one of two panes of a tab. */
  lemma MaskedCaseHappens() returns (run: seq<CacheStep>, ev: BurstEvent)
    ensures ev.name.PaneExited? && ev.paneId == Some("p") && ev.tabId == Some("t")
    ensures
      var c := RunCache(Cache(EmptySnapshot, EmptySnapshot), run);
      && MissedSince(Cache(EmptySnapshot, EmptySnapshot), run, "p", 2) == 1
      && Remembered(c, "p") && FindPane(Chosen(c, ev).workspaces, "p").None?
  {
    var both, one := OneTab(1, ["p", "q"]), OneTab(2, ["q"]);
    run := [Refresh(both), Refresh(one)];
    ev := BurstEvent(3, PaneExited, Some("p"), Some("t"), Some("w"), None, None);
    var start := Cache(EmptySnapshot, EmptySnapshot);
    OneTabHas(1, ["p", "q"], "p");
    OneTabHas(2, ["q"], "p");
    OneTabHas(1, ["p", "q"], "q");
    assert run[1..] == [Refresh(one)] && run[1..][1..] == [];
    var c1 := NextCache(start, run[0]);
    assert c1 == Cache(both, EmptySnapshot);
    assert LostContainers(both, one) by {
      var w := both.workspaces[0];
      assert w in both.workspaces && w.tabs[0] in w.tabs && w.tabs[0].panes[0] in w.tabs[0].panes;
      assert w.tabs[0].panes[0].paneId == "p";
    }
    var c2 := NextCache(c1, Refresh(one));
    assert c2 == Cache(one, both);
    assert RunCache(start, run) == c2 by {
      assert RunCache(c1, run[1..]) == RunCache(c2, run[1..][1..]);
    }
    TabMasksRememberedPane(c2, ev, "p", "t");
    assert Age(start, "p") == 2 by { FindPaneIff([], "p"); }
    RememberedExactlyWhen(start, run, "p", 2);
  }

  function OnePane(id: Id): PaneSnap {
    PaneSnap(id, "t", "w", "", None, None, None, None, None, 0)
  }

  function OneTab(now: nat, ids: seq<Id>): Snapshot {
    var panes := seq(|ids|, i requires 0 <= i < |ids| => OnePane(ids[i]));
    Snapshot(now, [WorkspaceSnap("w", None, 0, 0, None, None,
                                 [TabSnap("t", "w", None, 0, 0, PaneLeaf(None, None, None), None, panes)])])
  }

  lemma OneTabHas(now: nat, ids: seq<Id>, pane: Id)
    ensures InSnapshot(OneTab(now, ids), pane) <==> pane in ids
    ensures FindTab(OneTab(now, ids).workspaces, "t").Some?
  {
    var s := OneTab(now, ids);
    var w := s.workspaces[0];
    FindPaneIff(s.workspaces, pane);
    assert s.workspaces == [w] && w.tabs == [w.tabs[0]];
    if pane in ids {
      var i :| 0 <= i < |ids| && ids[i] == pane;
      assert w.tabs[0].panes[i] in w.tabs[0].panes && HasPane(w, pane);
    }
  }

  predicate IsPaneClose(ev: BurstEvent) {
    ev.paneId.Some? && (ev.name.PaneClosed? || ev.name.PaneExited?)
  }

  lemma HookPushes(cfg: Config, before: seq<Step>, hook: Step, after: seq<Step>)
    requires hook.HookPush? && ValidRun(cfg, Initial, before + [hook] + after)
    ensures ValidRun(cfg, Initial, before) && Enabled(Exec(cfg, Initial, before), hook)
    ensures
      var s := Next(cfg, Exec(cfg, Initial, before), hook);
      && ValidRun(cfg, s, after)
      && Exec(cfg, Initial, before + [hook] + after) == Exec(cfg, s, after)
  {
    RunsCompose(cfg, Initial, before + [hook], after);
    RunsCompose(cfg, Initial, before, [hook]);
    OneStep(cfg, Exec(cfg, Initial, before), hook);
  }

  lemma FinalisedPaneIsKept(cfg: Config, run: seq<Step>, b: Burst, base: Burst, ev: BurstEvent)
    requires ValidRun(cfg, Initial, run) && b in Exec(cfg, Initial, run).capture.finalised
    requires IsPaneClose(ev) && GrewFrom(b, base, ev) && Yields(b, cfg.captureExited, ev)
    requires FindPane(base.frozen, ev.paneId.value).Some?
    ensures Keeps(Exec(cfg, Initial, run).undo, ev, FindPane(base.frozen, ev.paneId.value).value)
  {
    var s := Exec(cfg, Initial, run);
    var k :| 0 <= k < |s.capture.finalised| && s.capture.finalised[k] == b;
    FinalisedEventHasEntry(cfg, run, k, ev);
    FindPaneInLonger(base.frozen, b.frozen, ev.paneId.value);
    EntryForKeeps(cfg, s.undo, b, ev);
  }

  lemma EntryForKeeps(cfg: Config, u: Undo, b: Burst, ev: BurstEvent)
    requires IsPaneClose(ev) && FindPane(b.frozen, ev.paneId.value).Some?
    requires Draftable(b.frozen, ev) && HasEntryFor(cfg, u, b, ev)
    ensures Keeps(u, ev, FindPane(b.frozen, ev.paneId.value).value)
  {
    var id :| id in u.issued && Accounted(u, id) && u.issued[id].id == id && Describes(u.issued[id], b.frozen, ev);
    DescribedPaneIsKept(u.issued[id], b.frozen, ev);
  }

  lemma DescribedPaneIsKept(entry: ClosedEntry, frozen: seq<WorkspaceSnap>, ev: BurstEvent)
    requires IsPaneClose(ev) && FindPane(frozen, ev.paneId.value).Some?
    requires Draftable(frozen, ev) && Describes(entry, frozen, ev)
    ensures EntryKeeps(entry, ev, FindPane(frozen, ev.paneId.value).value)
  {
    FindPaneIff(frozen, ev.paneId.value);
  }

  // ---------------------------------------------------------------- from the entry to the layout

  /** What a yielding pane close of a remembered pane leaves on the undo stack: an entry with
      the pane itself, in its remembered tab, with that tab's layout. */
  lemma RememberedPaneIsRecorded(b: Burst, capture: bool, next: nat, e: BurstEvent)
    requires e in b.events && Yields(b, capture, e) && e.paneId.Some? && !e.name.TabClosed?
    requires FindPane(b.frozen, e.paneId.value).Some?
    ensures
      var at := FindPane(b.frozen, e.paneId.value).value;
      exists entry | entry in Inferred(b, capture, next, EXPECTED_PROTOCOL) ::
        && |entry.workspace.tabs| == 1
        && entry.workspace.workspaceId == at.ws.workspaceId
        && entry.workspace.tabs[0].layout == at.tab.layout
        && entry.workspace.tabs[0].tabId == at.tab.tabId
        && at.pane in entry.workspace.tabs[0].panes
  {
    var i := YieldingEventHasItsEntry(b, capture, next, EXPECTED_PROTOCOL, e);
    var entry := Inferred(b, capture, next, EXPECTED_PROTOCOL)[i];
    PaneEntryHoldsPane(b.frozen, e, EXPECTED_PROTOCOL);
    assert entry.workspace == PaneDraft(b.frozen, e, EXPECTED_PROTOCOL).workspace;
    assert entry in Inferred(b, capture, next, EXPECTED_PROTOCOL);
  }

  /** Close, infer, reopen: following the recorded entry on the tab as the close left it
      gives the remembered layout back, with a new leaf in the pane's place, exactly when the
      pane shared its split with a single pane. */
  lemma ReopenUndoesRecordedClose(frozen: seq<WorkspaceSnap>, e: BurstEvent, live: seq<Id>, added: LayoutNode)
    requires EligiblePane(true, e) && FindPane(frozen, e.paneId.value).Some?
    requires
      var at := FindPane(frozen, e.paneId.value).value;
      && |at.tab.panes| > 1
      && Proper(at.tab.layout) && Identified(at.tab.layout) && Locate(at.tab.layout, e.paneId.value).Some?
      && (forall x :: x in live <==> x in ServerClose(at.tab.layout, e.paneId.value).LeafPaneIds())
      && added.Leaf? && added.paneId.Some? && added.paneId.value !in at.tab.layout.LeafPaneIds()
    ensures
      var at := FindPane(frozen, e.paneId.value).value;
      var entry := PaneDraft(frozen, e, EXPECTED_PROTOCOL);
      && entry.granularity.GPane? && |entry.workspace.tabs| == 1 && |entry.workspace.tabs[0].panes| == 1
      && var tab := entry.workspace.tabs[0];
         var plan := PlanRestore(tab.layout, tab.panes[0].paneId, live);
         && plan.Some?
         && (Layouts.Restored(ServerClose(at.tab.layout, e.paneId.value), plan.value, added)
               == ReplaceLeaf(at.tab.layout, e.paneId.value, added)
             <==> Locate(at.tab.layout, e.paneId.value).value.sibling.Leaf?)
  {
    FindPaneIff(frozen, e.paneId.value);
    var at := FindPane(frozen, e.paneId.value).value;
    ReopenUndoesCloseExactlyWhen(at.tab.layout, e.paneId.value, live, added);
  }
}
