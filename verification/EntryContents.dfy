/** What an undo entry says about the closes it was made from, field by field, and which
    closes make one, in terms of the events and the frozen workspaces alone. */
module EntryContents {
  import opened Prelude
  import opened Model
  import opened Inference
  import opened InferenceLaws

  // ---------------------------------------------------------------- entries of one event

  /** The same workspace but for its tabs. */
  predicate SameShell(a: WorkspaceSnap, b: WorkspaceSnap) {
    && a.workspaceId == b.workspaceId && a.title == b.title && a.index == b.index
    && a.number == b.number && a.cwd == b.cwd && a.activeTabId == b.activeTabId
  }

  /** The same tab but for its panes. */
  predicate SameTab(a: TabSnap, b: TabSnap) {
    && a.tabId == b.tabId && a.workspaceId == b.workspaceId && a.title == b.title && a.index == b.index
    && a.number == b.number && a.layout == b.layout && a.focusedPaneId == b.focusedPaneId
  }

  /** A tab of a frozen workspace, whole. */
  predicate HoldsTab(entry: ClosedEntry, at: TabAt) {
    && entry.granularity.GTab?
    && SameShell(entry.workspace, at.ws) && entry.workspace.tabs == [at.tab]
  }

  /** A pane of a frozen workspace: the whole tab if it was alone there, otherwise the pane in
      its tab, whose layout is kept. */
  predicate HoldsFrozenPane(entry: ClosedEntry, at: PaneAt) {
    && SameShell(entry.workspace, at.ws) && |entry.workspace.tabs| == 1
    && SameTab(entry.workspace.tabs[0], at.tab)
    && if |at.tab.panes| == 1
       then entry.granularity.GTab? && entry.workspace.tabs[0].panes == at.tab.panes
       else entry.granularity.GPane? && entry.workspace.tabs[0].panes == [at.pane]
  }

  /** A pane no frozen workspace has: what the event itself says of it. */
  predicate HoldsUnknownPane(entry: ClosedEntry, e: BurstEvent)
    requires e.paneId.Some?
  {
    var w := entry.workspace;
    && entry.granularity.GPane?
    && w.workspaceId == e.workspaceId.GetOr("") && w.title == e.workspaceLabel
    && w.cwd == Some(e.ctxCwd.GetOr("~")) && w.activeTabId.None?
    && |w.tabs| == 1 && w.tabs[0].tabId == e.tabId.GetOr("") && w.tabs[0].workspaceId == w.workspaceId
    && IsLeafOf(w.tabs[0].layout, e.paneId.value, w.cwd.value)
    && |w.tabs[0].panes| == 1
    && IsBarePane(w.tabs[0].panes[0], e)
  }

  predicate IsLeafOf(n: LayoutNode, pane: Id, cwd: string) {
    n.Leaf? && n.paneId == Some(pane) && n.cwd == Some(cwd)
  }

  predicate IsBarePane(p: PaneSnap, e: BurstEvent)
    requires e.paneId.Some?
  {
    && p.paneId == e.paneId.value && p.tabId == e.tabId.GetOr("") && p.workspaceId == e.workspaceId.GetOr("")
    && p.cwd == e.ctxCwd.GetOr("~") && p.updatedAt == e.t0
    && p.title.None? && p.agent.None? && p.agentSession.None? && p.foreground.None?
  }

  /** The entry of this event: dated by it, with its name and reason, and holding what it
      closed as the burst froze it. */
  predicate Describes(entry: ClosedEntry, frozen: seq<WorkspaceSnap>, e: BurstEvent)
    requires Draftable(frozen, e)
  {
    && entry.closedAt == e.t0 && entry.events == [e.name] && entry.group == []
    && entry.reason == (if e.name.PaneExited? then Exited else Closed)
    && if e.name.TabClosed? then HoldsTab(entry, FindTab(frozen, e.tabId.value).value)
       else match FindPane(frozen, e.paneId.value)
            case Some(at) => HoldsFrozenPane(entry, at)
            case None => HoldsUnknownPane(entry, e)
  }

  lemma DraftDescribes(frozen: seq<WorkspaceSnap>, e: BurstEvent, protocol: nat, id: nat)
    requires Draftable(frozen, e)
    ensures
      var entry := DraftOf(frozen, e, protocol).(id := id);
      Describes(entry, frozen, e) && entry.protocol == protocol
  {
  }

  // ---------------------------------------------------------------- the entry of whole workspaces

  /** The workspace as it was frozen; a missing title or directory may have been filled in. */
  predicate KeepsFrozen(w: WorkspaceSnap, frozen: seq<WorkspaceSnap>) {
    match FindWorkspaceIn(frozen, w.workspaceId)
    case Some(f) =>
      && w.tabs == f.tabs && w.index == f.index && w.number == f.number && w.activeTabId == f.activeTabId
      && (f.title.Some? ==> w.title == f.title) && (f.cwd.Some? ==> w.cwd == f.cwd)
    case None => w.tabs == [] && w.index == 0 && w.number == 0 && w.activeTabId.None?
  }

  lemma {:induction false} ClosedSnapsKeepFrozen(frozen: seq<WorkspaceSnap>, closes: seq<BurstEvent>)
    ensures forall w | w in ClosedSnaps(frozen, closes) :: KeepsFrozen(w, frozen)
  {
    if closes != [] {
      ClosedSnapsKeepFrozen(frozen, closes[..|closes| - 1]);
      ClosedSnapKeepsFrozen(frozen, closes[|closes| - 1]);
    }
  }

  /** What is filled in: the title from the event, the directory from the first tab or pane
      that has one, else from the event. */
  lemma ClosedSnapKeepsFrozen(frozen: seq<WorkspaceSnap>, e: BurstEvent)
    ensures
      var w := ClosedSnap(frozen, e);
      && w.workspaceId == e.workspaceId.GetOr("") && KeepsFrozen(w, frozen)
      && match FindWorkspaceIn(frozen, w.workspaceId)
         case None => w.title == e.workspaceLabel && w.cwd == e.ctxCwd
         case Some(f) =>
           && (f.title.None? ==> w.title == e.workspaceLabel)
           && (f.cwd.None? ==> w.cwd == TabsFirstCwd(f.tabs).OrElse(e.ctxCwd))
  {
    FindWorkspaceInIff(frozen, ClosedIdOf(e));
  }

  /** The one entry of a burst that closed workspaces: dated by the earliest event, with the
      names of all, one workspace or a group. */
  predicate DescribesAll(entry: ClosedEntry, b: Burst) {
    && (forall e | e in b.events :: entry.closedAt <= e.t0)
    && (exists e | e in b.events :: entry.closedAt == e.t0)
    && |entry.events| == |b.events| && (forall i | 0 <= i < |b.events| :: entry.events[i] == b.events[i].name)
    && entry.reason.Closed?
    && entry.granularity == (if entry.group == [] then GWorkspace else GWorkspaceGroup)
    && (forall w | w in [entry.workspace] + entry.group :: KeepsFrozen(w, b.frozen))
  }

  lemma GroupDraftDescribes(b: Burst, protocol: nat, id: nat)
    requires ClosedSnaps(b.frozen, WorkspaceCloses(b.events)) != []
    ensures
      var snaps := ClosedSnaps(b.frozen, WorkspaceCloses(b.events));
      var entry := GroupDraft(b, snaps, protocol).(id := id);
      DescribesAll(entry, b) && [entry.workspace] + entry.group == snaps && entry.protocol == protocol
  {
    var closes := WorkspaceCloses(b.events);
    var snaps := ClosedSnaps(b.frozen, closes);
    ClosedSnapsKeepFrozen(b.frozen, closes);
    FilterIn(b.events, (e: BurstEvent) => e.name.WorkspaceClosed?);
    assert closes != [] && closes[0] in b.events by { assert closes[0] in closes; }
    MinT0IsMinimum(b.events);
    assert [snaps[0]] + snaps[1..] == snaps;
  }

  // ---------------------------------------------------------------- which events make an entry

  /** The workspace an event belongs to: the one it names; else the first that froze its pane;
      else the first that froze its tab; else none. */
  lemma WorkspaceOfMeans(frozen: seq<WorkspaceSnap>, e: BurstEvent)
    ensures
      var w := WorkspaceOf(frozen, e);
      var pane, tab := if e.paneId.Some? then FindPane(frozen, e.paneId.value) else None,
                       if e.tabId.Some? then FindTab(frozen, e.tabId.value) else None;
      && (e.workspaceId.Some? ==> w == e.workspaceId.value)
      && (e.workspaceId.None? && pane.Some? ==> w == pane.value.ws.workspaceId)
      && (e.workspaceId.None? && pane.None? && tab.Some? ==> w == tab.value.ws.workspaceId)
      && (e.workspaceId.None? && pane.None? && tab.None? ==> w == "")
  {
  }

  /** Was this workspace closed in the burst? */
  predicate ClosesWorkspace(b: Burst, w: Id) {
    w != "" && exists x | x in b.events :: x.name.WorkspaceClosed? && x.workspaceId == Some(w)
  }

  /** An event makes an entry of its own exactly when it closed no whole workspace and its
      workspace was not closed in the burst, and: if a tab of its workspace was closed
      explicitly, it is such a tab close and a frozen workspace has the tab; otherwise it is a
      pane's close, or a pane's exit while exits are captured. */
  lemma YieldsExactlyWhen(b: Burst, capture: bool, e: BurstEvent)
    ensures
      var w := WorkspaceOf(b.frozen, e);
      Yields(b, capture, e) <==>
      && !e.name.WorkspaceClosed? && !ClosesWorkspace(b, w)
      && if exists x | x in b.events :: x.name.TabClosed? && WorkspaceOf(b.frozen, x) == w
         then e.name.TabClosed? && e.tabId.Some? && exists v | v in b.frozen :: HasTab(v, e.tabId.value)
         else e.paneId.Some? && (e.name.PaneClosed? || (e.name.PaneExited? && capture))
  {
    var w := WorkspaceOf(b.frozen, e);
    CoveredMeans(b, w);
    if !Covered(BurstClosed(b), w) { GroupHasTabClose(b, w); }
    if e.tabId.Some? { FindTabIff(b.frozen, e.tabId.value); }
  }

  lemma CoveredMeans(b: Burst, w: Id)
    ensures Covered(BurstClosed(b), w) <==> ClosesWorkspace(b, w)
  {
    var closes := WorkspaceCloses(b.events);
    FilterIn(b.events, (x: BurstEvent) => x.name.WorkspaceClosed?);
    if Covered(BurstClosed(b), w) {
      var i :| 0 <= i < |closes| && ClosedIds(closes)[i] == w;
      assert closes[i] in closes;
    }
    if x :| x in b.events && x.name.WorkspaceClosed? && x.workspaceId == Some(w) {
      assert x in closes;
      var i :| 0 <= i < |closes| && closes[i] == x;
      assert ClosedIds(closes)[i] == w;
    }
  }

  lemma GroupHasTabClose(b: Burst, w: Id)
    requires !Covered(BurstClosed(b), w)
    ensures HasTabClose(Group(b.frozen, BurstClosed(b), b.events, w)) <==>
            exists x | x in b.events :: x.name.TabClosed? && WorkspaceOf(b.frozen, x) == w
  {
    FilterIn(b.events, (x: BurstEvent) => InGroup(b.frozen, BurstClosed(b), w, x));
  }
}
