/** Panes and layouts stay together: reopening a pane looks its leaf up in the layout that was
    remembered with it, so every remembered pane should be a leaf of its tab. */
module PaneLeaves {
  import opened Model
  import opened Snapshots
  import opened Layouts

  /** Wherever this pane is remembered, the tab's layout has a leaf for it. */
  predicate HasLeaf(ws: seq<WorkspaceSnap>, pane: Id) {
    forall w, t | w in ws && t in w.tabs :: TabHasLeaf(t, pane)
  }

  predicate TabHasLeaf(t: TabSnap, pane: Id) {
    FindPaneIn(t.panes, pane).Some? ==> pane in t.layout.LeafPaneIds()
  }

  lemma MergedTabHasLeaf(t: TabSnap, ps: PaneSnap, pane: Id)
    requires TabHasLeaf(t, pane)
    ensures TabHasLeaf(MergeIntoTab(t, ps), pane)
  {
    MergedTabPanes(t, ps, pane);
    if FindPaneIn(t.panes, ps.paneId).None? && ps.paneId !in t.layout.LeafPaneIds() {
      var merged := MergeIntoTab(t, ps);
      assert merged.layout.LeafPaneIds() == t.layout.LeafPaneIds() + [ps.paneId];
    }
  }

  lemma {:induction false} MergedTabsHaveLeaf(tabs: seq<TabSnap>, ps: PaneSnap, index: nat, pane: Id)
    requires forall t | t in tabs :: TabHasLeaf(t, pane)
    ensures forall t | t in MergeIntoTabs(tabs, ps, index) :: TabHasLeaf(t, pane)
  {
    if tabs == [] {
      MergedTabHasLeaf(TabAround(ps, index), ps, pane);
    } else if tabs[0].tabId == ps.tabId {
      MergedTabHasLeaf(tabs[0], ps, pane);
    } else {
      MergedTabsHaveLeaf(tabs[1..], ps, index, pane);
    }
  }

  lemma {:induction false} MergedHaveLeaf(ws: seq<WorkspaceSnap>, ps: PaneSnap, index: nat, pane: Id)
    requires HasLeaf(ws, pane)
    ensures HasLeaf(MergeIntoWorkspaces(ws, ps, index), pane)
  {
    if ws == [] {
      MergedTabsHaveLeaf([], ps, 0, pane);
    } else if ws[0].workspaceId == ps.workspaceId {
      MergedTabsHaveLeaf(ws[0].tabs, ps, |ws[0].tabs|, pane);
    } else {
      MergedHaveLeaf(ws[1..], ps, index, pane);
    }
  }

  lemma {:induction false} AddedHaveLeaf(ws: seq<WorkspaceSnap>, t: RawTab, pane: Id)
    requires HasLeaf(ws, pane)
    ensures HasLeaf(AddTab(ws, t), pane)
  {
    if ws != [] && ws[0].workspaceId != t.workspaceId {
      AddedHaveLeaf(ws[1..], t, pane);
    }
  }

  /** A create event never separates a pane from its leaf: whatever it adds or replaces, every
      pane that had a leaf keeps one. */
  lemma CreateKeepsLeaves(c: Cache, step: CacheStep, pane: Id)
    requires !IsRefresh(step) && HasLeaf(c.current.workspaces, pane)
    ensures HasLeaf(NextCache(c, step).current.workspaces, pane)
  {
    match step {
      case PaneCreated(p, now) =>
        MergedHaveLeaf(c.current.workspaces, PaneSnapOf(p, now), |c.current.workspaces|, pane);
      case TabCreated(t) => AddedHaveLeaf(c.current.workspaces, t, pane);
      case WorkspaceCreated(_) =>
    }
  }

  lemma {:induction false} AbsentHasLeaf(ws: seq<WorkspaceSnap>, pane: Id)
    requires FindPane(ws, pane).None?
    ensures HasLeaf(ws, pane)
  {
    FindPaneIff(ws, pane);
    forall w, t | w in ws && t in w.tabs ensures TabHasLeaf(t, pane) {
      FindPaneInIff(t.panes, pane);
      assert !HasPane(w, pane);
    }
  }

  lemma FoundHasLeaf(ws: seq<WorkspaceSnap>, pane: Id)
    requires HasLeaf(ws, pane) && FindPane(ws, pane).Some?
    ensures pane in FindPane(ws, pane).value.tab.layout.LeafPaneIds()
  {
    FindPaneIff(ws, pane);
    var at := FindPane(ws, pane).value;
    FindPaneInIff(at.tab.panes, pane);
    assert TabHasLeaf(at.tab, pane);
  }

  /** A pane that a create event adds can be located in its tab's layout from then on, unless
      it is the only leaf there. */
  lemma CreatedPaneHasItsLeaf(c: Cache, p: RawPane, now: nat)
    requires !InSnapshot(c.current, p.paneId)
    ensures
      var after := NextCache(c, PaneCreated(p, now)).current.workspaces;
      && FindPane(after, p.paneId).Some?
      && var layout := FindPane(after, p.paneId).value.tab.layout;
         && p.paneId in layout.LeafPaneIds()
         && (Locate(layout, p.paneId).Some? <==> layout.Split?)
  {
    var step := PaneCreated(p, now);
    var after := NextCache(c, step).current.workspaces;
    AbsentHasLeaf(c.current.workspaces, p.paneId);
    CreateKeepsLeaves(c, step, p.paneId);
    MergesForgetNothing(c, step, p.paneId);
    FoundHasLeaf(after, p.paneId);
    LocateIsExact(FindPane(after, p.paneId).value.tab.layout, p.paneId);
  }

  /** Over any run whose refreshes keep the pane with its leaf, both snapshots do. */
  lemma {:induction false} RunKeepsLeaves(c: Cache, run: seq<CacheStep>, pane: Id)
    requires HasLeaf(c.current.workspaces, pane) && HasLeaf(c.previous.workspaces, pane)
    requires forall i | 0 <= i < |run| && IsRefresh(run[i]) :: HasLeaf(run[i].snap.workspaces, pane)
    ensures
      var d := RunCache(c, run);
      HasLeaf(d.current.workspaces, pane) && HasLeaf(d.previous.workspaces, pane)
    decreases |run|
  {
    if run != [] {
      var d := NextCache(c, run[0]);
      assert forall i | 0 <= i < |run[1..]| :: run[1..][i] == run[i + 1];
      if !IsRefresh(run[0]) { CreateKeepsLeaves(c, run[0], pane); }
      RunKeepsLeaves(d, run[1..], pane);
    }
  }
}
