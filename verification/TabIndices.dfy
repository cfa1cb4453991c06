/** The index a remembered tab carries. Every way a snapshot comes about numbers the tabs of
    a workspace by position and never lists a tab twice, and freezing keeps that. */
module TabIndices {
  import opened Prelude
  import opened Model
  import opened Bursts
  import opened Snapshots
  import opened Assembly

  predicate WellTabbed(tabs: seq<TabSnap>) {
    && (forall i | 0 <= i < |tabs| :: tabs[i].index == i)
    && (forall i, j | 0 <= i < j < |tabs| :: tabs[i].tabId != tabs[j].tabId)
  }

  predicate AllWellTabbed(ws: seq<WorkspaceSnap>) {
    forall w | w in ws :: WellTabbed(w.tabs)
  }

  // ---------------------------------------------------------------- assembled snapshots

  predicate DistinctTabs(tabs: seq<RawTab>) {
    forall i, j | 0 <= i < j < |tabs| :: tabs[i].tabId != tabs[j].tabId
  }

  lemma TabsOfFrom(ws: Id, tabs: seq<RawTab>, panes: seq<RawPane>, layouts: map<Id, RawLayout>, now: nat)
    ensures forall x | x in TabsOf(ws, tabs, panes, layouts, now) :: x.tabId in set t | t in tabs :: t.tabId
  {
    if tabs != [] {
      TabsOfFrom(ws, tabs[..|tabs| - 1], panes, layouts, now);
      assert forall t | t in tabs[..|tabs| - 1] :: t in tabs;
      assert tabs[|tabs| - 1] in tabs;
    }
  }

  lemma WellTabbedSnoc(tabs: seq<TabSnap>, t: TabSnap)
    requires WellTabbed(tabs) && t.index == |tabs| && forall x | x in tabs :: x.tabId != t.tabId
    ensures WellTabbed(tabs + [t])
  {
    assert forall k | 0 <= k < |tabs| :: tabs[k] in tabs;
  }

  lemma {:induction false} TabsOfAreWellTabbed(
    ws: Id, tabs: seq<RawTab>, panes: seq<RawPane>, layouts: map<Id, RawLayout>, now: nat)
    requires DistinctTabs(tabs)
    ensures WellTabbed(TabsOf(ws, tabs, panes, layouts, now))
  {
    if tabs != [] {
      var n := |tabs| - 1;
      var before := TabsOf(ws, tabs[..n], panes, layouts, now);
      TabsOfAreWellTabbed(ws, tabs[..n], panes, layouts, now);
      TabsOfFrom(ws, tabs[..n], panes, layouts, now);
      if tabs[n].workspaceId == ws {
        WellTabbedSnoc(before, TabOf(tabs[n], |before|, panes, layouts, now));
      }
    }
  }

  /** Assembling numbers the tabs of each workspace by position, gaps or not in the server's
      list of all tabs. */
  lemma AssembledIsWellTabbed(workspaces: seq<RawWorkspace>, tabs: seq<RawTab>, panes: seq<RawPane>,
                              layouts: map<Id, RawLayout>, now: nat)
    requires DistinctTabs(tabs)
    ensures AllWellTabbed(WorkspacesOf(workspaces, tabs, panes, layouts, now))
  {
    forall w | w in WorkspacesOf(workspaces, tabs, panes, layouts, now) ensures WellTabbed(w.tabs) {
      TabsOfAreWellTabbed(w.workspaceId, tabs, panes, layouts, now);
    }
  }

  // ---------------------------------------------------------------- create events

  lemma PlaceOf(tabs: seq<TabSnap>, id: Id) returns (j: nat)
    ensures j <= |tabs| && (forall k | 0 <= k < j :: tabs[k].tabId != id)
    ensures j < |tabs| ==> tabs[j].tabId == id
  {
    j := 0;
    while j < |tabs| && tabs[j].tabId != id
      invariant j <= |tabs| && forall k | 0 <= k < j :: tabs[k].tabId != id
    {
      j := j + 1;
    }
  }

  lemma MergedIsWellTabbed(tabs: seq<TabSnap>, ps: PaneSnap)
    requires WellTabbed(tabs)
    ensures WellTabbed(MergeIntoTabs(tabs, ps, |tabs|))
  {
    var j := PlaceOf(tabs, ps.tabId);
    MergedAtTab(tabs, ps, |tabs|, j);
    if j == |tabs| { WellTabbedSnoc(tabs, MergeIntoTab(TabAround(ps, |tabs|), ps)); }
  }

  lemma AddedIsWellTabbed(w: WorkspaceSnap, t: RawTab)
    requires WellTabbed(w.tabs)
    ensures WellTabbed(WithTab(w, t).tabs)
  {
    var j := PlaceOf(w.tabs, t.tabId);
    FindTabInAt(w.tabs, t.tabId, j);
    if j == |w.tabs| {
      var tab := TabSnap(t.tabId, t.workspaceId, t.title, j, t.number, PaneLeaf(None, None, None), None, []);
      WellTabbedSnoc(w.tabs, tab);
    }
  }

  lemma {:induction false} MergedAreWellTabbed(ws: seq<WorkspaceSnap>, ps: PaneSnap, index: nat)
    requires AllWellTabbed(ws)
    ensures AllWellTabbed(MergeIntoWorkspaces(ws, ps, index))
  {
    if ws == [] {
      MergedIsWellTabbed([], ps);
    } else {
      assert ws[0] in ws && forall w | w in ws[1..] :: w in ws;
      if ws[0].workspaceId == ps.workspaceId {
        MergedIsWellTabbed(ws[0].tabs, ps);
      } else {
        MergedAreWellTabbed(ws[1..], ps, index);
      }
    }
  }

  lemma {:induction false} AddedAreWellTabbed(ws: seq<WorkspaceSnap>, t: RawTab)
    requires AllWellTabbed(ws)
    ensures AllWellTabbed(AddTab(ws, t))
  {
    if ws != [] {
      assert ws[0] in ws && forall w | w in ws[1..] :: w in ws;
      AddedIsWellTabbed(ws[0], t);
      AddedAreWellTabbed(ws[1..], t);
    }
  }

  predicate WellTabbedCache(c: Cache) {
    AllWellTabbed(c.current.workspaces) && AllWellTabbed(c.previous.workspaces)
  }

  lemma StepKeepsIndices(c: Cache, step: CacheStep)
    requires WellTabbedCache(c) && (IsRefresh(step) ==> AllWellTabbed(step.snap.workspaces))
    ensures WellTabbedCache(NextCache(c, step))
  {
    match step {
      case PaneCreated(p, now) =>
        MergedAreWellTabbed(c.current.workspaces, PaneSnapOf(p, now), |c.current.workspaces|);
      case TabCreated(t) => AddedAreWellTabbed(c.current.workspaces, t);
      case _ =>
    }
  }

  /** Over any run of create events and of refreshes with assembled snapshots, both snapshots
      store every tab's position. */
  lemma {:induction false} RunKeepsIndices(c: Cache, run: seq<CacheStep>)
    requires WellTabbedCache(c)
    requires forall i | 0 <= i < |run| && IsRefresh(run[i]) :: AllWellTabbed(run[i].snap.workspaces)
    ensures WellTabbedCache(RunCache(c, run))
    decreases |run|
  {
    if run != [] {
      assert forall i | 0 <= i < |run[1..]| :: run[1..][i] == run[i + 1];
      StepKeepsIndices(c, run[0]);
      RunKeepsIndices(NextCache(c, run[0]), run[1..]);
    }
  }

  // ---------------------------------------------------------------- freezes

  lemma FrozenIsWellTabbed(snap: Snapshot, ev: BurstEvent)
    requires AllWellTabbed(snap.workspaces)
    ensures AllWellTabbed(FreezeFor(snap, ev))
  {
    FreezeFrom(snap, Wanted(snap, ev));
  }

  lemma {:induction false} MergedFreezesAreWellTabbed(kept: seq<WorkspaceSnap>, add: seq<WorkspaceSnap>)
    requires AllWellTabbed(kept) && AllWellTabbed(add)
    ensures AllWellTabbed(MergeFrozen(kept, add))
  {
    if add != [] {
      var n := |add| - 1;
      assert add[n] in add && forall w | w in add[..n] :: w in add;
      MergedFreezesAreWellTabbed(kept, add[..n]);
    }
  }
}
