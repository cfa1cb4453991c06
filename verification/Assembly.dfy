/** Assembling a snapshot from the server's flat lists, and keeping snapshots coherent. */
module Assembly {
  import opened Prelude
  import opened Model
  import opened Snapshots

  function FindRaw(panes: seq<RawPane>, id: Id): Option<RawPane> {
    if panes == [] then None
    else if panes[0].paneId == id then Some(panes[0])
    else FindRaw(panes[1..], id)
  }

  function FirstOfTab(panes: seq<RawPane>, tab: Id): Option<RawPane> {
    if panes == [] then None
    else if panes[0].tabId == tab then Some(panes[0])
    else FirstOfTab(panes[1..], tab)
  }

  /** The exported layout, or one flat leaf when there is none. */
  function RootOf(tab: Id, panes: seq<RawPane>, layouts: map<Id, RawLayout>): LayoutNode {
    if tab in layouts then layouts[tab].root
    else
      match FirstOfTab(panes, tab)
      case Some(p) => PaneLeaf(Some(p.paneId), Some(p.cwd), None)
      case None => PaneLeaf(None, None, None)
  }

  /** The listed panes in leaf order. */
  function LeafPanes(ids: seq<Id>, panes: seq<RawPane>, now: nat): seq<PaneSnap> {
    if ids == [] then []
    else
      var before := LeafPanes(ids[..|ids| - 1], panes, now);
      match FindRaw(panes, ids[|ids| - 1])
      case Some(p) => before + [PaneSnapOf(p, now)]
      case None => before
  }

  /** Then the panes of the tab that no leaf named. */
  function RestPanes(acc: seq<PaneSnap>, tab: Id, panes: seq<RawPane>, now: nat): seq<PaneSnap> {
    if panes == [] then acc
    else
      var before := RestPanes(acc, tab, panes[..|panes| - 1], now);
      var p := panes[|panes| - 1];
      if p.tabId == tab && FindPaneIn(before, p.paneId).None? then before + [PaneSnapOf(p, now)] else before
  }

  function TabOf(t: RawTab, index: nat, panes: seq<RawPane>, layouts: map<Id, RawLayout>, now: nat): TabSnap {
    var root := RootOf(t.tabId, panes, layouts);
    TabSnap(t.tabId, t.workspaceId, t.title, index, t.number, root,
            if t.tabId in layouts then layouts[t.tabId].focusedPaneId else None,
            RestPanes(LeafPanes(root.LeafPaneIds(), panes, now), t.tabId, panes, now))
  }

  function TabsOf(ws: Id, tabs: seq<RawTab>, panes: seq<RawPane>, layouts: map<Id, RawLayout>, now: nat): seq<TabSnap> {
    if tabs == [] then []
    else
      var before := TabsOf(ws, tabs[..|tabs| - 1], panes, layouts, now);
      var t := tabs[|tabs| - 1];
      if t.workspaceId == ws then before + [TabOf(t, |before|, panes, layouts, now)] else before
  }

  function WorkspaceOfRaw(
    w: RawWorkspace, index: nat, tabs: seq<RawTab>, panes: seq<RawPane>, layouts: map<Id, RawLayout>, now: nat)
    : WorkspaceSnap
  {
    var ws := WorkspaceSnap(w.workspaceId, w.title, index, w.number, None, w.activeTabId,
                            TabsOf(w.workspaceId, tabs, panes, layouts, now));
    ws.(cwd := ws.FirstCwd())
  }

  function WorkspacesOf(
    workspaces: seq<RawWorkspace>, tabs: seq<RawTab>, panes: seq<RawPane>, layouts: map<Id, RawLayout>, now: nat)
    : (r: seq<WorkspaceSnap>)
    ensures |r| == |workspaces|
  {
    seq(|workspaces|, i requires 0 <= i < |workspaces| =>
      WorkspaceOfRaw(workspaces[i], i, tabs, panes, layouts, now))
  }

  method AssembleTab(t: RawTab, index: nat, panes: seq<RawPane>, layouts: map<Id, RawLayout>, now: nat)
    returns (tab: TabSnap)
    ensures tab == TabOf(t, index, panes, layouts, now)
  {
    var root := RootOf(t.tabId, panes, layouts);
    var leafIds := root.LeafPaneIds();
    var tabPanes: seq<PaneSnap> := [];
    for i := 0 to |leafIds|
      invariant tabPanes == LeafPanes(leafIds[..i], panes, now)
    {
      assert leafIds[..i + 1][..i] == leafIds[..i];
      var p := FindRaw(panes, leafIds[i]);
      if p.Some? { tabPanes := tabPanes + [PaneSnapOf(p.value, now)]; }
    }
    assert leafIds[..|leafIds|] == leafIds;
    ghost var leafPanes := tabPanes;
    for i := 0 to |panes|
      invariant tabPanes == RestPanes(leafPanes, t.tabId, panes[..i], now)
    {
      assert panes[..i + 1][..i] == panes[..i];
      if panes[i].tabId == t.tabId && FindPaneIn(tabPanes, panes[i].paneId).None? {
        tabPanes := tabPanes + [PaneSnapOf(panes[i], now)];
      }
    }
    assert panes[..|panes|] == panes;
    tab := TabSnap(t.tabId, t.workspaceId, t.title, index, t.number, root,
                   if t.tabId in layouts then layouts[t.tabId].focusedPaneId else None, tabPanes);
  }

  /** `assemble`. */
  method Assemble(
    workspaces: seq<RawWorkspace>, tabs: seq<RawTab>, panes: seq<RawPane>, layouts: map<Id, RawLayout>, now: nat)
    returns (out: Snapshot)
    ensures out == Snapshot(now, WorkspacesOf(workspaces, tabs, panes, layouts, now))
  {
    out := Snapshot(now, []);
    for i := 0 to |workspaces|
      invariant out.takenAt == now && |out.workspaces| == i
      invariant forall k | 0 <= k < i ::
                  out.workspaces[k] == WorkspaceOfRaw(workspaces[k], k, tabs, panes, layouts, now)
    {
      var w := workspaces[i];
      var ws := WorkspaceSnap(w.workspaceId, w.title, i, w.number, None, w.activeTabId, []);
      for j := 0 to |tabs|
        invariant ws == WorkspaceSnap(w.workspaceId, w.title, i, w.number, None, w.activeTabId,
                                      TabsOf(w.workspaceId, tabs[..j], panes, layouts, now))
      {
        assert tabs[..j + 1][..j] == tabs[..j];
        if tabs[j].workspaceId == w.workspaceId {
          var tab := AssembleTab(tabs[j], |ws.tabs|, panes, layouts, now);
          ws := ws.(tabs := ws.tabs + [tab]);
        }
      }
      assert tabs[..|tabs|] == tabs;
      ws := ws.(cwd := ws.FirstCwd());
      out := out.(workspaces := out.workspaces + [ws]);
    }
  }

  // ---------------------------------------------------------------- every listed pane is kept

  /** The server's lists agree: workspace ids are distinct, and a pane that a tab claims, by
      its layout or by the pane's own tab id, is in the tab's workspace. */
  predicate Agree(workspaces: seq<RawWorkspace>, tabs: seq<RawTab>, panes: seq<RawPane>, layouts: map<Id, RawLayout>) {
    && (forall i, j | 0 <= i < j < |workspaces| :: workspaces[i].workspaceId != workspaces[j].workspaceId)
    && (forall t, p | t in tabs && p in panes ::
          p.tabId == t.tabId || p.paneId in RootOf(t.tabId, panes, layouts).LeafPaneIds()
          ==> p.workspaceId == t.workspaceId)
  }

  lemma FindRawIn(panes: seq<RawPane>, id: Id)
    ensures FindRaw(panes, id).Some? ==> FindRaw(panes, id).value in panes && FindRaw(panes, id).value.paneId == id
  {
  }

  lemma LeafPanesFrom(ids: seq<Id>, panes: seq<RawPane>, now: nat)
    ensures forall s | s in LeafPanes(ids, panes, now) ::
              s.paneId in ids && exists p | p in panes :: s == PaneSnapOf(p, now)
  {
    if ids != [] {
      LeafPanesFrom(ids[..|ids| - 1], panes, now);
      FindRawIn(panes, ids[|ids| - 1]);
    }
  }

  lemma RestPanesFrom(acc: seq<PaneSnap>, tab: Id, panes: seq<RawPane>, now: nat)
    ensures forall s | s in RestPanes(acc, tab, panes, now) ::
              s in acc || exists p | p in panes :: p.tabId == tab && s == PaneSnapOf(p, now)
  {
    if panes != [] {
      RestPanesFrom(acc, tab, panes[..|panes| - 1], now);
      var p := panes[|panes| - 1];
      assert p in panes;
      assert forall q | q in panes[..|panes| - 1] :: q in panes;
    }
  }

  lemma {:induction false} RestPanesKeep(acc: seq<PaneSnap>, tab: Id, panes: seq<RawPane>, now: nat, id: Id)
    ensures FindPaneIn(RestPanes(acc, tab, panes, now), id).Some? <==>
            FindPaneIn(acc, id).Some? || exists p | p in panes :: p.tabId == tab && p.paneId == id
  {
    if panes != [] {
      var n := |panes| - 1;
      assert panes == panes[..n] + [panes[n]];
      RestPanesKeep(acc, tab, panes[..n], now, id);
      RestPanesKeep(acc, tab, panes[..n], now, panes[n].paneId);
      FindPaneInSnoc(RestPanes(acc, tab, panes[..n], now), PaneSnapOf(panes[n], now), id);
    }
  }

  lemma TabAgrees(t: RawTab, index: nat, workspaces: seq<RawWorkspace>, tabs: seq<RawTab>,
                  panes: seq<RawPane>, layouts: map<Id, RawLayout>, now: nat)
    requires Agree(workspaces, tabs, panes, layouts) && t in tabs
    ensures forall s | s in TabOf(t, index, panes, layouts, now).panes :: s.workspaceId == t.workspaceId
  {
    var ids := RootOf(t.tabId, panes, layouts).LeafPaneIds();
    LeafPanesFrom(ids, panes, now);
    RestPanesFrom(LeafPanes(ids, panes, now), t.tabId, panes, now);
  }

  lemma TabsAgree(ws: Id, some: seq<RawTab>, workspaces: seq<RawWorkspace>, tabs: seq<RawTab>,
                  panes: seq<RawPane>, layouts: map<Id, RawLayout>, now: nat)
    requires Agree(workspaces, tabs, panes, layouts) && forall t | t in some :: t in tabs
    ensures forall t, s | t in TabsOf(ws, some, panes, layouts, now) && s in t.panes :: s.workspaceId == ws
  {
    if some != [] {
      var n := |some| - 1;
      assert forall t | t in some[..n] :: t in some;
      assert some[n] in some;
      TabsAgree(ws, some[..n], workspaces, tabs, panes, layouts, now);
      TabAgrees(some[n], |TabsOf(ws, some[..n], panes, layouts, now)|, workspaces, tabs, panes, layouts, now);
    }
  }

  /** Lists that agree give a coherent snapshot. */
  lemma AssembledIsCoherent(workspaces: seq<RawWorkspace>, tabs: seq<RawTab>, panes: seq<RawPane>,
                            layouts: map<Id, RawLayout>, now: nat)
    requires Agree(workspaces, tabs, panes, layouts)
    ensures Coherent(Snapshot(now, WorkspacesOf(workspaces, tabs, panes, layouts, now)))
  {
    var out := WorkspacesOf(workspaces, tabs, panes, layouts, now);
    forall i | 0 <= i < |out| ensures PanesAgree(out[i]) {
      TabsAgree(workspaces[i].workspaceId, tabs, workspaces, tabs, panes, layouts, now);
    }
  }

  lemma {:induction false} TabIsThere(ws: Id, some: seq<RawTab>, t: RawTab, panes: seq<RawPane>,
                                      layouts: map<Id, RawLayout>, now: nat)
    requires t in some && t.workspaceId == ws
    ensures exists i: nat :: TabOf(t, i, panes, layouts, now) in TabsOf(ws, some, panes, layouts, now)
  {
    var n := |some| - 1;
    if some[n] == t {
      var i := |TabsOf(ws, some[..n], panes, layouts, now)|;
      assert TabOf(t, i, panes, layouts, now) in TabsOf(ws, some, panes, layouts, now);
    } else {
      assert some == some[..n] + [some[n]];
      TabIsThere(ws, some[..n], t, panes, layouts, now);
      var i: nat :| TabOf(t, i, panes, layouts, now) in TabsOf(ws, some[..n], panes, layouts, now);
      assert TabOf(t, i, panes, layouts, now) in TabsOf(ws, some, panes, layouts, now);
    }
  }

  /** No pane of a listed tab is forgotten, whether or not the tab's layout was exported or
      names the pane. */
  lemma EveryListedPaneIsKept(
    workspaces: seq<RawWorkspace>, tabs: seq<RawTab>, panes: seq<RawPane>, layouts: map<Id, RawLayout>, now: nat,
    w: RawWorkspace, t: RawTab, p: RawPane)
    requires w in workspaces && t in tabs && p in panes
    requires t.workspaceId == w.workspaceId && p.tabId == t.tabId
    ensures InSnapshot(Snapshot(now, WorkspacesOf(workspaces, tabs, panes, layouts, now)), p.paneId)
  {
    var out := WorkspacesOf(workspaces, tabs, panes, layouts, now);
    var k :| 0 <= k < |workspaces| && workspaces[k] == w;
    TabIsThere(w.workspaceId, tabs, t, panes, layouts, now);
    var i: nat :| TabOf(t, i, panes, layouts, now) in TabsOf(w.workspaceId, tabs, panes, layouts, now);
    var tab := TabOf(t, i, panes, layouts, now);
    RestPanesKeep(LeafPanes(tab.layout.LeafPaneIds(), panes, now), t.tabId, panes, now, p.paneId);
    FindPaneInIff(tab.panes, p.paneId);
    assert out[k] in out && tab in out[k].tabs && HasPane(out[k], p.paneId);
    FindPaneIff(out, p.paneId);
  }

  // ---------------------------------------------------------------- coherence over runs

  lemma MergedTabsAgree(ws: Id, tabs: seq<TabSnap>, ps: PaneSnap, index: nat)
    requires ps.workspaceId == ws && forall t, p | t in tabs && p in t.panes :: p.workspaceId == ws
    ensures forall t, p | t in MergeIntoTabs(tabs, ps, index) && p in t.panes :: p.workspaceId == ws
  {
    if tabs == [] {
      MergedTabAgrees(ws, TabAround(ps, index), ps);
    } else {
      assert tabs[0] in tabs && forall t | t in tabs[1..] :: t in tabs;
      MergedTabAgrees(ws, tabs[0], ps);
      if tabs[0].tabId != ps.tabId { MergedTabsAgree(ws, tabs[1..], ps, index); }
    }
  }

  lemma ReplacedFrom(panes: seq<PaneSnap>, ps: PaneSnap)
    ensures forall p | p in ReplacePane(panes, ps) :: p == ps || p in panes
  {
  }

  lemma MergedTabAgrees(ws: Id, t: TabSnap, ps: PaneSnap)
    requires ps.workspaceId == ws && forall p | p in t.panes :: p.workspaceId == ws
    ensures forall p | p in MergeIntoTab(t, ps).panes :: p.workspaceId == ws
  {
    ReplacedFrom(t.panes, ps);
  }

  /** Putting one workspace in front of coherent ones. */
  lemma CoherentCons(w: WorkspaceSnap, rest: seq<WorkspaceSnap>)
    requires Coherent(Snapshot(0, rest)) && PanesAgree(w)
    requires forall x | x in rest :: x.workspaceId != w.workspaceId
    ensures Coherent(Snapshot(0, [w] + rest))
  {
    var all := [w] + rest;
    forall i, j | 0 <= i < j < |all| ensures all[i].workspaceId != all[j].workspaceId {
      assert all[j] == rest[j - 1] && rest[j - 1] in rest;
      assert i > 0 ==> all[i] == rest[i - 1];
    }
  }

  lemma CoherentTail(ws: seq<WorkspaceSnap>)
    requires Coherent(Snapshot(0, ws)) && ws != []
    ensures PanesAgree(ws[0]) && Coherent(Snapshot(0, ws[1..]))
    ensures forall x | x in ws[1..] :: x in ws && x.workspaceId != ws[0].workspaceId
  {
    assert ws[0] in ws;
    assert forall k | 0 <= k < |ws[1..]| :: ws[1..][k] == ws[k + 1];
  }

  lemma {:induction false} MergedIsCoherent(ws: seq<WorkspaceSnap>, ps: PaneSnap, index: nat)
    requires Coherent(Snapshot(0, ws))
    ensures Coherent(Snapshot(0, MergeIntoWorkspaces(ws, ps, index)))
    ensures forall w | w in MergeIntoWorkspaces(ws, ps, index) :: w.workspaceId == ps.workspaceId || w in ws
  {
    if ws == [] {
      MergedTabsAgree(ps.workspaceId, [], ps, 0);
      var merged := MergeIntoWorkspaces(ws, ps, index);
      CoherentCons(merged[0], []);
      assert merged == [merged[0]] + [];
    } else {
      CoherentTail(ws);
      if ws[0].workspaceId == ps.workspaceId {
        MergedTabsAgree(ps.workspaceId, ws[0].tabs, ps, |ws[0].tabs|);
        CoherentCons(ws[0].(tabs := MergeIntoTabs(ws[0].tabs, ps, |ws[0].tabs|)), ws[1..]);
      } else {
        MergedIsCoherent(ws[1..], ps, index);
        CoherentCons(ws[0], MergeIntoWorkspaces(ws[1..], ps, index));
      }
    }
  }

  lemma {:induction false} AddedTabIsCoherent(ws: seq<WorkspaceSnap>, t: RawTab)
    requires Coherent(Snapshot(0, ws))
    ensures Coherent(Snapshot(0, AddTab(ws, t)))
    ensures forall w | w in AddTab(ws, t) :: w.workspaceId == t.workspaceId || w in ws
  {
    if ws != [] {
      CoherentTail(ws);
      if ws[0].workspaceId != t.workspaceId {
        AddedTabIsCoherent(ws[1..], t);
        CoherentCons(ws[0], AddTab(ws[1..], t));
      } else {
        CoherentCons(WithTab(ws[0], t), ws[1..]);
      }
    }
  }

  predicate CoherentCache(c: Cache) {
    Coherent(c.current) && Coherent(c.previous)
  }

  lemma StepKeepsCoherence(c: Cache, step: CacheStep)
    requires CoherentCache(c) && (IsRefresh(step) ==> Coherent(step.snap))
    ensures CoherentCache(NextCache(c, step))
  {
    match step {
      case Refresh(_) =>
      case TornRefresh(_) =>
      case PaneCreated(p, now) =>
        MergedIsCoherent(c.current.workspaces, PaneSnapOf(p, now), |c.current.workspaces|);
      case TabCreated(t) =>
        AddedTabIsCoherent(c.current.workspaces, t);
      case WorkspaceCreated(w) =>
        FindWorkspaceInIff(c.current.workspaces, w.workspaceId);
        assert forall k | 0 <= k < |c.current.workspaces| :: c.current.workspaces[k] in c.current.workspaces;
    }
  }

  lemma {:induction false} RunKeepsCoherence(c: Cache, run: seq<CacheStep>)
    requires CoherentCache(c)
    requires forall i | 0 <= i < |run| && IsRefresh(run[i]) :: Coherent(run[i].snap)
    ensures CoherentCache(RunCache(c, run))
    decreases |run|
  {
    if run != [] {
      assert forall i | 0 <= i < |run[1..]| :: run[1..][i] == run[i + 1];
      StepKeepsCoherence(c, run[0]);
      RunKeepsCoherence(NextCache(c, run[0]), run[1..]);
    }
  }
}
