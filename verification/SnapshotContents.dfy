/** What a snapshot says about the server's lists, field by field: which panes and tabs it has,
    in which order, with which layout and directory, and what a create event changes. */
module SnapshotContents {
  import opened Prelude
  import opened Model
  import opened Snapshots
  import opened Assembly

  // ---------------------------------------------------------------- panes

  /** A pane is remembered with its ids and names, in the directory of its foreground process
      if the server gives one, else in its own. */
  lemma PaneSnapMeans(p: RawPane, now: nat)
    ensures
      var s := PaneSnapOf(p, now);
      && s.paneId == p.paneId && s.tabId == p.tabId && s.workspaceId == p.workspaceId
      && s.title == p.title && s.agent == p.agent
      && s.agentSession == p.sessionValue && s.agentSessionKind == p.sessionKind
      && s.foreground.None? && s.updatedAt == now
      && match p.foregroundCwd
         case None => s.cwd == p.cwd
         case Some(cwd) => s.cwd == if cwd == "" then p.cwd else cwd
  {
  }

  /** The first listed pane with this id. */
  predicate IsFirstRaw(panes: seq<RawPane>, k: nat, id: Id) {
    k < |panes| && panes[k].paneId == id && forall j | 0 <= j < k :: panes[j].paneId != id
  }

  lemma {:induction false} FindRawMeans(panes: seq<RawPane>, id: Id) returns (k: nat)
    ensures FindRaw(panes, id).Some? <==> exists p | p in panes :: p.paneId == id
    ensures FindRaw(panes, id).Some? ==> IsFirstRaw(panes, k, id) && panes[k] == FindRaw(panes, id).value
  {
    k := 0;
    if panes != [] && panes[0].paneId != id {
      var j := FindRawMeans(panes[1..], id);
      k := j + 1;
      if FindRaw(panes[1..], id).Some? {
        assert forall i | 0 < i < k :: panes[i] == panes[1..][i - 1];
      }
    }
  }

  function PaneIdsOf(panes: seq<PaneSnap>): seq<Id> {
    seq(|panes|, i requires 0 <= i < |panes| => panes[i].paneId)
  }

  predicate Listed(panes: seq<RawPane>, id: Id) {
    exists p | p in panes :: p.paneId == id
  }

  /** The panes of the leaves are those the server lists, in leaf order, each as listed. */
  lemma {:induction false} LeafPanesMeans(ids: seq<Id>, panes: seq<RawPane>, now: nat)
    ensures PaneIdsOf(LeafPanes(ids, panes, now)) == Filter(ids, (id: Id) => Listed(panes, id))
    ensures forall s | s in LeafPanes(ids, panes, now) ::
              FindRaw(panes, s.paneId).Some? && s == PaneSnapOf(FindRaw(panes, s.paneId).value, now)
  {
    if ids != [] {
      var n := |ids| - 1;
      var k := FindRawMeans(panes, ids[n]);
      LeafPanesMeans(ids[..n], panes, now);
    }
  }

  /** Of the other panes of a tab those stand behind, in list order, whose id is not there yet. */
  predicate IsExtra(acc: seq<PaneSnap>, tab: Id, panes: seq<RawPane>, k: nat)
    requires k < |panes|
  {
    && panes[k].tabId == tab && panes[k].paneId !in PaneIdsOf(acc)
    && forall j | 0 <= j < k && panes[j].tabId == tab :: panes[j].paneId != panes[k].paneId
  }

  function Extras(acc: seq<PaneSnap>, tab: Id, panes: seq<RawPane>, now: nat, k: nat): seq<PaneSnap>
    requires k <= |panes|
  {
    if k == 0 then []
    else Extras(acc, tab, panes, now, k - 1) + if IsExtra(acc, tab, panes, k - 1) then [PaneSnapOf(panes[k - 1], now)] else []
  }

  lemma FoundInIds(panes: seq<PaneSnap>, id: Id)
    ensures FindPaneIn(panes, id).Some? <==> id in PaneIdsOf(panes)
  {
    FindPaneInIff(panes, id);
    if p :| p in panes && p.paneId == id {
      var i :| 0 <= i < |panes| && panes[i] == p;
      assert PaneIdsOf(panes)[i] == id;
    }
    if id in PaneIdsOf(panes) {
      var i :| 0 <= i < |panes| && PaneIdsOf(panes)[i] == id;
      assert panes[i] in panes;
    }
  }

  lemma SomeBefore(panes: seq<RawPane>, k: nat, tab: Id, id: Id)
    requires k <= |panes|
    ensures (exists q | q in panes[..k] :: q.tabId == tab && q.paneId == id)
            <==> exists j | 0 <= j < k :: panes[j].tabId == tab && panes[j].paneId == id
  {
    if j :| 0 <= j < k && panes[j].tabId == tab && panes[j].paneId == id { assert panes[j] in panes[..k]; }
  }

  lemma {:induction false} RestPanesMeans(acc: seq<PaneSnap>, tab: Id, panes: seq<RawPane>, now: nat, k: nat)
    requires k <= |panes|
    ensures RestPanes(acc, tab, panes[..k], now) == acc + Extras(acc, tab, panes, now, k)
  {
    if k == 0 {
      assert panes[..0] == [];
    } else {
      RestPanesMeans(acc, tab, panes, now, k - 1);
      NextExtra(acc, tab, panes, now, k - 1);
    }
  }

  lemma NextExtra(acc: seq<PaneSnap>, tab: Id, panes: seq<RawPane>, now: nat, k: nat)
    requires k < |panes|
    ensures RestPanes(acc, tab, panes[..k + 1], now) ==
            RestPanes(acc, tab, panes[..k], now) + if IsExtra(acc, tab, panes, k) then [PaneSnapOf(panes[k], now)] else []
  {
    var id := panes[k].paneId;
    assert panes[..k + 1][..k] == panes[..k];
    RestPanesKeep(acc, tab, panes[..k], now, id);
    FoundInIds(acc, id);
    SomeBefore(panes, k, tab, id);
  }

  // ---------------------------------------------------------------- tabs

  /** The layout of a tab that was exported is the exported one, with its focused pane;
      otherwise it is one leaf, of the first pane listed in the tab if there is one. */
  lemma RootMeans(tab: Id, panes: seq<RawPane>, layouts: map<Id, RawLayout>) returns (k: nat)
    ensures tab in layouts ==> RootOf(tab, panes, layouts) == layouts[tab].root
    ensures tab !in layouts && (exists p | p in panes :: p.tabId == tab) ==>
              && k < |panes| && panes[k].tabId == tab && (forall j | 0 <= j < k :: panes[j].tabId != tab)
              && var root := RootOf(tab, panes, layouts);
                 root.Leaf? && root.paneId == Some(panes[k].paneId) && root.cwd == Some(panes[k].cwd) && root.title.None?
    ensures tab !in layouts && !(exists p | p in panes :: p.tabId == tab) ==>
              var root := RootOf(tab, panes, layouts);
              root.Leaf? && root.paneId.None? && root.cwd.None?
  {
    k := FirstOfTabMeans(panes, tab);
  }

  lemma {:induction false} FirstOfTabMeans(panes: seq<RawPane>, tab: Id) returns (k: nat)
    ensures FirstOfTab(panes, tab).Some? <==> exists p | p in panes :: p.tabId == tab
    ensures FirstOfTab(panes, tab).Some? ==>
              k < |panes| && panes[k] == FirstOfTab(panes, tab).value && panes[k].tabId == tab
              && forall j | 0 <= j < k :: panes[j].tabId != tab
  {
    k := 0;
    if panes != [] && panes[0].tabId != tab {
      var j := FirstOfTabMeans(panes[1..], tab);
      k := j + 1;
      if FirstOfTab(panes[1..], tab).Some? {
        assert forall i | 0 < i < k :: panes[i] == panes[1..][i - 1];
      }
    }
  }

  /** A tab is remembered with its names, its place, its layout and exactly the panes that its
      leaves or their own tab id put there. */
  lemma TabMeans(t: RawTab, index: nat, panes: seq<RawPane>, layouts: map<Id, RawLayout>, now: nat)
    ensures
      var s := TabOf(t, index, panes, layouts, now);
      var leafPanes := LeafPanes(s.layout.LeafPaneIds(), panes, now);
      && s.tabId == t.tabId && s.workspaceId == t.workspaceId && s.title == t.title
      && s.index == index && s.number == t.number
      && s.layout == RootOf(t.tabId, panes, layouts)
      && s.focusedPaneId == (if t.tabId in layouts then layouts[t.tabId].focusedPaneId else None)
      && s.panes == leafPanes + Extras(leafPanes, t.tabId, panes, now, |panes|)
  {
    var root := RootOf(t.tabId, panes, layouts);
    RestPanesMeans(LeafPanes(root.LeafPaneIds(), panes, now), t.tabId, panes, now, |panes|);
    assert panes[..|panes|] == panes;
  }

  // ---------------------------------------------------------------- workspaces

  /** The tabs of a workspace are the listed ones that name it, in list order. */
  lemma {:induction false} TabsMeans(ws: Id, tabs: seq<RawTab>, panes: seq<RawPane>, layouts: map<Id, RawLayout>, now: nat)
    ensures
      var own, out := Filter(tabs, (t: RawTab) => t.workspaceId == ws), TabsOf(ws, tabs, panes, layouts, now);
      |out| == |own| && forall i | 0 <= i < |own| :: out[i] == TabOf(own[i], i, panes, layouts, now)
  {
    if tabs != [] { TabsMeans(ws, tabs[..|tabs| - 1], panes, layouts, now); }
  }

  /** A snapshot has the listed workspaces, in list order, each with its names, its place, its
      own tabs, and the first directory found in them. */
  lemma WorkspacesMean(
    workspaces: seq<RawWorkspace>, tabs: seq<RawTab>, panes: seq<RawPane>, layouts: map<Id, RawLayout>, now: nat, i: nat)
    requires i < |workspaces|
    ensures
      var w, s := workspaces[i], WorkspacesOf(workspaces, tabs, panes, layouts, now)[i];
      && s.workspaceId == w.workspaceId && s.title == w.title && s.index == i && s.number == w.number
      && s.activeTabId == w.activeTabId
      && s.tabs == TabsOf(w.workspaceId, tabs, panes, layouts, now)
      && s.cwd == TabsFirstCwd(s.tabs)
  {
  }

  /** What a tab offers as the directory of its workspace: that of its first leaf that has one,
      else that of its first pane. */
  function OfferedCwd(t: TabSnap): Option<string> {
    t.layout.FirstLeafCwd().OrElse(if t.panes == [] then None else Some(t.panes[0].cwd))
  }

  /** The first tab that offers a directory decides. */
  lemma {:induction false} FirstCwdMeans(tabs: seq<TabSnap>) returns (k: nat)
    ensures TabsFirstCwd(tabs).None? <==> forall t | t in tabs :: OfferedCwd(t).None?
    ensures TabsFirstCwd(tabs).Some? ==>
              k < |tabs| && OfferedCwd(tabs[k]) == TabsFirstCwd(tabs) && forall j | 0 <= j < k :: OfferedCwd(tabs[j]).None?
  {
    k := 0;
    if tabs != [] && OfferedCwd(tabs[0]).None? {
      var j := FirstCwdMeans(tabs[1..]);
      k := j + 1;
      if TabsFirstCwd(tabs[1..]).Some? {
        assert forall i | 0 < i < k :: tabs[i] == tabs[1..][i - 1];
      }
    }
  }

  /** The first of these leaves that has a directory. */
  function FirstCwdOf(leaves: seq<LayoutNode>): Option<string> {
    if leaves == [] then None
    else (if leaves[0].Leaf? then leaves[0].cwd else None).OrElse(FirstCwdOf(leaves[1..]))
  }

  lemma {:induction false} FirstCwdOfAppend(a: seq<LayoutNode>, b: seq<LayoutNode>)
    ensures FirstCwdOf(a + b) == FirstCwdOf(a).OrElse(FirstCwdOf(b))
  {
    if a == [] {
      assert a + b == b;
    } else {
      FirstCwdOfAppend(a[1..], b);
      assert (a + b)[1..] == a[1..] + b;
    }
  }

  /** And among the leaves of its layout the first that has one. */
  lemma {:induction false} FirstLeafCwdMeans(n: LayoutNode)
    ensures n.FirstLeafCwd() == FirstCwdOf(n.Leaves())
  {
    if n.Leaf? {
      assert [n][1..] == [];
    } else {
      FirstLeafCwdMeans(n.first);
      FirstLeafCwdMeans(n.second);
      FirstCwdOfAppend(n.first.Leaves(), n.second.Leaves());
    }
  }

  // ---------------------------------------------------------------- create events

  /** A pane that the tab has is replaced; another is added behind, and the layout grows by a
      right half unless it names the pane already. */
  lemma MergedTabMeans(t: TabSnap, ps: PaneSnap)
    ensures
      var m := MergeIntoTab(t, ps);
      && m.tabId == t.tabId && m.workspaceId == t.workspaceId && m.title == t.title
      && m.index == t.index && m.number == t.number && m.focusedPaneId == t.focusedPaneId
      && ((exists p | p in t.panes :: p.paneId == ps.paneId) ==>
            && m.layout == t.layout && |m.panes| == |t.panes|
            && (forall i | 0 <= i < |t.panes| :: m.panes[i] == t.panes[i] || m.panes[i] == ps)
            && FindPaneIn(m.panes, ps.paneId) == Some(ps))
      && (!(exists p | p in t.panes :: p.paneId == ps.paneId) ==>
            && m.panes == t.panes + [ps]
            && if ps.paneId in t.layout.LeafPaneIds() then m.layout == t.layout
               else m.layout == Split(Right, 0.5, t.layout, Leaf(Some(ps.paneId), Some(ps.cwd), ps.title, None, None)))
  {
    FindPaneInIff(t.panes, ps.paneId);
    if FindPaneIn(t.panes, ps.paneId).Some? {
      ReplacedPanesMean(t.panes, ps);
      ReplacedPanes(t.panes, ps, ps.paneId);
    }
  }

  lemma {:induction false} ReplacedPanesMean(panes: seq<PaneSnap>, ps: PaneSnap)
    ensures |ReplacePane(panes, ps)| == |panes|
    ensures forall i | 0 <= i < |panes| :: ReplacePane(panes, ps)[i] == panes[i] || ReplacePane(panes, ps)[i] == ps
  {
    if panes != [] && panes[0].paneId != ps.paneId { ReplacedPanesMean(panes[1..], ps); }
  }

  /** The tab or workspace a created pane is the first to name. */
  lemma NewContainersMean(ps: PaneSnap, index: nat)
    ensures
      var ws := MergeIntoWorkspaces([], ps, index);
      && |ws| == 1 && |ws[0].tabs| == 1 && ws[0].tabs[0].panes == [ps]
      && ws[0].workspaceId == ps.workspaceId && ws[0].index == index && ws[0].cwd == Some(ps.cwd)
      && ws[0].title.None? && ws[0].activeTabId == Some(ps.tabId)
      && var t := ws[0].tabs[0];
         && t.tabId == ps.tabId && t.workspaceId == ps.workspaceId && t.index == 0 && t.title.None?
         && t.layout == Leaf(Some(ps.paneId), Some(ps.cwd), None, None, None)
  {
    assert ps.paneId in TabAround(ps, 0).layout.LeafPaneIds();
    assert [] + [ps] == [ps];
  }

  /** A created tab is added behind the tabs of its workspace, with no pane, unless the
      workspace has a tab of that id. */
  lemma CreatedTabMeans(w: WorkspaceSnap, t: RawTab)
    ensures
      var m := WithTab(w, t);
      if exists x | x in w.tabs :: x.tabId == t.tabId then m == w
      else
        && |m.tabs| == |w.tabs| + 1 && m.tabs[..|w.tabs|] == w.tabs && m.(tabs := w.tabs) == w
        && var x := m.tabs[|w.tabs|];
           && x.tabId == t.tabId && x.workspaceId == t.workspaceId && x.title == t.title && x.number == t.number
           && x.index == |w.tabs| && x.panes == [] && x.layout == Leaf(None, None, None, None, None)
  {
    FindTabInIff(w.tabs, t.tabId);
  }

  /** A created workspace is added behind the others, with no tab, unless there is one of
      that id. */
  lemma CreatedWorkspaceMeans(s: Snapshot, w: RawWorkspace)
    ensures
      var m := MergeWorkspace(s, w);
      if exists x | x in s.workspaces :: x.workspaceId == w.workspaceId then m == s
      else
        && m.takenAt == s.takenAt && |m.workspaces| == |s.workspaces| + 1
        && m.workspaces[..|s.workspaces|] == s.workspaces
        && var x := m.workspaces[|s.workspaces|];
           && x.workspaceId == w.workspaceId && x.title == w.title && x.number == w.number
           && x.index == |s.workspaces| && x.activeTabId == w.activeTabId && x.tabs == [] && x.cwd.None?
  {
    FindWorkspaceInIff(s.workspaces, w.workspaceId);
  }

  /** Which workspace a created tab goes to: the first of its id; without one it is dropped. */
  lemma TabGoesToItsWorkspace(s: Snapshot, t: RawTab) returns (i: nat)
    ensures (forall w | w in s.workspaces :: w.workspaceId != t.workspaceId) ==> MergeTab(s, t) == s
    ensures (exists w | w in s.workspaces :: w.workspaceId == t.workspaceId) ==>
              && i < |s.workspaces| && s.workspaces[i].workspaceId == t.workspaceId
              && (forall j | 0 <= j < i :: s.workspaces[j].workspaceId != t.workspaceId)
              && MergeTab(s, t) == s.(workspaces := s.workspaces[i := WithTab(s.workspaces[i], t)])
  {
    var ws := s.workspaces;
    i := 0;
    while i < |ws| && ws[i].workspaceId != t.workspaceId
      invariant i <= |ws| && forall j | 0 <= j < i :: ws[j].workspaceId != t.workspaceId
    {
      i := i + 1;
    }
    AddedAt(ws, t, i);
    if i < |ws| { assert ws[i] in ws; }
  }

  /** A create event changes the current snapshot by its merge and leaves history alone. */
  lemma CreateEventMeans(c: Cache, step: CacheStep)
    requires !IsRefresh(step)
    ensures
      var d := NextCache(c, step);
      && d.previous == c.previous
      && match step
         case PaneCreated(p, now) => InSnapshot(d.current, p.paneId)
         case TabCreated(t) => d.current == MergeTab(c.current, t)
         case WorkspaceCreated(w) => d.current == MergeWorkspace(c.current, w)
         case _ => true
  {
    if step.PaneCreated? { MergesForgetNothing(c, step, step.pane.paneId); }
  }
}
