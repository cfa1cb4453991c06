/** The shadow snapshot: how it is assembled from the server's lists, how create events are
    merged into it, and how a refresh commits a new one while keeping one step of history. */
module Snapshots {
  import opened Prelude
  import opened Model
  import opened Bursts

  datatype RawPane = RawPane(
    paneId: Id, tabId: Id, workspaceId: Id, cwd: string, foregroundCwd: Option<string>,
    title: Option<string>, agent: Option<string>, sessionKind: Option<string>, sessionValue: Option<string>)

  datatype RawTab = RawTab(tabId: Id, workspaceId: Id, number: nat, title: Option<string>)

  datatype RawWorkspace = RawWorkspace(
    workspaceId: Id, number: nat, title: Option<string>, activeTabId: Option<Id>)

  datatype RawLayout = RawLayout(focusedPaneId: Option<Id>, root: LayoutNode)

  function PaneSnapOf(p: RawPane, now: nat): PaneSnap {
    var cwd := if p.foregroundCwd.Some? && p.foregroundCwd.value != "" then p.foregroundCwd.value else p.cwd;
    PaneSnap(p.paneId, p.tabId, p.workspaceId, cwd, p.title, p.agent, p.sessionValue, p.sessionKind, None, now)
  }

  // ---------------------------------------------------------------- create events

  function ReplacePane(panes: seq<PaneSnap>, ps: PaneSnap): seq<PaneSnap> {
    if panes == [] then []
    else if panes[0].paneId == ps.paneId then [ps] + panes[1..]
    else [panes[0]] + ReplacePane(panes[1..], ps)
  }

  function MergeIntoTab(t: TabSnap, ps: PaneSnap): TabSnap {
    if FindPaneIn(t.panes, ps.paneId).Some? then t.(panes := ReplacePane(t.panes, ps))
    else
      var layout :=
        if ps.paneId in t.layout.LeafPaneIds() then t.layout
        else Split(Right, 0.5, t.layout, PaneLeaf(Some(ps.paneId), Some(ps.cwd), ps.title));
      t.(layout := layout, panes := t.panes + [ps])
  }

  function TabAround(ps: PaneSnap, index: nat): TabSnap {
    TabSnap(ps.tabId, ps.workspaceId, None, index, 0, PaneLeaf(Some(ps.paneId), Some(ps.cwd), None), None, [])
  }

  function MergeIntoTabs(tabs: seq<TabSnap>, ps: PaneSnap, index: nat): seq<TabSnap> {
    if tabs == [] then [MergeIntoTab(TabAround(ps, index), ps)]
    else if tabs[0].tabId == ps.tabId then [MergeIntoTab(tabs[0], ps)] + tabs[1..]
    else [tabs[0]] + MergeIntoTabs(tabs[1..], ps, index)
  }

  function MergeIntoWorkspaces(ws: seq<WorkspaceSnap>, ps: PaneSnap, index: nat): seq<WorkspaceSnap> {
    if ws == [] then
      var w := WorkspaceSnap(ps.workspaceId, None, index, 0, Some(ps.cwd), Some(ps.tabId), []);
      [w.(tabs := MergeIntoTabs([], ps, 0))]
    else if ws[0].workspaceId == ps.workspaceId then
      [ws[0].(tabs := MergeIntoTabs(ws[0].tabs, ps, |ws[0].tabs|))] + ws[1..]
    else [ws[0]] + MergeIntoWorkspaces(ws[1..], ps, index)
  }

  /** `merge_pane_created`. */
  function MergePane(snap: Snapshot, p: RawPane, now: nat): Snapshot {
    snap.(workspaces := MergeIntoWorkspaces(snap.workspaces, PaneSnapOf(p, now), |snap.workspaces|))
  }

  function WithTab(w: WorkspaceSnap, t: RawTab): WorkspaceSnap {
    if FindTabIn(w.tabs, t.tabId).Some? then w
    else
      var tab := TabSnap(t.tabId, t.workspaceId, t.title, |w.tabs|, t.number, PaneLeaf(None, None, None), None, []);
      w.(tabs := w.tabs + [tab])
  }

  function AddTab(ws: seq<WorkspaceSnap>, t: RawTab): seq<WorkspaceSnap> {
    if ws == [] then []
    else if ws[0].workspaceId == t.workspaceId then [WithTab(ws[0], t)] + ws[1..]
    else [ws[0]] + AddTab(ws[1..], t)
  }

  /** `merge_tab_created`. */
  function MergeTab(snap: Snapshot, t: RawTab): Snapshot {
    snap.(workspaces := AddTab(snap.workspaces, t))
  }

  /** `merge_workspace_created`. */
  function MergeWorkspace(snap: Snapshot, w: RawWorkspace): Snapshot {
    if FindWorkspaceIn(snap.workspaces, w.workspaceId).Some? then snap
    else
      snap.(workspaces := snap.workspaces +
        [WorkspaceSnap(w.workspaceId, w.title, |snap.workspaces|, w.number, None, w.activeTabId, [])])
  }

  // The same three merges, looking a position up and updating in place.

  lemma {:induction false} MergedAtWorkspace(ws: seq<WorkspaceSnap>, ps: PaneSnap, index: nat, i: nat)
    requires i <= |ws| && forall k | 0 <= k < i :: ws[k].workspaceId != ps.workspaceId
    requires i < |ws| ==> ws[i].workspaceId == ps.workspaceId
    ensures MergeIntoWorkspaces(ws, ps, index) ==
            if i < |ws| then ws[i := ws[i].(tabs := MergeIntoTabs(ws[i].tabs, ps, |ws[i].tabs|))]
            else ws + MergeIntoWorkspaces([], ps, index)
  {
    if i > 0 {
      var m := MergeIntoWorkspaces(ws[1..], ps, index);
      MergedAtWorkspace(ws[1..], ps, index, i - 1);
      assert MergeIntoWorkspaces(ws, ps, index) == [ws[0]] + m;
      assert i < |ws| ==> ws[1..][i - 1] == ws[i];
    } else if ws != [] {
      assert MergeIntoWorkspaces(ws, ps, index)[1..] == ws[1..];
    } else {
      assert ws + MergeIntoWorkspaces([], ps, index) == MergeIntoWorkspaces([], ps, index);
    }
  }

  lemma {:induction false} MergedAtTab(tabs: seq<TabSnap>, ps: PaneSnap, index: nat, j: nat)
    requires j <= |tabs| && forall k | 0 <= k < j :: tabs[k].tabId != ps.tabId
    requires j < |tabs| ==> tabs[j].tabId == ps.tabId
    ensures MergeIntoTabs(tabs, ps, index) ==
            if j < |tabs| then tabs[j := MergeIntoTab(tabs[j], ps)]
            else tabs + [MergeIntoTab(TabAround(ps, index), ps)]
  {
    var merged := MergeIntoTabs(tabs, ps, index);
    if j > 0 {
      MergedAtTab(tabs[1..], ps, index, j - 1);
      assert merged == [tabs[0]] + MergeIntoTabs(tabs[1..], ps, index);
      assert j < |tabs| ==> tabs[1..][j - 1] == tabs[j];
    } else if tabs != [] {
      assert merged == [MergeIntoTab(tabs[0], ps)] + tabs[1..];
    } else {
      assert merged == [MergeIntoTab(TabAround(ps, index), ps)];
      assert tabs + merged == merged;
    }
  }

  lemma {:induction false} ReplacedAt(panes: seq<PaneSnap>, ps: PaneSnap, k: nat)
    requires k <= |panes| && forall m | 0 <= m < k :: panes[m].paneId != ps.paneId
    requires k < |panes| ==> panes[k].paneId == ps.paneId
    ensures FindPaneIn(panes, ps.paneId).Some? <==> k < |panes|
    ensures k < |panes| ==> ReplacePane(panes, ps) == panes[k := ps]
  {
    if k > 0 {
      ReplacedAt(panes[1..], ps, k - 1);
    }
  }

  method MergeTabPane(t: TabSnap, ps: PaneSnap) returns (out: TabSnap)
    ensures out == MergeIntoTab(t, ps)
  {
    var k := 0;
    while k < |t.panes| && t.panes[k].paneId != ps.paneId
      invariant k <= |t.panes| && forall m | 0 <= m < k :: t.panes[m].paneId != ps.paneId
    {
      k := k + 1;
    }
    ReplacedAt(t.panes, ps, k);
    if k < |t.panes| { return t.(panes := t.panes[k := ps]); }
    out := t;
    if ps.paneId !in t.layout.LeafPaneIds() {
      out := out.(layout := Split(Right, 0.5, t.layout, PaneLeaf(Some(ps.paneId), Some(ps.cwd), ps.title)));
    }
    out := out.(panes := out.panes + [ps]);
  }

  method MergeWorkspacePane(w: WorkspaceSnap, ps: PaneSnap) returns (out: WorkspaceSnap)
    ensures out == w.(tabs := MergeIntoTabs(w.tabs, ps, |w.tabs|))
  {
    var tabs := w.tabs;
    var j := 0;
    while j < |tabs| && tabs[j].tabId != ps.tabId
      invariant j <= |tabs| && forall m | 0 <= m < j :: tabs[m].tabId != ps.tabId
    {
      j := j + 1;
    }
    MergedAtTab(tabs, ps, |tabs|, j);
    if j == |tabs| { tabs := tabs + [TabAround(ps, j)]; }
    var tab := MergeTabPane(tabs[j], ps);
    out := w.(tabs := tabs[j := tab]);
  }

  /** `merge_pane_created`, position by position. */
  method MergePaneCreated(snap: Snapshot, p: RawPane, now: nat) returns (out: Snapshot)
    ensures out == MergePane(snap, p, now)
  {
    var ps := PaneSnapOf(p, now);
    var ws := snap.workspaces;
    var i := 0;
    while i < |ws| && ws[i].workspaceId != p.workspaceId
      invariant i <= |ws| && forall m | 0 <= m < i :: ws[m].workspaceId != p.workspaceId
    {
      i := i + 1;
    }
    MergedAtWorkspace(ws, ps, |ws|, i);
    if i == |ws| {
      ws := ws + [WorkspaceSnap(p.workspaceId, None, i, 0, Some(ps.cwd), Some(p.tabId), [])];
    }
    var w := MergeWorkspacePane(ws[i], ps);
    out := snap.(workspaces := ws[i := w]);
  }

  lemma {:induction false} AddedAt(ws: seq<WorkspaceSnap>, t: RawTab, i: nat)
    requires i <= |ws| && forall k | 0 <= k < i :: ws[k].workspaceId != t.workspaceId
    requires i < |ws| ==> ws[i].workspaceId == t.workspaceId
    ensures AddTab(ws, t) == if i < |ws| then ws[i := WithTab(ws[i], t)] else ws
  {
    if i > 0 {
      AddedAt(ws[1..], t, i - 1);
      assert AddTab(ws, t) == [ws[0]] + AddTab(ws[1..], t);
      assert i < |ws| ==> ws[1..][i - 1] == ws[i];
    } else if ws != [] {
      assert AddTab(ws, t)[1..] == ws[1..];
    }
  }

  lemma {:induction false} FindTabInAt(tabs: seq<TabSnap>, id: Id, j: nat)
    requires j <= |tabs| && forall k | 0 <= k < j :: tabs[k].tabId != id
    requires j < |tabs| ==> tabs[j].tabId == id
    ensures FindTabIn(tabs, id).Some? <==> j < |tabs|
  {
    if j > 0 {
      FindTabInAt(tabs[1..], id, j - 1);
    }
  }

  method MergeWorkspaceTab(w: WorkspaceSnap, t: RawTab) returns (out: WorkspaceSnap)
    ensures out == WithTab(w, t)
  {
    var j := 0;
    while j < |w.tabs| && w.tabs[j].tabId != t.tabId
      invariant j <= |w.tabs| && forall m | 0 <= m < j :: w.tabs[m].tabId != t.tabId
    {
      j := j + 1;
    }
    FindTabInAt(w.tabs, t.tabId, j);
    if j < |w.tabs| { return w; }
    var tab := TabSnap(t.tabId, t.workspaceId, t.title, j, t.number, PaneLeaf(None, None, None), None, []);
    out := w.(tabs := w.tabs + [tab]);
  }

  /** `merge_tab_created`, position by position. */
  method MergeTabCreated(snap: Snapshot, t: RawTab) returns (out: Snapshot)
    ensures out == MergeTab(snap, t)
  {
    var ws := snap.workspaces;
    var i := 0;
    while i < |ws| && ws[i].workspaceId != t.workspaceId
      invariant i <= |ws| && forall m | 0 <= m < i :: ws[m].workspaceId != t.workspaceId
    {
      i := i + 1;
    }
    AddedAt(ws, t, i);
    if i == |ws| { return snap; }
    var w := MergeWorkspaceTab(ws[i], t);
    out := snap.(workspaces := ws[i := w]);
  }

  /** `merge_workspace_created`, position by position. */
  method MergeWorkspaceCreated(snap: Snapshot, w: RawWorkspace) returns (out: Snapshot)
    ensures out == MergeWorkspace(snap, w)
  {
    var ws := snap.workspaces;
    var i := 0;
    while i < |ws| && ws[i].workspaceId != w.workspaceId
      invariant i <= |ws| && forall m | 0 <= m < i :: ws[m].workspaceId != w.workspaceId
    {
      i := i + 1;
    }
    FindWorkspaceInIff(ws, w.workspaceId);
    if i < |ws| {
      assert ws[i] in ws;
      return snap;
    }
    out := snap.(workspaces := ws + [WorkspaceSnap(w.workspaceId, w.title, i, w.number, None, w.activeTabId, [])]);
  }

  // ---------------------------------------------------------------- committing a refresh

  predicate InSnapshot(s: Snapshot, pane: Id) {
    FindPane(s.workspaces, pane).Some?
  }

  /** Anything in `before` that `after` no longer has. */
  predicate LostContainers(before: Snapshot, after: Snapshot) {
    && before.workspaces != []
    && (|| (exists w, t, p | w in before.workspaces && t in w.tabs && p in t.panes :: !InSnapshot(after, p.paneId))
        || (exists w | w in before.workspaces :: FindWorkspaceIn(after.workspaces, w.workspaceId).None?))
  }

  /** The two snapshot files. */
  datatype Cache = Cache(current: Snapshot, previous: Snapshot)

  /** The locked end of `refresh`. */
  function Commit(c: Cache, snap: Snapshot): Cache {
    if c.current.takenAt > snap.takenAt then c
    else Cache(snap, if LostContainers(c.current, snap) then c.current else c.previous)
  }

  /** A torn refresh is one whose process dies between the write of the history and the
      write of the new snapshot. */
  datatype CacheStep =
    | Refresh(snap: Snapshot)
    | TornRefresh(snap: Snapshot)
    | PaneCreated(pane: RawPane, now: nat)
    | TabCreated(tab: RawTab)
    | WorkspaceCreated(workspace: RawWorkspace)

  function NextCache(c: Cache, step: CacheStep): Cache {
    match step
    case Refresh(snap) => Commit(c, snap)
    case TornRefresh(snap) => Cache(c.current, Commit(c, snap).previous)
    case PaneCreated(pane, now) => c.(current := MergePane(c.current, pane, now))
    case TabCreated(tab) => c.(current := MergeTab(c.current, tab))
    case WorkspaceCreated(w) => c.(current := MergeWorkspace(c.current, w))
  }

  function RunCache(c: Cache, run: seq<CacheStep>): Cache
    decreases |run|
  {
    if run == [] then c else RunCache(NextCache(c, run[0]), run[1..])
  }

  predicate IsRefresh(step: CacheStep) {
    step.Refresh? || step.TornRefresh?
  }

  function PaneIds(s: Snapshot): set<Id> {
    set w, t, p | w in s.workspaces && t in w.tabs && p in t.panes :: p.paneId
  }

  function WorkspaceIds(s: Snapshot): set<Id> {
    set w | w in s.workspaces :: w.workspaceId
  }

  /** Some pane or some workspace of `before` is missing from `after`. */
  predicate Drops(before: Snapshot, after: Snapshot) {
    !(PaneIds(before) <= PaneIds(after)) || !(WorkspaceIds(before) <= WorkspaceIds(after))
  }

  /** A commit that is accepted and drops something is the only step that writes history. */
  predicate Loses(c: Cache, step: CacheStep) {
    IsRefresh(step) && c.current.takenAt <= step.snap.takenAt && Drops(c.current, step.snap)
  }

  function Losses(c: Cache, run: seq<CacheStep>): nat
    decreases |run|
  {
    if run == [] then 0
    else (if Loses(c, run[0]) then 1 else 0) + Losses(NextCache(c, run[0]), run[1..])
  }

  /** A losing commit that leaves the pane out of the current snapshot. */
  predicate Misses(c: Cache, step: CacheStep, pane: Id) {
    Loses(c, step) && !InSnapshot(NextCache(c, step).current, pane)
  }

  function MissCount(c: Cache, run: seq<CacheStep>, pane: Id): nat
    decreases |run|
  {
    if run == [] then 0
    else (if Misses(c, run[0], pane) then 1 else 0) + MissCount(NextCache(c, run[0]), run[1..], pane)
  }

  /** How long the pane has been gone: 0 while current, 1 in history only, 2 forgotten. */
  function Age(c: Cache, pane: Id): nat {
    if InSnapshot(c.current, pane) then 0 else if InSnapshot(c.previous, pane) then 1 else 2
  }

  /** The number of losing commits since the pane was last current, given their number before. */
  function MissedSince(c: Cache, run: seq<CacheStep>, pane: Id, missed: nat): nat
    decreases |run|
  {
    if run == [] then missed
    else
      var d := NextCache(c, run[0]);
      var now := if InSnapshot(d.current, pane) then 0 else if Loses(c, run[0]) then missed + 1 else missed;
      MissedSince(d, run[1..], pane, now)
  }

  // ---------------------------------------------------------------- merges forget nothing

  lemma ReplacedPanes(panes: seq<PaneSnap>, ps: PaneSnap, pane: Id)
    requires FindPaneIn(panes, ps.paneId).Some?
    ensures FindPaneIn(ReplacePane(panes, ps), pane) ==
            if pane == ps.paneId then Some(ps) else FindPaneIn(panes, pane)
  {
  }

  lemma FindPaneInSnoc(panes: seq<PaneSnap>, ps: PaneSnap, pane: Id)
    ensures FindPaneIn(panes + [ps], pane) ==
            FindPaneIn(panes, pane).OrElse(if ps.paneId == pane then Some(ps) else None)
  {
    if panes != [] {
      assert (panes + [ps])[1..] == panes[1..] + [ps];
    }
  }

  lemma MergedTabPanes(t: TabSnap, ps: PaneSnap, pane: Id)
    ensures FindPaneIn(MergeIntoTab(t, ps).panes, pane) ==
            if pane == ps.paneId then Some(ps) else FindPaneIn(t.panes, pane)
  {
    if FindPaneIn(t.panes, ps.paneId).Some? {
      ReplacedPanes(t.panes, ps, pane);
    } else {
      FindPaneInSnoc(t.panes, ps, pane);
    }
  }

  lemma {:induction false} MergedTabs(w: WorkspaceSnap, tabs: seq<TabSnap>, ps: PaneSnap, index: nat, pane: Id)
    ensures FindPaneInTabs(w, MergeIntoTabs(tabs, ps, index), pane).Some? <==>
            pane == ps.paneId || FindPaneInTabs(w, tabs, pane).Some?
  {
    var merged := MergeIntoTabs(tabs, ps, index);
    if tabs == [] {
      MergedTabPanes(TabAround(ps, index), ps, pane);
      assert merged[1..] == [];
    } else if tabs[0].tabId == ps.tabId {
      MergedTabPanes(tabs[0], ps, pane);
      assert merged[1..] == tabs[1..];
    } else {
      assert merged[1..] == MergeIntoTabs(tabs[1..], ps, index);
      MergedTabs(w, tabs[1..], ps, index, pane);
    }
  }

  lemma TabsOfAnyWorkspace(v: WorkspaceSnap, w: WorkspaceSnap, tabs: seq<TabSnap>, pane: Id)
    ensures FindPaneInTabs(v, tabs, pane).Some? <==> FindPaneInTabs(w, tabs, pane).Some?
  {
  }

  lemma {:induction false} MergedWorkspaces(ws: seq<WorkspaceSnap>, ps: PaneSnap, index: nat, pane: Id)
    ensures FindPane(MergeIntoWorkspaces(ws, ps, index), pane).Some? <==>
            pane == ps.paneId || FindPane(ws, pane).Some?
  {
    var merged := MergeIntoWorkspaces(ws, ps, index);
    if ws == [] {
      assert merged[1..] == [];
      MergedTabs(merged[0], [], ps, 0, pane);
    } else if ws[0].workspaceId == ps.workspaceId {
      assert merged[1..] == ws[1..];
      MergedTabs(merged[0], ws[0].tabs, ps, |ws[0].tabs|, pane);
      TabsOfAnyWorkspace(merged[0], ws[0], ws[0].tabs, pane);
    } else {
      assert merged[1..] == MergeIntoWorkspaces(ws[1..], ps, index);
      MergedWorkspaces(ws[1..], ps, index, pane);
    }
  }

  lemma EmptyTabAddsNoPane(w: WorkspaceSnap, tabs: seq<TabSnap>, t: TabSnap, pane: Id)
    requires t.panes == []
    ensures FindPaneInTabs(w, tabs + [t], pane).Some? <==> FindPaneInTabs(w, tabs, pane).Some?
  {
    if tabs == [] {
      assert ([] + [t])[1..] == [];
    } else {
      assert (tabs + [t])[1..] == tabs[1..] + [t];
      EmptyTabAddsNoPane(w, tabs[1..], t, pane);
    }
  }

  lemma WithTabAddsNoPane(w: WorkspaceSnap, t: RawTab, pane: Id)
    ensures FindPaneInTabs(WithTab(w, t), WithTab(w, t).tabs, pane).Some? <==> FindPaneInTabs(w, w.tabs, pane).Some?
  {
    var added := WithTab(w, t);
    TabsOfAnyWorkspace(added, w, w.tabs, pane);
    if FindTabIn(w.tabs, t.tabId).None? {
      EmptyTabAddsNoPane(added, w.tabs, added.tabs[|w.tabs|], pane);
      assert added.tabs == w.tabs + [added.tabs[|w.tabs|]];
    }
  }

  lemma {:induction false} AddedTab(ws: seq<WorkspaceSnap>, t: RawTab, pane: Id)
    ensures FindPane(AddTab(ws, t), pane).Some? <==> FindPane(ws, pane).Some?
  {
    if ws != [] {
      var added := AddTab(ws, t);
      if ws[0].workspaceId == t.workspaceId {
        assert added[1..] == ws[1..];
        WithTabAddsNoPane(ws[0], t, pane);
      } else {
        assert added[1..] == AddTab(ws[1..], t);
        AddedTab(ws[1..], t, pane);
      }
    }
  }

  lemma {:induction false} EmptyWorkspaceAddsNoPane(ws: seq<WorkspaceSnap>, w: WorkspaceSnap, pane: Id)
    requires w.tabs == []
    ensures FindPane(ws + [w], pane).Some? <==> FindPane(ws, pane).Some?
  {
    if ws == [] {
      assert ([] + [w])[1..] == [];
    } else {
      assert (ws + [w])[1..] == ws[1..] + [w];
      EmptyWorkspaceAddsNoPane(ws[1..], w, pane);
    }
  }

  /** A create event adds the pane it names and removes none. */
  lemma MergesForgetNothing(c: Cache, step: CacheStep, pane: Id)
    requires !IsRefresh(step)
    ensures InSnapshot(NextCache(c, step).current, pane) <==>
            InSnapshot(c.current, pane) || (step.PaneCreated? && step.pane.paneId == pane)
    ensures NextCache(c, step).previous == c.previous
    ensures NextCache(c, step).current.takenAt == c.current.takenAt
  {
    match step {
      case PaneCreated(p, now) =>
        MergedWorkspaces(c.current.workspaces, PaneSnapOf(p, now), |c.current.workspaces|, pane);
      case TabCreated(t) =>
        AddedTab(c.current.workspaces, t, pane);
      case WorkspaceCreated(w) =>
        var added := WorkspaceSnap(w.workspaceId, w.title, |c.current.workspaces|, w.number, None, w.activeTabId, []);
        EmptyWorkspaceAddsNoPane(c.current.workspaces, added, pane);
    }
  }

  // ---------------------------------------------------------------- one step of history

  predicate Remembered(c: Cache, pane: Id) {
    InSnapshot(c.current, pane) || InSnapshot(c.previous, pane)
  }

  lemma PaneIdsFound(s: Snapshot, pane: Id)
    ensures pane in PaneIds(s) <==> InSnapshot(s, pane)
  {
    FindPaneIff(s.workspaces, pane);
    if w :| w in s.workspaces && HasPane(w, pane) {
      var t, p :| t in w.tabs && p in t.panes && p.paneId == pane;
    }
    if pane in PaneIds(s) {
      var w, t, p :| w in s.workspaces && t in w.tabs && p in t.panes && p.paneId == pane;
      assert HasPane(w, pane);
    }
  }

  /** The test of the source finds a loss exactly when an id has gone: neither a changed pane
      nor a new container is one. */
  lemma LostExactlyWhenDropped(before: Snapshot, after: Snapshot)
    ensures LostContainers(before, after) <==> Drops(before, after)
  {
    forall id | id in PaneIds(before) ensures id in PaneIds(after) <==> InSnapshot(after, id) {
      PaneIdsFound(after, id);
    }
    forall w | w in before.workspaces
      ensures FindWorkspaceIn(after.workspaces, w.workspaceId).Some? <==> w.workspaceId in WorkspaceIds(after)
    {
      FindWorkspaceInIff(after.workspaces, w.workspaceId);
    }
    LostPanesAre(before, after);
    LostWorkspacesAre(before, after);
  }

  lemma LostPanesAre(before: Snapshot, after: Snapshot)
    ensures (exists w, t, p | w in before.workspaces && t in w.tabs && p in t.panes :: !InSnapshot(after, p.paneId))
            <==> !(PaneIds(before) <= PaneIds(after))
  {
    if w, t, p :| w in before.workspaces && t in w.tabs && p in t.panes && !InSnapshot(after, p.paneId) {
      PaneIdsFound(after, p.paneId);
      assert p.paneId in PaneIds(before);
    }
    if !(PaneIds(before) <= PaneIds(after)) {
      var id :| id in PaneIds(before) && id !in PaneIds(after);
      PaneIdsFound(after, id);
    }
  }

  lemma LostWorkspacesAre(before: Snapshot, after: Snapshot)
    ensures (exists w | w in before.workspaces :: FindWorkspaceIn(after.workspaces, w.workspaceId).None?)
            <==> !(WorkspaceIds(before) <= WorkspaceIds(after))
  {
    if w :| w in before.workspaces && FindWorkspaceIn(after.workspaces, w.workspaceId).None? {
      FindWorkspaceInIff(after.workspaces, w.workspaceId);
      assert w.workspaceId in WorkspaceIds(before);
    }
    if !(WorkspaceIds(before) <= WorkspaceIds(after)) {
      var id :| id in WorkspaceIds(before) && id !in WorkspaceIds(after);
      FindWorkspaceInIff(after.workspaces, id);
    }
  }

  /** What a refresh does to the two files: a snapshot older than the current one is refused;
      any other becomes current, and the former current becomes history exactly when a pane or
      a workspace of it is missing from the new one. */
  lemma CommitKeepsOrSaves(c: Cache, snap: Snapshot)
    ensures
      var d := Commit(c, snap);
      && (snap.takenAt < c.current.takenAt ==> d == c)
      && (snap.takenAt >= c.current.takenAt ==>
            && d.current == snap
            && (PaneIds(c.current) <= PaneIds(snap) && WorkspaceIds(c.current) <= WorkspaceIds(snap) ==>
                  d.previous == c.previous)
            && (!(PaneIds(c.current) <= PaneIds(snap)) || !(WorkspaceIds(c.current) <= WorkspaceIds(snap)) ==>
                  d.previous == c.current))
  {
    LostExactlyWhenDropped(c.current, snap);
  }

  lemma LostMeansLost(before: Snapshot, after: Snapshot, pane: Id)
    requires InSnapshot(before, pane) && !Drops(before, after)
    ensures InSnapshot(after, pane)
  {
    PaneIdsFound(before, pane);
    PaneIdsFound(after, pane);
  }

  /** What one step does to the memory of a pane: a losing commit moves the current snapshot
      into history, every other step leaves the memory as it is or adds to it. */
  lemma StepMemory(c: Cache, step: CacheStep, pane: Id)
    ensures
      var d := NextCache(c, step);
      && c.current.takenAt <= d.current.takenAt
      && (InSnapshot(c.current, pane) ==> Remembered(d, pane))
      && (!Loses(c, step) && InSnapshot(c.current, pane) ==> InSnapshot(d.current, pane))
      && (!Loses(c, step) ==> d.previous == c.previous)
      && (Loses(c, step) ==>
            (Remembered(d, pane) <==> InSnapshot(c.current, pane) || (step.Refresh? && InSnapshot(step.snap, pane))))
  {
    if IsRefresh(step) {
      LostExactlyWhenDropped(c.current, step.snap);
      if InSnapshot(c.current, pane) && !Drops(c.current, step.snap) {
        LostMeansLost(c.current, step.snap, pane);
      }
    } else {
      MergesForgetNothing(c, step, pane);
    }
  }

  lemma {:induction false} TimeNeverDecreases(c: Cache, run: seq<CacheStep>)
    ensures c.current.takenAt <= RunCache(c, run).current.takenAt
    decreases |run|
  {
    if run != [] {
      StepMemory(c, run[0], "");
      TimeNeverDecreases(NextCache(c, run[0]), run[1..]);
    }
  }

  /** For every run of refreshes, whole or torn, and create events: a pane is remembered
      exactly while at most one losing commit has happened since it was last current. */
  lemma {:induction false} RememberedExactlyWhen(c: Cache, run: seq<CacheStep>, pane: Id, missed: nat)
    requires Age(c, pane) == Min(missed, 2)
    ensures Age(RunCache(c, run), pane) == Min(MissedSince(c, run, pane, missed), 2)
    ensures Remembered(RunCache(c, run), pane) <==> MissedSince(c, run, pane, missed) <= 1
    decreases |run|
  {
    if run != [] {
      var d := NextCache(c, run[0]);
      var now := if InSnapshot(d.current, pane) then 0 else if Loses(c, run[0]) then missed + 1 else missed;
      StepMemory(c, run[0], pane);
      RememberedExactlyWhen(d, run[1..], pane, now);
    }
  }

  /** A pane in the current snapshot survives any such run in which at most one losing commit
      leaves it out of the new snapshot: the one that drops it is the one that saves it. */
  lemma {:induction false} PaneOutlivesOneLoss(c: Cache, run: seq<CacheStep>, pane: Id)
    requires || (InSnapshot(c.current, pane) && MissCount(c, run, pane) <= 1)
             || (Remembered(c, pane) && MissCount(c, run, pane) == 0)
    ensures Remembered(RunCache(c, run), pane)
    decreases |run|
  {
    if run != [] {
      StepMemory(c, run[0], pane);
      PaneOutlivesOneLoss(NextCache(c, run[0]), run[1..], pane);
    }
  }

  lemma {:induction false} NoLossKeepsHistory(c: Cache, run: seq<CacheStep>)
    requires Losses(c, run) == 0
    ensures RunCache(c, run).previous == c.previous
    decreases |run|
  {
    if run != [] {
      StepMemory(c, run[0], "");
      NoLossKeepsHistory(NextCache(c, run[0]), run[1..]);
    }
  }

  /** The history is always what was current just before the last losing commit, so a pane is
      remembered exactly when it is current now or was current then. */
  lemma {:induction false} HistoryIsTheLastLoss(c: Cache, run: seq<CacheStep>) returns (k: nat)
    requires Losses(c, run) > 0
    ensures k < |run| && Loses(RunCache(c, run[..k]), run[k])
    ensures Losses(NextCache(RunCache(c, run[..k]), run[k]), run[k + 1..]) == 0
    ensures RunCache(c, run).previous == RunCache(c, run[..k]).current
    decreases |run|
  {
    var next := NextCache(c, run[0]);
    if Losses(next, run[1..]) > 0 {
      var j := HistoryIsTheLastLoss(next, run[1..]);
      k := j + 1;
      assert run[..k][0] == run[0] && run[..k][1..] == run[1..][..j];
      assert run[1..][j + 1..] == run[k + 1..];
    } else {
      k := 0;
      assert run[..0] == [];
      NoLossKeepsHistory(next, run[1..]);
      LostExactlyWhenDropped(c.current, run[0].snap);
      assert next.previous == c.current;
    }
  }

  /** One step of history is all there is: two losing commits without the pane forget it. */
  lemma SecondLossForgets(c: Cache, first: Snapshot, second: Snapshot, pane: Id)
    requires Loses(c, Refresh(first)) && !InSnapshot(first, pane)
    requires Loses(Commit(c, first), Refresh(second)) && !InSnapshot(second, pane)
    ensures !Remembered(RunCache(c, [Refresh(first), Refresh(second)]), pane)
  {
    var run := [Refresh(first), Refresh(second)];
    LostExactlyWhenDropped(c.current, first);
    LostExactlyWhenDropped(first, second);
    assert run[1..] == [Refresh(second)] && run[1..][1..] == [];
    assert RunCache(c, run) == RunCache(Commit(c, first), [Refresh(second)]);
    assert RunCache(Commit(c, first), [Refresh(second)]) == Commit(Commit(c, first), second);
  }

  // ---------------------------------------------------------------- what a close hook finds

  function Chosen(c: Cache, ev: BurstEvent): Snapshot {
    BestSnapshot([c.current, c.previous], ev)
  }

  /** The hook finds the pane exactly when it is current, or when it is in history and the
      current snapshot does not claim to know the event by its tab. Without a tab id that is
      exactly the cache's memory. */
  lemma HookFindsPane(c: Cache, ev: BurstEvent)
    requires ev.paneId.Some?
    ensures InSnapshot(Chosen(c, ev), ev.paneId.value) <==>
            || InSnapshot(c.current, ev.paneId.value)
            || (InSnapshot(c.previous, ev.paneId.value) && !Knows(c.current, ev))
    ensures ev.tabId.None? ==>
              (InSnapshot(Chosen(c, ev), ev.paneId.value) <==> Remembered(c, ev.paneId.value))
  {
    var snaps := [c.current, c.previous];
    assert snaps[1..] == [c.previous];
    assert BestSnapshot(snaps[1..], ev) == c.previous;
  }

  /** Workspace ids are distinct and every pane names the workspace that holds it. */
  predicate Coherent(s: Snapshot) {
    && DistinctWorkspaces(s.workspaces)
    && forall w | w in s.workspaces :: PanesAgree(w)
  }

  predicate PanesAgree(w: WorkspaceSnap) {
    forall t, p | t in w.tabs && p in t.panes :: p.workspaceId == w.workspaceId
  }

  lemma FindDistinctWorkspace(ws: seq<WorkspaceSnap>, w: WorkspaceSnap)
    requires DistinctWorkspaces(ws) && w in ws
    ensures FindWorkspaceIn(ws, w.workspaceId) == Some(w)
  {
    if ws[0] != w {
      assert w in ws[1..];
      FindDistinctWorkspace(ws[1..], w);
      var k :| 0 <= k < |ws| && ws[k] == w;
    }
  }

  /** Freezing for an event that names a pane of the snapshot keeps the pane's workspace,
      whole, so inference will find the pane there. */
  lemma FrozenHoldsPane(snap: Snapshot, ev: BurstEvent)
    requires Coherent(snap) && ev.paneId.Some? && InSnapshot(snap, ev.paneId.value)
    ensures
      var at := FindPane(snap.workspaces, ev.paneId.value).value;
      && FindWorkspaceIn(FreezeFor(snap, ev), at.ws.workspaceId) == Some(at.ws)
      && FindPane(FreezeFor(snap, ev), ev.paneId.value).Some?
  {
    var pane := ev.paneId.value;
    FindPaneIff(snap.workspaces, pane);
    var at := FindPane(snap.workspaces, pane).value;
    assert PanesAgree(at.ws);
    FindDistinctWorkspace(snap.workspaces, at.ws);
    FreezeFinds(snap, Wanted(snap, ev), at.ws.workspaceId);
    FindWorkspaceInIff(FreezeFor(snap, ev), at.ws.workspaceId);
    FindPaneIff(FreezeFor(snap, ev), pane);
    assert HasPane(at.ws, pane);
  }
}
