/** The plugin's data model: the layout tree, the shadow snapshot, the pending burst and
    the undo stack. Display-only fields are left out; the field the plugin calls `label` is `title` here. */
module Model {
  import opened Prelude

  type Id = string

  // ---------------------------------------------------------------- layout tree

  datatype SplitDir = Right | Down

  datatype LayoutNode =
    | Leaf(paneId: Option<Id>, cwd: Option<string>, title: Option<string>,
           command: Option<seq<string>>, env: Option<map<string, string>>)
    | Split(direction: SplitDir, ratio: real, first: LayoutNode, second: LayoutNode)
  {
    /** Depth-first leaf order: the order in which `layout.apply` fills pane ids back in. */
    function Leaves(): seq<LayoutNode> {
      if Leaf? then [this] else first.Leaves() + second.Leaves()
    }

    function LeafPaneIds(): seq<Id> {
      if Leaf? then (if paneId.Some? then [paneId.value] else [])
      else first.LeafPaneIds() + second.LeafPaneIds()
    }

    function FirstLeafCwd(): Option<string> {
      if Leaf? then cwd else first.FirstLeafCwd().OrElse(second.FirstLeafCwd())
    }
  }

  function PaneLeaf(paneId: Option<Id>, cwd: Option<string>, title: Option<string>): LayoutNode {
    Leaf(paneId, cwd, title, None, None)
  }

  // ---------------------------------------------------------------- snapshot

  datatype ForegroundCmd = ForegroundCmd(argv: seq<string>, cwd: string, pid: int, capturedAt: nat)

  datatype PaneSnap = PaneSnap(
    paneId: Id, tabId: Id, workspaceId: Id, cwd: string, title: Option<string>,
    agent: Option<string>, agentSession: Option<string>, agentSessionKind: Option<string>,
    foreground: Option<ForegroundCmd>, updatedAt: nat)

  datatype TabSnap = TabSnap(
    tabId: Id, workspaceId: Id, title: Option<string>, index: nat, number: nat,
    layout: LayoutNode, focusedPaneId: Option<Id>, panes: seq<PaneSnap>)

  datatype WorkspaceSnap = WorkspaceSnap(
    workspaceId: Id, title: Option<string>, index: nat, number: nat,
    cwd: Option<string>, activeTabId: Option<Id>, tabs: seq<TabSnap>)
  {
    function FirstCwd(): Option<string> {
      cwd.OrElse(TabsFirstCwd(tabs))
    }
  }

  function TabsFirstCwd(tabs: seq<TabSnap>): Option<string> {
    if tabs == [] then None
    else
      var t := tabs[0];
      t.layout.FirstLeafCwd()
        .OrElse(if t.panes == [] then None else Some(t.panes[0].cwd))
        .OrElse(TabsFirstCwd(tabs[1..]))
  }

  datatype Snapshot = Snapshot(takenAt: nat, workspaces: seq<WorkspaceSnap>)

  const EmptySnapshot := Snapshot(0, [])

  function FindPaneIn(panes: seq<PaneSnap>, id: Id): Option<PaneSnap> {
    if panes == [] then None
    else if panes[0].paneId == id then Some(panes[0])
    else FindPaneIn(panes[1..], id)
  }

  function FindTabIn(tabs: seq<TabSnap>, id: Id): Option<TabSnap> {
    if tabs == [] then None
    else if tabs[0].tabId == id then Some(tabs[0])
    else FindTabIn(tabs[1..], id)
  }

  function FindWorkspaceIn(ws: seq<WorkspaceSnap>, id: Id): Option<WorkspaceSnap> {
    if ws == [] then None
    else if ws[0].workspaceId == id then Some(ws[0])
    else FindWorkspaceIn(ws[1..], id)
  }

  /** A pane together with the tab and workspace that hold it. */
  datatype PaneAt = PaneAt(ws: WorkspaceSnap, tab: TabSnap, pane: PaneSnap)
  datatype TabAt = TabAt(ws: WorkspaceSnap, tab: TabSnap)

  function FindPaneInTabs(w: WorkspaceSnap, tabs: seq<TabSnap>, id: Id): Option<PaneAt> {
    if tabs == [] then None
    else
      var p := FindPaneIn(tabs[0].panes, id);
      if p.Some? then Some(PaneAt(w, tabs[0], p.value))
      else FindPaneInTabs(w, tabs[1..], id)
  }

  /** First workspace, first tab, first pane with this id. */
  function FindPane(ws: seq<WorkspaceSnap>, id: Id): Option<PaneAt> {
    if ws == [] then None
    else FindPaneInTabs(ws[0], ws[0].tabs, id).OrElse(FindPane(ws[1..], id))
  }

  function FindTab(ws: seq<WorkspaceSnap>, id: Id): Option<TabAt> {
    if ws == [] then None
    else
      var t := FindTabIn(ws[0].tabs, id);
      if t.Some? then Some(TabAt(ws[0], t.value)) else FindTab(ws[1..], id)
  }

  predicate HasPane(w: WorkspaceSnap, id: Id) {
    exists t, p | t in w.tabs && p in t.panes :: p.paneId == id
  }

  lemma FindPaneInIff(panes: seq<PaneSnap>, id: Id)
    ensures FindPaneIn(panes, id).Some? <==> exists p | p in panes :: p.paneId == id
    ensures FindPaneIn(panes, id).Some? ==>
              FindPaneIn(panes, id).value in panes && FindPaneIn(panes, id).value.paneId == id
  {
  }

  lemma FindWorkspaceInIff(ws: seq<WorkspaceSnap>, id: Id)
    ensures FindWorkspaceIn(ws, id).Some? <==> exists w | w in ws :: w.workspaceId == id
    ensures FindWorkspaceIn(ws, id).Some? ==>
              FindWorkspaceIn(ws, id).value in ws && FindWorkspaceIn(ws, id).value.workspaceId == id
  {
  }

  lemma FindPaneInTabsIff(w: WorkspaceSnap, tabs: seq<TabSnap>, id: Id)
    ensures FindPaneInTabs(w, tabs, id).Some? <==> exists t, p | t in tabs && p in t.panes :: p.paneId == id
    ensures
      var r := FindPaneInTabs(w, tabs, id);
      r.Some? ==> r.value.ws == w && r.value.tab in tabs
                  && r.value.pane in r.value.tab.panes && r.value.pane.paneId == id
  {
    if tabs != [] {
      FindPaneInIff(tabs[0].panes, id);
      FindPaneInTabsIff(w, tabs[1..], id);
    }
  }

  lemma FindPaneIff(ws: seq<WorkspaceSnap>, id: Id)
    ensures FindPane(ws, id).Some? <==> exists w | w in ws :: HasPane(w, id)
    ensures
      var r := FindPane(ws, id);
      r.Some? ==> r.value.ws in ws && r.value.tab in r.value.ws.tabs
                  && r.value.pane in r.value.tab.panes && r.value.pane.paneId == id
  {
    if ws != [] {
      FindPaneInTabsIff(ws[0], ws[0].tabs, id);
      FindPaneIff(ws[1..], id);
      assert HasPane(ws[0], id) <==> FindPaneInTabs(ws[0], ws[0].tabs, id).Some?;
    }
  }

  predicate HasTab(w: WorkspaceSnap, id: Id) {
    exists t | t in w.tabs :: t.tabId == id
  }

  lemma FindTabInIff(tabs: seq<TabSnap>, id: Id)
    ensures FindTabIn(tabs, id).Some? <==> exists t | t in tabs :: t.tabId == id
    ensures FindTabIn(tabs, id).Some? ==>
              FindTabIn(tabs, id).value in tabs && FindTabIn(tabs, id).value.tabId == id
  {
  }

  lemma FindTabIff(ws: seq<WorkspaceSnap>, id: Id)
    ensures FindTab(ws, id).Some? <==> exists w | w in ws :: HasTab(w, id)
    ensures
      var r := FindTab(ws, id);
      r.Some? ==> r.value.ws in ws && r.value.tab in r.value.ws.tabs && r.value.tab.tabId == id
  {
    if ws != [] {
      FindTabInIff(ws[0].tabs, id);
      FindTabIff(ws[1..], id);
      assert HasTab(ws[0], id) <==> FindTabIn(ws[0].tabs, id).Some?;
    }
  }

  // ---------------------------------------------------------------- burst and undo stack

  datatype EventName = PaneClosed | TabClosed | WorkspaceClosed | PaneExited | OtherEvent(name: string)

  predicate IsCloseEvent(name: EventName) {
    !name.OtherEvent?
  }

  datatype BurstEvent = BurstEvent(
    t0: nat, name: EventName, paneId: Option<Id>, tabId: Option<Id>, workspaceId: Option<Id>,
    workspaceLabel: Option<string>, ctxCwd: Option<string>)

  /** These are all the events whose hooks capture something. */
  lemma CloseEventsAre(name: EventName)
    ensures IsCloseEvent(name) <==> name in {PaneClosed, TabClosed, WorkspaceClosed, PaneExited}
  {
  }

  type Token = string

  datatype Burst = Burst(
    firstMs: nat, lastMs: nat, lastToken: Token,
    events: seq<BurstEvent>, frozen: seq<WorkspaceSnap>)

  datatype Granularity = GPane | GTab | GWorkspace | GWorkspaceGroup
  datatype CloseReason = Closed | Exited

  datatype ClosedEntry = ClosedEntry(
    id: nat, closedAt: nat, granularity: Granularity, reason: CloseReason,
    events: seq<EventName>, workspace: WorkspaceSnap, group: seq<WorkspaceSnap>, protocol: nat)

  datatype ClosedStack = ClosedStack(entries: seq<ClosedEntry>, nextId: nat)

  const EmptyStack := ClosedStack([], 0)

  datatype Config = Config(captureExited: bool, entryTtlHours: nat)

  const BURST_WINDOW_MS: nat := 250
  const BURST_STALE_MS: nat := 5_000
  const SELF_CREATED_TTL_MS: nat := 5_000
  const STACK_CAP: nat := 20
  const EXPECTED_PROTOCOL: nat := 22
}
