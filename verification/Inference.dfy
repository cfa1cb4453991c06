/** Granularity inference: one finalised burst becomes undo-stack entries. The loops of
    `infer_entries` are proved against a partition of the burst by workspace, and the
    partition is then proved to lose, double and mix up nothing. */
module Inference {
  import opened Prelude
  import opened Model

  // ---------------------------------------------------------------- drafts

  // A draft is an entry whose id has not been allocated yet; ids are given out
  // consecutively by Renumber.

  function WorkspaceOf(frozen: seq<WorkspaceSnap>, e: BurstEvent): Id {
    if e.workspaceId.Some? then e.workspaceId.value
    else
      var p := if e.paneId.Some? then FindPane(frozen, e.paneId.value) else None;
      if p.Some? then p.value.ws.workspaceId
      else
        var t := if e.tabId.Some? then FindTab(frozen, e.tabId.value) else None;
        if t.Some? then t.value.ws.workspaceId else ""
  }

  predicate CachedTabClose(frozen: seq<WorkspaceSnap>, e: BurstEvent) {
    e.name.TabClosed? && e.tabId.Some? && FindTab(frozen, e.tabId.value).Some?
  }

  predicate EligiblePane(capture: bool, e: BurstEvent) {
    (e.name.PaneClosed? || (e.name.PaneExited? && capture)) && e.paneId.Some?
  }

  predicate Draftable(frozen: seq<WorkspaceSnap>, e: BurstEvent) {
    CachedTabClose(frozen, e) || EligiblePane(true, e)
  }

  function TabDraft(frozen: seq<WorkspaceSnap>, e: BurstEvent, protocol: nat): ClosedEntry
    requires CachedTabClose(frozen, e)
  {
    var at := FindTab(frozen, e.tabId.value).value;
    ClosedEntry(0, e.t0, GTab, Closed, [e.name], at.ws.(tabs := [at.tab]), [], protocol)
  }

  /** What is known about a pane no snapshot remembers: the event itself. */
  function Hydrated(e: BurstEvent): WorkspaceSnap
    requires e.paneId.Some?
  {
    var cwd := e.ctxCwd.GetOr("~");
    var tabId := e.tabId.GetOr("");
    var wsId := e.workspaceId.GetOr("");
    var pane := PaneSnap(e.paneId.value, tabId, wsId, cwd, None, None, None, None, None, e.t0);
    var tab := TabSnap(tabId, wsId, None, 0, 0, PaneLeaf(e.paneId, Some(cwd), None), None, [pane]);
    WorkspaceSnap(wsId, e.workspaceLabel, 0, 0, Some(cwd), None, [tab])
  }

  /** What a pane close takes with it: the whole tab when the pane was alone in it,
      otherwise the pane, with the tab's layout kept whole for the sibling lookup. */
  function PaneScope(frozen: seq<WorkspaceSnap>, e: BurstEvent): (WorkspaceSnap, Granularity)
    requires e.paneId.Some?
  {
    match FindPane(frozen, e.paneId.value)
    case Some(at) =>
      if |at.tab.panes| == 1 then (at.ws.(tabs := [at.tab]), GTab)
      else (at.ws.(tabs := [at.tab.(panes := [at.pane])]), GPane)
    case None => (Hydrated(e), GPane)
  }

  function PaneDraft(frozen: seq<WorkspaceSnap>, e: BurstEvent, protocol: nat): ClosedEntry
    requires EligiblePane(true, e)
  {
    var (ws, granularity) := PaneScope(frozen, e);
    ClosedEntry(0, e.t0, granularity, if e.name.PaneExited? then Exited else Closed,
                [e.name], ws, [], protocol)
  }

  function DraftOf(frozen: seq<WorkspaceSnap>, e: BurstEvent, protocol: nat): ClosedEntry
    requires Draftable(frozen, e)
  {
    if e.name.TabClosed? then TabDraft(frozen, e, protocol) else PaneDraft(frozen, e, protocol)
  }

  function DraftAll(frozen: seq<WorkspaceSnap>, events: seq<BurstEvent>, protocol: nat): (r: seq<ClosedEntry>)
    requires forall e | e in events :: Draftable(frozen, e)
    ensures |r| == |events|
  {
    seq(|events|, i requires 0 <= i < |events| => DraftOf(frozen, events[i], protocol))
  }

  function Renumber(drafts: seq<ClosedEntry>, next: nat): (r: seq<ClosedEntry>)
    ensures |r| == |drafts|
    ensures forall i | 0 <= i < |r| :: r[i] == drafts[i].(id := next + i)
  {
    seq(|drafts|, i requires 0 <= i < |drafts| => drafts[i].(id := next + i))
  }

  // ---------------------------------------------------------------- whole workspaces

  function ClosedIdOf(e: BurstEvent): Id {
    e.workspaceId.GetOr("")
  }

  function ClosedSnap(frozen: seq<WorkspaceSnap>, e: BurstEvent): (w: WorkspaceSnap)
    ensures w.workspaceId == ClosedIdOf(e)
  {
    FindWorkspaceInIff(frozen, ClosedIdOf(e));
    var w := FindWorkspaceIn(frozen, ClosedIdOf(e))
             .GetOr(WorkspaceSnap(ClosedIdOf(e), None, 0, 0, e.ctxCwd, None, []));
    var w1 := if w.title.None? then w.(title := e.workspaceLabel) else w;
    if w1.cwd.None? then w1.(cwd := w1.FirstCwd().OrElse(e.ctxCwd)) else w1
  }

  function WorkspaceCloses(events: seq<BurstEvent>): seq<BurstEvent> {
    Filter(events, (e: BurstEvent) => e.name.WorkspaceClosed?)
  }

  function ClosedIds(closes: seq<BurstEvent>): seq<Id> {
    seq(|closes|, i requires 0 <= i < |closes| => ClosedIdOf(closes[i]))
  }

  function SnapIds(snaps: seq<WorkspaceSnap>): seq<Id> {
    seq(|snaps|, i requires 0 <= i < |snaps| => snaps[i].workspaceId)
  }

  function ClosedSnaps(frozen: seq<WorkspaceSnap>, closes: seq<BurstEvent>): seq<WorkspaceSnap> {
    if closes == [] then []
    else
      var before := ClosedSnaps(frozen, closes[..|closes| - 1]);
      var w := ClosedSnap(frozen, closes[|closes| - 1]);
      if w.workspaceId in SnapIds(before) then before else before + [w]
  }

  function MinT0(events: seq<BurstEvent>): nat
    requires events != []
  {
    if |events| == 1 then events[0].t0
    else Min(MinT0(events[..|events| - 1]), events[|events| - 1].t0)
  }

  function Names(events: seq<BurstEvent>): seq<EventName> {
    seq(|events|, i requires 0 <= i < |events| => events[i].name)
  }

  function ClosedAt(b: Burst): nat {
    if b.events == [] then b.firstMs else MinT0(b.events)
  }

  function GroupDraft(b: Burst, snaps: seq<WorkspaceSnap>, protocol: nat): ClosedEntry
    requires snaps != []
  {
    ClosedEntry(0, ClosedAt(b), if |snaps| == 1 then GWorkspace else GWorkspaceGroup, Closed,
                Names(b.events), snaps[0], snaps[1..], protocol)
  }

  /** Closing any number of workspaces in one burst is one entry. */
  function WorkspaceDrafts(b: Burst, protocol: nat): seq<ClosedEntry> {
    var snaps := ClosedSnaps(b.frozen, WorkspaceCloses(b.events));
    if snaps == [] then [] else [GroupDraft(b, snaps, protocol)]
  }

  // ---------------------------------------------------------------- the partition

  predicate Covered(closed: seq<Id>, w: Id) {
    w in closed && w != ""
  }

  predicate Remains(frozen: seq<WorkspaceSnap>, closed: seq<Id>, e: BurstEvent) {
    !e.name.WorkspaceClosed? && !Covered(closed, WorkspaceOf(frozen, e))
  }

  predicate InGroup(frozen: seq<WorkspaceSnap>, closed: seq<Id>, w: Id, e: BurstEvent) {
    Remains(frozen, closed, e) && WorkspaceOf(frozen, e) == w
  }

  function Group(frozen: seq<WorkspaceSnap>, closed: seq<Id>, events: seq<BurstEvent>, w: Id): seq<BurstEvent> {
    Filter(events, (e: BurstEvent) => InGroup(frozen, closed, w, e))
  }

  function Remaining(frozen: seq<WorkspaceSnap>, closed: seq<Id>, events: seq<BurstEvent>): seq<BurstEvent> {
    Filter(events, (e: BurstEvent) => Remains(frozen, closed, e))
  }

  function Owners(frozen: seq<WorkspaceSnap>, events: seq<BurstEvent>): seq<Id> {
    seq(|events|, i requires 0 <= i < |events| => WorkspaceOf(frozen, events[i]))
  }

  /** The workspaces of the remaining events, in order of first appearance. */
  function Order(frozen: seq<WorkspaceSnap>, closed: seq<Id>, events: seq<BurstEvent>): seq<Id> {
    Dedup(Owners(frozen, Remaining(frozen, closed, events)))
  }

  predicate HasTabClose(group: seq<BurstEvent>) {
    exists e | e in group :: e.name.TabClosed?
  }

  /** The tab closes of a group that some snapshot remembers. */
  function TabSources(frozen: seq<WorkspaceSnap>, group: seq<BurstEvent>): (r: seq<BurstEvent>)
    ensures forall e | e in r :: e in group && Draftable(frozen, e)
  {
    var tab := (e: BurstEvent) => CachedTabClose(frozen, e);
    FilterIn(group, tab);
    Filter(group, tab)
  }

  /** The pane closes of a group; exits count only when they are captured. */
  function PaneSources(frozen: seq<WorkspaceSnap>, capture: bool, group: seq<BurstEvent>): (r: seq<BurstEvent>)
    ensures forall e | e in r :: e in group && Draftable(frozen, e)
  {
    var pane := (e: BurstEvent) => EligiblePane(capture, e);
    FilterIn(group, pane);
    Filter(group, pane)
  }

  /** The events of one workspace that become entries: its cached tab closes if any tab
      was closed explicitly, otherwise its pane closes. */
  function Sources(frozen: seq<WorkspaceSnap>, capture: bool, group: seq<BurstEvent>): (r: seq<BurstEvent>)
    ensures forall e | e in r :: e in group && Draftable(frozen, e)
  {
    if HasTabClose(group) then TabSources(frozen, group) else PaneSources(frozen, capture, group)
  }

  function SourcesOver(
    frozen: seq<WorkspaceSnap>, closed: seq<Id>, capture: bool, events: seq<BurstEvent>, ws: seq<Id>): (r: seq<BurstEvent>)
    ensures forall e | e in r :: Draftable(frozen, e)
  {
    if ws == [] then []
    else
      SourcesOver(frozen, closed, capture, events, ws[..|ws| - 1])
      + Sources(frozen, capture, Group(frozen, closed, events, ws[|ws| - 1]))
  }

  function BurstClosed(b: Burst): seq<Id> {
    ClosedIds(WorkspaceCloses(b.events))
  }

  function BurstSources(b: Burst, capture: bool): (r: seq<BurstEvent>)
    ensures forall e | e in r :: Draftable(b.frozen, e)
  {
    SourcesOver(b.frozen, BurstClosed(b), capture, b.events, Order(b.frozen, BurstClosed(b), b.events))
  }

  function Drafts(b: Burst, capture: bool, protocol: nat): seq<ClosedEntry> {
    WorkspaceDrafts(b, protocol) + DraftAll(b.frozen, BurstSources(b, capture), protocol)
  }

  /** The reference meaning of `infer_entries`. */
  function Inferred(b: Burst, capture: bool, next: nat, protocol: nat): seq<ClosedEntry> {
    Renumber(Drafts(b, capture, protocol), next)
  }

  // ---------------------------------------------------------------- the loops

  lemma RenumberAppend(a: seq<ClosedEntry>, b: seq<ClosedEntry>, next: nat)
    ensures Renumber(a + b, next) == Renumber(a, next) + Renumber(b, next + |a|)
  {
  }

  lemma DraftAllAppend(frozen: seq<WorkspaceSnap>, a: seq<BurstEvent>, b: seq<BurstEvent>, protocol: nat)
    requires forall e | e in a :: Draftable(frozen, e)
    requires forall e | e in b :: Draftable(frozen, e)
    ensures forall e | e in a + b :: Draftable(frozen, e)
    ensures DraftAll(frozen, a + b, protocol) == DraftAll(frozen, a, protocol) + DraftAll(frozen, b, protocol)
  {
  }

  /** One more source event pushes one more numbered entry. */
  lemma PushOne(frozen: seq<WorkspaceSnap>, a: seq<BurstEvent>, e: BurstEvent, next: nat, protocol: nat)
    requires forall x | x in a :: Draftable(frozen, x)
    requires Draftable(frozen, e)
    ensures forall x | x in a + [e] :: Draftable(frozen, x)
    ensures Renumber(DraftAll(frozen, a + [e], protocol), next) ==
            Renumber(DraftAll(frozen, a, protocol), next) + [DraftOf(frozen, e, protocol).(id := next + |a|)]
  {
    DraftAllAppend(frozen, a, [e], protocol);
    RenumberAppend(DraftAll(frozen, a, protocol), DraftAll(frozen, [e], protocol), next);
  }

  lemma TabSourcesNext(frozen: seq<WorkspaceSnap>, events: seq<BurstEvent>, i: nat)
    requires i < |events|
    ensures TabSources(frozen, events[..i + 1]) ==
            TabSources(frozen, events[..i]) + if CachedTabClose(frozen, events[i]) then [events[i]] else []
  {
    assert events[..i + 1] == events[..i] + [events[i]];
    FilterSnoc(events[..i], events[i], (x: BurstEvent) => CachedTabClose(frozen, x));
  }

  lemma PaneSourcesNext(frozen: seq<WorkspaceSnap>, capture: bool, events: seq<BurstEvent>, i: nat)
    requires i < |events|
    ensures PaneSources(frozen, capture, events[..i + 1]) ==
            PaneSources(frozen, capture, events[..i]) + if EligiblePane(capture, events[i]) then [events[i]] else []
  {
    assert events[..i + 1] == events[..i] + [events[i]];
    FilterSnoc(events[..i], events[i], (x: BurstEvent) => EligiblePane(capture, x));
  }

  /** The loop over explicit tab closes. */
  method InferTabCloses(events: seq<BurstEvent>, frozen: seq<WorkspaceSnap>, next: nat, protocol: nat)
    returns (out: seq<ClosedEntry>)
    ensures out == Renumber(DraftAll(frozen, TabSources(frozen, events), protocol), next)
  {
    out := [];
    var nextId := next;
    assert TabSources(frozen, events[..0]) == [];
    for i := 0 to |events|
      invariant nextId == next + |out|
      invariant out == Renumber(DraftAll(frozen, TabSources(frozen, events[..i]), protocol), next)
    {
      var e := events[i];
      ghost var before := TabSources(frozen, events[..i]);
      TabSourcesNext(frozen, events, i);
      if e.name.TabClosed? && e.tabId.Some? {
        var at := FindTab(frozen, e.tabId.value);
        if at.Some? {
          PushOne(frozen, before, e, next, protocol);
          out := out + [TabDraft(frozen, e, protocol).(id := nextId)];
          nextId := nextId + 1;
        }
      }
    }
    assert events[..|events|] == events;
  }

  /** The loop over pane closes. */
  method InferPaneCloses(events: seq<BurstEvent>, frozen: seq<WorkspaceSnap>, capture: bool, next: nat, protocol: nat)
    returns (out: seq<ClosedEntry>)
    ensures out == Renumber(DraftAll(frozen, PaneSources(frozen, capture, events), protocol), next)
  {
    out := [];
    var nextId := next;
    assert PaneSources(frozen, capture, events[..0]) == [];
    for i := 0 to |events|
      invariant nextId == next + |out|
      invariant out == Renumber(DraftAll(frozen, PaneSources(frozen, capture, events[..i]), protocol), next)
    {
      var e := events[i];
      ghost var before := PaneSources(frozen, capture, events[..i]);
      PaneSourcesNext(frozen, capture, events, i);
      if !e.name.PaneClosed? && !e.name.PaneExited? { continue; }
      if e.name.PaneExited? && !capture { continue; }
      var reason := if e.name.PaneExited? then Exited else Closed;
      if e.paneId.None? { continue; }
      PushOne(frozen, before, e, next, protocol);
      var (ws, granularity) := PaneScope(frozen, e);
      out := out + [ClosedEntry(nextId, e.t0, granularity, reason, [e.name], ws, [], protocol)];
      nextId := nextId + 1;
    }
    assert events[..|events|] == events;
  }

  /** `infer_one_workspace`: an explicit tab close wins over pane closes. */
  method InferOneWorkspace(
    events: seq<BurstEvent>, frozen: seq<WorkspaceSnap>, capture: bool, next: nat, protocol: nat)
    returns (out: seq<ClosedEntry>)
    ensures out == Renumber(DraftAll(frozen, Sources(frozen, capture, events), protocol), next)
  {
    if HasTabClose(events) {
      out := InferTabCloses(events, frozen, next, protocol);
    } else {
      out := InferPaneCloses(events, frozen, capture, next, protocol);
    }
  }

  method InferWorkspaceCloses(b: Burst, protocol: nat, next: nat)
    returns (out: seq<ClosedEntry>, closed: seq<Id>)
    ensures closed == BurstClosed(b)
    ensures out == Renumber(WorkspaceDrafts(b, protocol), next)
  {
    out, closed := [], [];
    var closes := WorkspaceCloses(b.events);
    var snaps: seq<WorkspaceSnap> := [];
    for i := 0 to |closes|
      invariant closed == ClosedIds(closes[..i])
      invariant snaps == ClosedSnaps(b.frozen, closes[..i])
    {
      var e := closes[i];
      assert closes[..i + 1][..i] == closes[..i];
      var id := e.workspaceId.GetOr("");
      closed := closed + [id];
      var w := FindWorkspaceIn(b.frozen, id).GetOr(WorkspaceSnap(id, None, 0, 0, e.ctxCwd, None, []));
      if w.title.None? { w := w.(title := e.workspaceLabel); }
      if w.cwd.None? { w := w.(cwd := w.FirstCwd().OrElse(e.ctxCwd)); }
      if w.workspaceId !in SnapIds(snaps) { snaps := snaps + [w]; }
    }
    assert closes[..|closes|] == closes;
    if snaps != [] {
      var g := if |snaps| == 1 then GWorkspace else GWorkspaceGroup;
      out := [ClosedEntry(next, ClosedAt(b), g, Closed, Names(b.events), snaps[0], snaps[1..], protocol)];
    }
  }

  /** `order` and `groups` are the partition of `events` by workspace. */
  predicate Partitioned(
    frozen: seq<WorkspaceSnap>, closed: seq<Id>, events: seq<BurstEvent>, order: seq<Id>, groups: seq<seq<BurstEvent>>)
  {
    && order == Order(frozen, closed, events)
    && |groups| == |order|
    && forall j | 0 <= j < |order| :: groups[j] == Group(frozen, closed, events, order[j])
  }

  /** The partition loop of `infer_entries`. */
  method PartitionEvents(b: Burst, closed: seq<Id>) returns (order: seq<Id>, groups: seq<seq<BurstEvent>>)
    ensures Partitioned(b.frozen, closed, b.events, order, groups)
  {
    order, groups := [], [];
    for i := 0 to |b.events|
      invariant Partitioned(b.frozen, closed, b.events[..i], order, groups)
    {
      var e := b.events[i];
      var ws := WorkspaceOf(b.frozen, e);
      ghost var next := PartitionStep(b.frozen, closed, b.events[..i], e, order, groups);
      assert b.events[..i + 1] == b.events[..i] + [e];
      if e.name.WorkspaceClosed? { continue; }
      if ws in closed && ws != "" { continue; }
      match IndexOf(order, ws) {
        case Some(k) =>
          groups := groups[k := groups[k] + [e]];
        case None =>
          order := order + [ws];
          groups := groups + [[e]];
      }
    }
    assert b.events[..|b.events|] == b.events;
  }

  function WithEvent(
    frozen: seq<WorkspaceSnap>, closed: seq<Id>, e: BurstEvent, order: seq<Id>, groups: seq<seq<BurstEvent>>)
    : (seq<Id>, seq<seq<BurstEvent>>)
    requires |groups| == |order|
  {
    if !Remains(frozen, closed, e) then (order, groups)
    else
      match IndexOf(order, WorkspaceOf(frozen, e))
      case Some(k) => (order, groups[k := groups[k] + [e]])
      case None => (order + [WorkspaceOf(frozen, e)], groups + [[e]])
  }

  lemma PartitionStep(
    frozen: seq<WorkspaceSnap>, closed: seq<Id>, events: seq<BurstEvent>, e: BurstEvent,
    order: seq<Id>, groups: seq<seq<BurstEvent>>)
    returns (next: (seq<Id>, seq<seq<BurstEvent>>))
    requires Partitioned(frozen, closed, events, order, groups)
    ensures next == WithEvent(frozen, closed, e, order, groups)
    ensures Partitioned(frozen, closed, events + [e], next.0, next.1)
  {
    next := WithEvent(frozen, closed, e, order, groups);
    OrderStep(frozen, closed, events, e);
    DedupIsDistinct(Owners(frozen, Remaining(frozen, closed, events)));
    forall j | 0 <= j < |next.0| ensures next.1[j] == Group(frozen, closed, events + [e], next.0[j]) {
      FilterSnoc(events, e, (x: BurstEvent) => InGroup(frozen, closed, next.0[j], x));
      GroupNeedsOwner(frozen, closed, events, next.0[j]);
    }
  }

  lemma OrderStep(frozen: seq<WorkspaceSnap>, closed: seq<Id>, events: seq<BurstEvent>, e: BurstEvent)
    ensures
      var order := Order(frozen, closed, events);
      Order(frozen, closed, events + [e]) ==
      if Remains(frozen, closed, e) && WorkspaceOf(frozen, e) !in order
      then order + [WorkspaceOf(frozen, e)] else order
  {
    FilterSnoc(events, e, (x: BurstEvent) => Remains(frozen, closed, x));
    var before := Remaining(frozen, closed, events);
    if Remains(frozen, closed, e) {
      assert Owners(frozen, before + [e]) == Owners(frozen, before) + [WorkspaceOf(frozen, e)];
      DedupSnoc(Owners(frozen, before), WorkspaceOf(frozen, e));
    }
  }

  /** A workspace is listed exactly when some remaining event belongs to it. */
  lemma GroupNeedsOwner(frozen: seq<WorkspaceSnap>, closed: seq<Id>, events: seq<BurstEvent>, w: Id)
    ensures w in Order(frozen, closed, events) <==> Group(frozen, closed, events, w) != []
  {
    var left := Remaining(frozen, closed, events);
    var p := (e: BurstEvent) => Remains(frozen, closed, e);
    var q := (e: BurstEvent) => InGroup(frozen, closed, w, e);
    DedupIsDistinct(Owners(frozen, left));
    FilterIn(events, p);
    FilterIn(events, q);
    if w in Order(frozen, closed, events) {
      var i :| 0 <= i < |left| && Owners(frozen, left)[i] == w;
      assert left[i] in left;
    }
    var g := Filter(events, q);
    if g != [] {
      assert g[0] in g;
      var i :| 0 <= i < |left| && left[i] == g[0];
      assert Owners(frozen, left)[i] == w;
    }
  }

  /** One more group appends its own numbered entries. */
  lemma AppendGroup(
    frozen: seq<WorkspaceSnap>, first: seq<ClosedEntry>, done: seq<BurstEvent>, here: seq<BurstEvent>,
    next: nat, protocol: nat)
    requires forall e | e in done :: Draftable(frozen, e)
    requires forall e | e in here :: Draftable(frozen, e)
    ensures forall e | e in done + here :: Draftable(frozen, e)
    ensures Renumber(first + DraftAll(frozen, done + here, protocol), next) ==
            Renumber(first + DraftAll(frozen, done, protocol), next)
            + Renumber(DraftAll(frozen, here, protocol), next + |first| + |done|)
  {
    DraftAllAppend(frozen, done, here, protocol);
    var a, b := DraftAll(frozen, done, protocol), DraftAll(frozen, here, protocol);
    assert first + (a + b) == (first + a) + b;
    RenumberAppend(first + a, b, next);
  }

  /** The entries once the groups of these workspaces are done. */
  function EntriesOver(
    b: Burst, closed: seq<Id>, capture: bool, ws: seq<Id>, next: nat, protocol: nat): seq<ClosedEntry>
  {
    Renumber(WorkspaceDrafts(b, protocol)
             + DraftAll(b.frozen, SourcesOver(b.frozen, closed, capture, b.events, ws), protocol), next)
  }

  lemma NoGroupYet(b: Burst, closed: seq<Id>, capture: bool, order: seq<Id>, next: nat, protocol: nat)
    ensures EntriesOver(b, closed, capture, order[..0], next, protocol) == Renumber(WorkspaceDrafts(b, protocol), next)
  {
    assert WorkspaceDrafts(b, protocol) + [] == WorkspaceDrafts(b, protocol);
  }

  lemma NextGroup(b: Burst, closed: seq<Id>, capture: bool, order: seq<Id>, i: nat, next: nat, protocol: nat)
    requires i < |order|
    ensures
      var before := EntriesOver(b, closed, capture, order[..i], next, protocol);
      var here := Sources(b.frozen, capture, Group(b.frozen, closed, b.events, order[i]));
      EntriesOver(b, closed, capture, order[..i + 1], next, protocol) ==
      before + Renumber(DraftAll(b.frozen, here, protocol), next + |before|)
  {
    assert order[..i + 1][..i] == order[..i];
    AppendGroup(b.frozen, WorkspaceDrafts(b, protocol), SourcesOver(b.frozen, closed, capture, b.events, order[..i]),
                Sources(b.frozen, capture, Group(b.frozen, closed, b.events, order[i])), next, protocol);
  }

  /** `infer_entries`. */
  method InferEntries(b: Burst, capture: bool, next: nat, protocol: nat) returns (out: seq<ClosedEntry>)
    ensures out == Inferred(b, capture, next, protocol)
  {
    var closed;
    out, closed := InferWorkspaceCloses(b, protocol, next);
    var nextId := next + |out|;
    var order, groups := PartitionEvents(b, closed);
    NoGroupYet(b, closed, capture, order, next, protocol);
    for i := 0 to |groups|
      invariant nextId == next + |out|
      invariant out == EntriesOver(b, closed, capture, order[..i], next, protocol)
    {
      var group := groups[i];
      assert group == Group(b.frozen, closed, b.events, order[i]);
      NextGroup(b, closed, capture, order, i, next, protocol);
      var entries := InferOneWorkspace(group, b.frozen, capture, nextId, protocol);
      nextId := nextId + |entries|;
      out := out + entries;
    }
    assert order[..|groups|] == order;
  }
}
