/** What the inferred entries mean: which close events become entries, that workspaces do
    not disturb one another, and that an entry holds what its event closed. */
module InferenceLaws {
  import opened Prelude
  import opened Model
  import opened Inference

  // ---------------------------------------------------------------- exactly which events

  /** Does this event of the burst become an entry of its own? Not when its workspace was
      closed whole; in a workspace with an explicit tab close only cached tab closes do. */
  predicate Yields(b: Burst, capture: bool, e: BurstEvent) {
    && Remains(b.frozen, BurstClosed(b), e)
    && if HasTabClose(Group(b.frozen, BurstClosed(b), b.events, WorkspaceOf(b.frozen, e)))
       then CachedTabClose(b.frozen, e)
       else EligiblePane(capture, e)
  }

  lemma {:induction false} GroupSourceCount(b: Burst, capture: bool, w: Id, e: BurstEvent)
    ensures multiset(Sources(b.frozen, capture, Group(b.frozen, BurstClosed(b), b.events, w)))[e] ==
            if WorkspaceOf(b.frozen, e) == w && Yields(b, capture, e) then multiset(b.events)[e] else 0
  {
    var closed := BurstClosed(b);
    var g := Group(b.frozen, closed, b.events, w);
    FilterCounts(b.events, (x: BurstEvent) => InGroup(b.frozen, closed, w, x), e);
    FilterCounts(g, (x: BurstEvent) => CachedTabClose(b.frozen, x), e);
    FilterCounts(g, (x: BurstEvent) => EligiblePane(capture, x), e);
  }

  lemma {:induction false} SourceCount(b: Burst, capture: bool, ws: seq<Id>, e: BurstEvent)
    requires Distinct(ws)
    ensures multiset(SourcesOver(b.frozen, BurstClosed(b), capture, b.events, ws))[e] ==
            if WorkspaceOf(b.frozen, e) in ws && Yields(b, capture, e) then multiset(b.events)[e] else 0
  {
    if ws != [] {
      var w := ws[|ws| - 1];
      assert ws == ws[..|ws| - 1] + [w];
      SourceCount(b, capture, ws[..|ws| - 1], e);
      GroupSourceCount(b, capture, w, e);
    }
  }

  /** The entries after the workspace entry are the drafts of exactly the events that
      yield, each as often as it occurs in the burst: none lost, none doubled, and none
      made from an event inside a workspace that was closed whole. */
  lemma {:induction false} EveryYieldingEventOnce(b: Burst, capture: bool, e: BurstEvent)
    ensures multiset(BurstSources(b, capture))[e] ==
            if Yields(b, capture, e) then multiset(b.events)[e] else 0
  {
    var order := Order(b.frozen, BurstClosed(b), b.events);
    DedupIsDistinct(Owners(b.frozen, Remaining(b.frozen, BurstClosed(b), b.events)));
    SourceCount(b, capture, order, e);
    if e in b.events && Yields(b, capture, e) {
      var w := WorkspaceOf(b.frozen, e);
      FilterIn(b.events, (x: BurstEvent) => InGroup(b.frozen, BurstClosed(b), w, x));
      assert e in Group(b.frozen, BurstClosed(b), b.events, w);
      GroupNeedsOwner(b.frozen, BurstClosed(b), b.events, w);
    }
  }

  // ---------------------------------------------------------------- whole workspaces

  lemma {:induction false} ClosedSnapIds(frozen: seq<WorkspaceSnap>, closes: seq<BurstEvent>)
    ensures SnapIds(ClosedSnaps(frozen, closes)) == Dedup(ClosedIds(closes))
  {
    if closes != [] {
      var before := closes[..|closes| - 1];
      var last := closes[|closes| - 1];
      ClosedSnapIds(frozen, before);
      assert ClosedIds(closes) == ClosedIds(before) + [ClosedIdOf(last)];
      DedupSnoc(ClosedIds(before), ClosedIdOf(last));
      var snaps, w := ClosedSnaps(frozen, before), ClosedSnap(frozen, last);
      assert SnapIds(snaps + [w]) == SnapIds(snaps) + [w.workspaceId];
      assert w.workspaceId == ClosedIdOf(last);
      assert ClosedSnaps(frozen, closes) == if w.workspaceId in SnapIds(snaps) then snaps else snaps + [w];
    }
  }

  predicate WholeWorkspace(entry: ClosedEntry) {
    entry.granularity.GWorkspace? || entry.granularity.GWorkspaceGroup?
  }

  /** At most one entry restores whole workspaces: the first one, present exactly when some
      workspace was closed, holding exactly the distinct closed workspaces in order. */
  lemma {:induction false} OneWorkspaceEntry(b: Burst, capture: bool, next: nat, protocol: nat)
    ensures
      var out := Inferred(b, capture, next, protocol);
      var ids := Dedup(BurstClosed(b));
      && (ids == [] <==> forall e | e in b.events :: !e.name.WorkspaceClosed?)
      && (forall i | 0 <= i < |out| :: WholeWorkspace(out[i]) <==> i == 0 && ids != [])
      && (ids != [] ==>
          && out != []
          && SnapIds([out[0].workspace] + out[0].group) == ids
          && (out[0].granularity.GWorkspace? <==> |ids| == 1))
  {
    var closes := WorkspaceCloses(b.events);
    FilterIn(b.events, (e: BurstEvent) => e.name.WorkspaceClosed?);
    ClosedSnapIds(b.frozen, closes);
    var snaps := ClosedSnaps(b.frozen, closes);
    assert closes != [] ==> closes[|closes| - 1] in closes;
    DedupIsDistinct(ClosedIds(closes));
    assert closes != [] ==> ClosedIdOf(closes[0]) == ClosedIds(closes)[0];
    OnlyFirstIsWhole(b, capture, protocol);
    if snaps != [] {
      assert [snaps[0]] + snaps[1..] == snaps;
    }
  }

  lemma OnlyFirstIsWhole(b: Burst, capture: bool, protocol: nat)
    ensures
      var drafts := Drafts(b, capture, protocol);
      var first := WorkspaceDrafts(b, protocol);
      && |first| <= 1 && first <= drafts
      && forall i | 0 <= i < |drafts| :: WholeWorkspace(drafts[i]) <==> i < |first|
  {
    var drafts := Drafts(b, capture, protocol);
    var first := WorkspaceDrafts(b, protocol);
    var sources := BurstSources(b, capture);
    forall i | |first| <= i < |drafts| ensures !WholeWorkspace(drafts[i]) {
      var e := sources[i - |first|];
      assert e in sources && drafts[i] == DraftOf(b.frozen, e, protocol);
      SmallDraft(b.frozen, e, protocol);
    }
  }

  lemma SmallDraft(frozen: seq<WorkspaceSnap>, e: BurstEvent, protocol: nat)
    requires Draftable(frozen, e)
    ensures !WholeWorkspace(DraftOf(frozen, e, protocol))
  {
  }

  // ---------------------------------------------------------------- entries hold what was closed

  predicate HoldsPane(entry: ClosedEntry, id: Id) {
    && |entry.workspace.tabs| == 1
    && exists p | p in entry.workspace.tabs[0].panes :: p.paneId == id
  }

  /** A pane entry holds the closed pane; it restores a whole tab exactly when the pane was
      the only one of its cached tab, and otherwise that pane alone with the tab's layout. */
  lemma PaneEntryHoldsPane(frozen: seq<WorkspaceSnap>, e: BurstEvent, protocol: nat)
    requires EligiblePane(true, e)
    ensures
      var d := PaneDraft(frozen, e, protocol);
      var at := FindPane(frozen, e.paneId.value);
      && HoldsPane(d, e.paneId.value)
      && (d.granularity.GTab? <==> at.Some? && |at.value.tab.panes| == 1)
      && (d.granularity.GPane? ==> |d.workspace.tabs[0].panes| == 1)
      && d.closedAt == e.t0 && (d.reason.Exited? <==> e.name.PaneExited?)
      && (at.Some? ==> && d.workspace.workspaceId == at.value.ws.workspaceId
                       && d.workspace.tabs[0].tabId == at.value.tab.tabId
                       && d.workspace.tabs[0].layout == at.value.tab.layout
                       && at.value.pane in d.workspace.tabs[0].panes)
  {
    FindPaneIff(frozen, e.paneId.value);
    var d := PaneDraft(frozen, e, protocol);
    assert d.workspace.tabs[0].panes != [];
    if FindPane(frozen, e.paneId.value).None? {
      assert d.workspace.tabs[0].panes[0].paneId == e.paneId.value;
    }
  }

  /** A tab entry is dated by its close and holds exactly the closed tab, as it was remembered,
      inside its workspace. */
  lemma TabEntryHoldsTab(frozen: seq<WorkspaceSnap>, e: BurstEvent, protocol: nat)
    requires CachedTabClose(frozen, e)
    ensures
      var d := TabDraft(frozen, e, protocol);
      && d.closedAt == e.t0 && d.reason.Closed? && d.events == [e.name] && d.group == []
      && d.granularity.GTab? && |d.workspace.tabs| == 1 && d.workspace.tabs[0].tabId == e.tabId.value
      && exists w | w in frozen :: w.workspaceId == d.workspace.workspaceId && d.workspace.tabs[0] in w.tabs
  {
    FindTabIff(frozen, e.tabId.value);
  }

  /** Every workspace of the whole-workspace entry keeps all its remembered tabs. */
  lemma {:induction false} ClosedSnapsKeepTabs(frozen: seq<WorkspaceSnap>, closes: seq<BurstEvent>)
    ensures forall w | w in ClosedSnaps(frozen, closes) ::
              w.tabs == match FindWorkspaceIn(frozen, w.workspaceId) case Some(f) => f.tabs case None => []
  {
    if closes != [] { ClosedSnapsKeepTabs(frozen, closes[..|closes| - 1]); }
  }

  /** It is dated by the earliest event of the burst. */
  lemma MinT0IsMinimum(events: seq<BurstEvent>)
    requires events != []
    ensures forall e | e in events :: MinT0(events) <= e.t0
    ensures exists e | e in events :: e.t0 == MinT0(events)
  {
    var n := |events| - 1;
    assert events[n] in events;
    if n > 0 {
      MinT0IsMinimum(events[..n]);
      assert forall e | e in events :: e == events[n] || e in events[..n];
      assert forall e | e in events[..n] :: e in events;
    }
  }

  /** Every yielding event has its entry in the output, made from that event alone. */
  lemma YieldingEventHasItsEntry(b: Burst, capture: bool, next: nat, protocol: nat, e: BurstEvent) returns (i: nat)
    requires e in b.events && Yields(b, capture, e)
    ensures Draftable(b.frozen, e)
    ensures
      var out := Inferred(b, capture, next, protocol);
      i < |out| && out[i] == DraftOf(b.frozen, e, protocol).(id := next + i)
  {
    var sources := BurstSources(b, capture);
    assert e in sources by {
      EveryYieldingEventOnce(b, capture, e);
      assert e in multiset(sources);
    }
    i := SourceHasItsEntry(WorkspaceDrafts(b, protocol), b.frozen, sources, next, protocol, e);
  }

  lemma SourceHasItsEntry(first: seq<ClosedEntry>, frozen: seq<WorkspaceSnap>, sources: seq<BurstEvent>,
                          next: nat, protocol: nat, e: BurstEvent) returns (i: nat)
    requires (forall x | x in sources :: Draftable(frozen, x)) && e in sources
    ensures
      var out := Renumber(first + DraftAll(frozen, sources, protocol), next);
      i < |out| && out[i] == DraftOf(frozen, e, protocol).(id := next + i)
  {
    var k :| 0 <= k < |sources| && sources[k] == e;
    i := |first| + k;
    assert (first + DraftAll(frozen, sources, protocol))[i] == DraftOf(frozen, e, protocol);
  }

  /** The entry of every yielding pane close is on the list of inferred entries. */
  lemma YieldingPaneIsUndoable(b: Burst, capture: bool, next: nat, protocol: nat, e: BurstEvent)
    requires e in b.events && Yields(b, capture, e) && e.paneId.Some? && !e.name.TabClosed?
    ensures exists entry | entry in Inferred(b, capture, next, protocol) :: HoldsPane(entry, e.paneId.value)
  {
    var i := YieldingEventHasItsEntry(b, capture, next, protocol, e);
    var entry := Inferred(b, capture, next, protocol)[i];
    PaneEntryHoldsPane(b.frozen, e, protocol);
    assert entry.workspace == PaneDraft(b.frozen, e, protocol).workspace;
    assert HoldsPane(entry, e.paneId.value);
    assert entry in Inferred(b, capture, next, protocol);
  }

  // ---------------------------------------------------------------- independence

  /** The burst that only the events of workspace `w` would have made. */
  function Only(b: Burst, w: Id): Burst {
    b.(events := Group(b.frozen, BurstClosed(b), b.events, w))
  }

  lemma SourcesOverSnoc(b: Burst, capture: bool, ws: seq<Id>, w: Id)
    ensures SourcesOver(b.frozen, BurstClosed(b), capture, b.events, ws + [w]) ==
            SourcesOver(b.frozen, BurstClosed(b), capture, b.events, ws)
            + Sources(b.frozen, capture, Group(b.frozen, BurstClosed(b), b.events, w))
  {
    assert (ws + [w])[..|ws|] == ws;
  }

  lemma Associative<T>(a: seq<T>, b: seq<T>, c: seq<T>)
    ensures a + b + c == a + (b + c)
  {
  }

  lemma AppendOne(b: Burst, capture: bool, xs: seq<Id>, before: seq<Id>, y: Id)
    requires SourcesOver(b.frozen, BurstClosed(b), capture, b.events, xs + before) ==
             SourcesOver(b.frozen, BurstClosed(b), capture, b.events, xs)
             + SourcesOver(b.frozen, BurstClosed(b), capture, b.events, before)
    ensures SourcesOver(b.frozen, BurstClosed(b), capture, b.events, xs + (before + [y])) ==
            SourcesOver(b.frozen, BurstClosed(b), capture, b.events, xs)
            + SourcesOver(b.frozen, BurstClosed(b), capture, b.events, before + [y])
  {
    Associative(xs, before, [y]);
    SourcesOverSnoc(b, capture, xs + before, y);
    SourcesOverSnoc(b, capture, before, y);
    Associative(SourcesOver(b.frozen, BurstClosed(b), capture, b.events, xs),
                SourcesOver(b.frozen, BurstClosed(b), capture, b.events, before),
                Sources(b.frozen, capture, Group(b.frozen, BurstClosed(b), b.events, y)));
  }

  lemma {:induction false} SourcesOverAppend(b: Burst, capture: bool, xs: seq<Id>, ys: seq<Id>)
    ensures SourcesOver(b.frozen, BurstClosed(b), capture, b.events, xs + ys) ==
            SourcesOver(b.frozen, BurstClosed(b), capture, b.events, xs)
            + SourcesOver(b.frozen, BurstClosed(b), capture, b.events, ys)
    decreases |ys|
  {
    if ys == [] {
      assert xs + ys == xs;
    } else {
      var n := |ys| - 1;
      assert ys[..n] + [ys[n]] == ys;
      SourcesOverAppend(b, capture, xs, ys[..n]);
      AppendOne(b, capture, xs, ys[..n], ys[n]);
    }
  }

  lemma {:induction false} SourcesBelong(b: Burst, capture: bool, ws: seq<Id>)
    ensures forall e | e in SourcesOver(b.frozen, BurstClosed(b), capture, b.events, ws) ::
              WorkspaceOf(b.frozen, e) in ws
  {
    if ws != [] {
      var w := ws[|ws| - 1];
      SourcesBelong(b, capture, ws[..|ws| - 1]);
      FilterIn(b.events, (e: BurstEvent) => InGroup(b.frozen, BurstClosed(b), w, e));
    }
  }

  lemma DedupConstant(s: seq<Id>, w: Id)
    requires forall i | 0 <= i < |s| :: s[i] == w
    ensures Dedup(s) == if s == [] then [] else [w]
  {
    if |s| > 1 {
      DedupConstant(s[..|s| - 1], w);
    } else if |s| == 1 {
      assert s[..0] == [] && Dedup(s[..0]) == [];
      assert [] + [w] == [w];
    }
  }

  /** Regrouping the events of one group gives that group back, as the only one. */
  lemma Regroup(b: Burst, w: Id)
    requires !Covered(BurstClosed(b), w)
    ensures
      var g := Group(b.frozen, BurstClosed(b), b.events, w);
      && WorkspaceCloses(g) == []
      && Group(b.frozen, [], g, w) == g
      && Order(b.frozen, [], g) == if g == [] then [] else [w]
  {
    var closed := BurstClosed(b);
    var g := Group(b.frozen, closed, b.events, w);
    FilterIn(b.events, (e: BurstEvent) => InGroup(b.frozen, closed, w, e));
    FilterNone(g, (e: BurstEvent) => e.name.WorkspaceClosed?);
    FilterAll(g, (e: BurstEvent) => Remains(b.frozen, [], e));
    FilterAll(g, (e: BurstEvent) => InGroup(b.frozen, [], w, e));
    assert forall i | 0 <= i < |g| :: g[i] in g;
    DedupConstant(Owners(b.frozen, g), w);
  }

  lemma SourcesOverOne(
    frozen: seq<WorkspaceSnap>, closed: seq<Id>, capture: bool, events: seq<BurstEvent>, w: Id)
    ensures SourcesOver(frozen, closed, capture, events, [w]) ==
            Sources(frozen, capture, Group(frozen, closed, events, w))
  {
    assert [w][..0] == [];
    assert SourcesOver(frozen, closed, capture, events, [w]) ==
           [] + Sources(frozen, capture, Group(frozen, closed, events, w));
  }

  lemma OnlyIsItsGroup(b: Burst, capture: bool, protocol: nat, w: Id)
    requires !Covered(BurstClosed(b), w)
    ensures
      var g := Group(b.frozen, BurstClosed(b), b.events, w);
      Drafts(Only(b, w), capture, protocol) == DraftAll(b.frozen, Sources(b.frozen, capture, g), protocol)
  {
    var g := Group(b.frozen, BurstClosed(b), b.events, w);
    Regroup(b, w);
    assert BurstClosed(Only(b, w)) == [];
    SourcesOverOne(b.frozen, [], capture, g, w);
    assert BurstSources(Only(b, w), capture) == Sources(b.frozen, capture, g);
    assert WorkspaceDrafts(Only(b, w), protocol) == [];
  }

  lemma SplitAt(order: seq<Id>, w: Id) returns (left: seq<Id>, right: seq<Id>)
    requires Distinct(order) && w in order
    ensures order == left + ([w] + right) && w !in left && w !in right
  {
    var k := IndexOf(order, w).value;
    left, right := order[..k], order[k + 1..];
  }

  lemma {:induction false} SourcesSplit(b: Burst, capture: bool, w: Id)
    returns (before: seq<BurstEvent>, after: seq<BurstEvent>)
    ensures forall e | e in before || e in after :: Draftable(b.frozen, e) && WorkspaceOf(b.frozen, e) != w
    ensures BurstSources(b, capture) ==
            before + Sources(b.frozen, capture, Group(b.frozen, BurstClosed(b), b.events, w)) + after
  {
    var closed := BurstClosed(b);
    var order := Order(b.frozen, closed, b.events);
    GroupNeedsOwner(b.frozen, closed, b.events, w);
    DedupIsDistinct(Owners(b.frozen, Remaining(b.frozen, closed, b.events)));
    if w !in order {
      before, after := BurstSources(b, capture), [];
      SourcesBelong(b, capture, order);
      assert Sources(b.frozen, capture, []) == [];
    } else {
      var left, right := SplitAt(order, w);
      before := SourcesOver(b.frozen, closed, capture, b.events, left);
      after := SourcesOver(b.frozen, closed, capture, b.events, right);
      SourcesBelong(b, capture, left);
      SourcesBelong(b, capture, right);
      SourcesOverAppend(b, capture, left, [w] + right);
      SourcesOverAppend(b, capture, [w], right);
      SourcesOverOne(b.frozen, closed, capture, b.events, w);
    }
  }

  /** The entries of one workspace stand together and are exactly those its own events
      would have given alone; everything around them comes from other workspaces. Adding
      or removing events of other workspaces therefore changes nothing but the ids. */
  lemma {:induction false} WorkspacesAreIndependent(b: Burst, capture: bool, protocol: nat, w: Id)
    returns (before: seq<BurstEvent>, after: seq<BurstEvent>)
    requires !Covered(BurstClosed(b), w)
    ensures forall e | e in before || e in after :: Draftable(b.frozen, e) && WorkspaceOf(b.frozen, e) != w
    ensures Drafts(b, capture, protocol) ==
            WorkspaceDrafts(b, protocol) + DraftAll(b.frozen, before, protocol)
            + Drafts(Only(b, w), capture, protocol) + DraftAll(b.frozen, after, protocol)
  {
    before, after := SourcesSplit(b, capture, w);
    OnlyIsItsGroup(b, capture, protocol, w);
    var here := Sources(b.frozen, capture, Group(b.frozen, BurstClosed(b), b.events, w));
    DraftAllAppend(b.frozen, before, here, protocol);
    DraftAllAppend(b.frozen, before + here, after, protocol);
  }
}
