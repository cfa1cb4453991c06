/** How many undo entries one burst makes, and when it is exactly one. */
module EntryCounts {
  import opened Prelude
  import opened Model
  import opened Inference
  import opened InferenceLaws

  function Yielding(b: Burst, capture: bool): seq<BurstEvent> {
    Filter(b.events, (e: BurstEvent) => Yields(b, capture, e))
  }

  lemma SourcesAreYielding(b: Burst, capture: bool)
    ensures multiset(BurstSources(b, capture)) == multiset(Yielding(b, capture))
  {
    forall e: BurstEvent
      ensures multiset(BurstSources(b, capture))[e] == multiset(Yielding(b, capture))[e]
    {
      EveryYieldingEventOnce(b, capture, e);
      FilterCounts(b.events, (x: BurstEvent) => Yields(b, capture, x), e);
    }
  }

  /** One entry for all closed workspaces together and one for every yielding event. So a
      burst makes exactly one entry when it closes workspaces and nothing else yields, or
      closes none and exactly one event yields. */
  lemma EntryCount(b: Burst, capture: bool, next: nat, protocol: nat)
    ensures
      var out, yielding := Inferred(b, capture, next, protocol), Yielding(b, capture);
      && |out| == (if BurstClosed(b) == [] then 0 else 1) + |yielding|
      && (|out| == 1 <==> (BurstClosed(b) == [] && |yielding| == 1) || (BurstClosed(b) != [] && yielding == []))
  {
    SourcesAreYielding(b, capture);
    SameSize(BurstSources(b, capture), Yielding(b, capture));
    var closes := WorkspaceCloses(b.events);
    ClosedSnapIds(b.frozen, closes);
    DedupIsDistinct(ClosedIds(closes));
    assert closes != [] ==> ClosedIds(closes)[0] in Dedup(ClosedIds(closes));
  }

  lemma SameSize<T>(a: seq<T>, b: seq<T>)
    requires multiset(a) == multiset(b)
    ensures |a| == |b|
  {
    assert |multiset(a)| == |a| && |multiset(b)| == |b|;
  }

  lemma NothingClosed(b: Burst)
    requires forall e | e in b.events :: !e.name.WorkspaceClosed?
    ensures BurstClosed(b) == []
  {
    FilterNone(b.events, (e: BurstEvent) => e.name.WorkspaceClosed?);
  }

  lemma TwoFiltered<T>(x: T, y: T, p: T -> bool)
    ensures Filter([x, y], p) == (if p(x) then [x] else []) + (if p(y) then [y] else [])
  {
    assert [x, y] == [x] + [y] && [x] == [] + [x];
    FilterSnoc([x], y, p);
    FilterSnoc([], x, p);
  }

  lemma OneFiltered<T>(x: T, p: T -> bool)
    ensures Filter([x], p) == if p(x) then [x] else []
  {
    assert [x] == [] + [x];
    FilterSnoc([], x, p);
  }

  lemma GroupIn(b: Burst, w: Id, e: BurstEvent)
    ensures e in Group(b.frozen, BurstClosed(b), b.events, w) <==>
            e in b.events && InGroup(b.frozen, BurstClosed(b), w, e)
  {
    FilterIn(b.events, (x: BurstEvent) => InGroup(b.frozen, BurstClosed(b), w, x));
  }

  /** Two panes of one workspace closed in one burst make two entries. */
  lemma TwoPanesMakeTwoEntries(b: Burst, x: BurstEvent, y: BurstEvent, capture: bool, next: nat, protocol: nat)
    requires b.events == [x, y] && x.name.PaneClosed? && y.name.PaneClosed?
    requires x.paneId.Some? && y.paneId.Some? && x.workspaceId.Some? && y.workspaceId == x.workspaceId
    ensures |Inferred(b, capture, next, protocol)| == 2
  {
    NothingClosed(b);
    PlainPaneYields(b, capture, x);
    PlainPaneYields(b, capture, y);
    TwoFiltered(x, y, (e: BurstEvent) => Yields(b, capture, e));
    EntryCount(b, capture, next, protocol);
  }

  lemma PlainPaneYields(b: Burst, capture: bool, x: BurstEvent)
    requires (forall e | e in b.events :: e.name.PaneClosed?) && x in b.events && x.paneId.Some?
    ensures Yields(b, capture, x)
  {
    NothingClosed(b);
    forall e ensures e in Group(b.frozen, BurstClosed(b), b.events, WorkspaceOf(b.frozen, x)) ==> e.name.PaneClosed? {
      GroupIn(b, WorkspaceOf(b.frozen, x), e);
    }
  }

  /** A tab that no snapshot remembers makes no entry. */
  lemma UncachedTabCloseMakesNone(b: Burst, x: BurstEvent, capture: bool, next: nat, protocol: nat)
    requires b.events == [x] && x.name.TabClosed? && !CachedTabClose(b.frozen, x)
    ensures Inferred(b, capture, next, protocol) == []
  {
    NothingClosed(b);
    assert x in b.events;
    GroupIn(b, WorkspaceOf(b.frozen, x), x);
    OneFiltered(x, (e: BurstEvent) => Yields(b, capture, e));
    EntryCount(b, capture, next, protocol);
  }

  /** A tab close and, in the same burst, the close of a pane of the same workspace that sat
      in another tab: the tab is the only entry, and the pane is in none. */
  lemma TabCloseHidesPaneElsewhere(
    b: Burst, tab: BurstEvent, pane: BurstEvent, capture: bool, next: nat, protocol: nat)
    requires b.events == [tab, pane] && CachedTabClose(b.frozen, tab)
    requires pane.name.PaneClosed? && pane.paneId.Some?
    requires tab.workspaceId.Some? && pane.workspaceId == tab.workspaceId
    requires FindPaneIn(FindTab(b.frozen, tab.tabId.value).value.tab.panes, pane.paneId.value).None?
    ensures
      var out := Inferred(b, capture, next, protocol);
      && |out| == 1 && out[0] == TabDraft(b.frozen, tab, protocol).(id := next)
      && !HoldsPane(out[0], pane.paneId.value)
  {
    NothingClosed(b);
    assert tab in b.events && pane in b.events;
    var w := tab.workspaceId.value;
    GroupIn(b, w, tab);
    assert HasTabClose(Group(b.frozen, BurstClosed(b), b.events, w));
    assert Yields(b, capture, tab) && !Yields(b, capture, pane);
    TwoFiltered(tab, pane, (e: BurstEvent) => Yields(b, capture, e));
    EntryCount(b, capture, next, protocol);
    var i := YieldingEventHasItsEntry(b, capture, next, protocol, tab);
    FindPaneInIff(TabDraft(b.frozen, tab, protocol).workspace.tabs[0].panes, pane.paneId.value);
  }
}
