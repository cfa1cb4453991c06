/** Reopening the missing tabs of a workspace that is still open: one after the other, each
    moved to the index the snapshot stored for it. A reopened tab is named after the
    remembered tab it stands for. */
module MissingTabs {
  import opened Model
  import opened TabIndices
  import opened TabOrder

  function TabIds(tabs: seq<TabSnap>): seq<Id> {
    seq(|tabs|, i requires 0 <= i < |tabs| => tabs[i].tabId)
  }

  function Indices(tabs: seq<TabSnap>): seq<nat> {
    seq(|tabs|, i requires 0 <= i < |tabs| => tabs[i].index)
  }

  /** The loop of `restore_workspace` over the tabs of a live workspace. */
  method RestoreMissing(w: WorkspaceSnap, live: seq<Id>, put: Put<Id>) returns (tabs: seq<Id>)
    ensures tabs == Restored(TabIds(w.tabs), Indices(w.tabs), live, put, |w.tabs|)
  {
    tabs := live;
    for i := 0 to |w.tabs|
      invariant tabs == Restored(TabIds(w.tabs), Indices(w.tabs), live, put, i)
    {
      var t := w.tabs[i];
      if t.tabId !in live {
        tabs := put(tabs, t.tabId, MoveIndex(t.index, |live|));
      }
    }
  }

  /** With the survivors open in remembered order: the missing tabs of a live workspace come
      back in remembered order exactly when none of them stored an index more than one beyond
      the number of tabs that were still open, under either index convention of the server. */
  lemma MissingTabsInOrderExactlyWhen(w: WorkspaceSnap, live: seq<Id>, countsMoved: bool)
    requires WellTabbed(w.tabs) && live == Survivors(TabIds(w.tabs), live, 0)
    ensures Restored(TabIds(w.tabs), Indices(w.tabs), live, ServerPut(countsMoved), |w.tabs|) == TabIds(w.tabs)
            <==> forall t | t in w.tabs :: t.tabId in live || t.index <= |live| + 1
  {
    var ids := TabIds(w.tabs);
    StoredIsPosition(ids, Indices(w.tabs), live, ServerPut(countsMoved), |w.tabs|);
    ServerInserts<Id>(countsMoved);
    InOrderExactlyWhen(ids, live, ServerPut(countsMoved));
    ReachByIndex(w.tabs, live);
  }

  lemma ReachByIndex(tabs: seq<TabSnap>, live: seq<Id>)
    requires WellTabbed(tabs)
    ensures AllReach(TabIds(tabs), live, |tabs|) <==>
            forall t | t in tabs :: t.tabId in live || t.index <= |live| + 1
  {
    var ids := TabIds(tabs);
    assert forall i | 0 <= i < |tabs| :: ids[i] == tabs[i].tabId && tabs[i].index == i && tabs[i] in tabs;
  }

  /** Of four tabs only the first is open: the last two come back in the wrong order. */
  lemma ThreeMissingAreMisplaced(tabs: seq<TabSnap>, countsMoved: bool)
    requires |tabs| == 4 && WellTabbed(tabs)
    ensures
      var r := TabIds(tabs);
      Restored(r, Indices(tabs), [r[0]], ServerPut(countsMoved), |tabs|) == [r[0], r[1], r[3], r[2]]
  {
    StoredIsPosition(TabIds(tabs), Indices(tabs), [tabs[0].tabId], ServerPut(countsMoved), |tabs|);
    ServerInserts<Id>(countsMoved);
    ThreeMissing(TabIds(tabs), ServerPut(countsMoved));
  }
}
