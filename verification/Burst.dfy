/** Coalescing of close events into one global burst: which snapshot an event is frozen
    from, how an event joins, expires or drops the pending burst, and who finalises it. */
module Bursts {
  import opened Prelude
  import opened Model

  // ---------------------------------------------------------------- freezing

  /** Does this snapshot still remember what the event names? */
  predicate Knows(s: Snapshot, ev: BurstEvent) {
    || (ev.paneId.Some? && FindPane(s.workspaces, ev.paneId.value).Some?)
    || (ev.tabId.Some? && FindTab(s.workspaces, ev.tabId.value).Some?)
    || (ev.paneId.None? && ev.tabId.None? && ev.workspaceId.Some?
        && var w := FindWorkspaceIn(s.workspaces, ev.workspaceId.value);
           w.Some? && w.value.tabs != [])
  }

  /** A snapshot knows an event by its pane, or by its tab, or, for an event that names a
      workspace only, by that workspace with some tab left. */
  lemma KnowsMeans(s: Snapshot, ev: BurstEvent)
    ensures Knows(s, ev) <==>
            || (ev.paneId.Some? && exists w | w in s.workspaces :: HasPane(w, ev.paneId.value))
            || (ev.tabId.Some? && exists w | w in s.workspaces :: HasTab(w, ev.tabId.value))
            || (ev.paneId.None? && ev.tabId.None? && ev.workspaceId.Some?
                && match FindWorkspaceIn(s.workspaces, ev.workspaceId.value)
                   case None => false
                   case Some(w) => exists t :: t in w.tabs)
  {
    if ev.paneId.Some? { FindPaneIff(s.workspaces, ev.paneId.value); }
    if ev.tabId.Some? { FindTabIff(s.workspaces, ev.tabId.value); }
    if ev.workspaceId.Some? {
      var w := FindWorkspaceIn(s.workspaces, ev.workspaceId.value);
      assert w.Some? && w.value.tabs != [] ==> w.value.tabs[0] in w.value.tabs;
    }
  }

  function BestSnapshot(snaps: seq<Snapshot>, ev: BurstEvent): (r: Snapshot)
    requires snaps != []
    ensures r in snaps
    ensures Knows(r, ev) <==> exists s | s in snaps :: Knows(s, ev)
    ensures Knows(snaps[0], ev) ==> r == snaps[0]
  {
    if Knows(snaps[0], ev) then snaps[0]
    else if |snaps| == 1 then snaps[0]
    else
      var r := BestSnapshot(snaps[1..], ev);
      if Knows(r, ev) then r else snaps[0]
  }

  function Wanted(snap: Snapshot, ev: BurstEvent): seq<Id> {
    var byWorkspace := if ev.workspaceId.Some? then [ev.workspaceId.value] else [];
    var pane := if ev.paneId.Some? then FindPane(snap.workspaces, ev.paneId.value) else None;
    var byPane := if pane.Some? then [pane.value.pane.workspaceId] else [];
    var tab := if ev.tabId.Some? then FindTab(snap.workspaces, ev.tabId.value) else None;
    var byTab := if tab.Some? then [tab.value.ws.workspaceId] else [];
    byWorkspace + byPane + byTab
  }

  function Freeze(snap: Snapshot, want: seq<Id>): seq<WorkspaceSnap> {
    if want == [] then []
    else
      var id := want[|want| - 1];
      var r := Freeze(snap, want[..|want| - 1]);
      var w := FindWorkspaceIn(snap.workspaces, id);
      if FindWorkspaceIn(r, id).Some? || w.None? then r else r + [w.value]
  }

  function FreezeFor(snap: Snapshot, ev: BurstEvent): seq<WorkspaceSnap> {
    Freeze(snap, Wanted(snap, ev))
  }

  predicate DistinctWorkspaces(ws: seq<WorkspaceSnap>) {
    forall i, j | 0 <= i < j < |ws| :: ws[i].workspaceId != ws[j].workspaceId
  }

  lemma FindInAppend(ws: seq<WorkspaceSnap>, w: WorkspaceSnap, id: Id)
    ensures FindWorkspaceIn(ws + [w], id) ==
            FindWorkspaceIn(ws, id).OrElse(if w.workspaceId == id then Some(w) else None)
  {
    if ws != [] {
      FindInAppend(ws[1..], w, id);
      assert (ws + [w])[1..] == ws[1..] + [w];
    }
  }

  /** Freezing copies exactly the wanted workspaces, verbatim and once each. */
  lemma {:induction false} FreezeFinds(snap: Snapshot, want: seq<Id>, id: Id)
    ensures FindWorkspaceIn(Freeze(snap, want), id) ==
            if id in want then FindWorkspaceIn(snap.workspaces, id) else None
  {
    if want != [] {
      var last := want[|want| - 1];
      var before := want[..|want| - 1];
      assert want == before + [last];
      FreezeFinds(snap, before, id);
      FreezeFinds(snap, before, last);
      var w := FindWorkspaceIn(snap.workspaces, last);
      FindWorkspaceInIff(snap.workspaces, last);
      if w.Some? { FindInAppend(Freeze(snap, before), w.value, id); }
    }
  }

  /** The event names this workspace, or a pane or tab that the snapshot has there. */
  predicate Concerns(snap: Snapshot, ev: BurstEvent, id: Id) {
    || ev.workspaceId == Some(id)
    || (ev.paneId.Some? && var at := FindPane(snap.workspaces, ev.paneId.value);
                           at.Some? && at.value.pane.workspaceId == id)
    || (ev.tabId.Some? && var at := FindTab(snap.workspaces, ev.tabId.value);
                          at.Some? && at.value.ws.workspaceId == id)
  }

  /** Every event freezes the workspace it names, the workspace of its pane and that of its
      tab, verbatim as far as the snapshot has them, and nothing else. */
  lemma FreezeHoldsWhatIsNamed(snap: Snapshot, ev: BurstEvent, id: Id)
    ensures FindWorkspaceIn(FreezeFor(snap, ev), id) ==
            if Concerns(snap, ev, id) then FindWorkspaceIn(snap.workspaces, id) else None
    ensures forall w | w in FreezeFor(snap, ev) :: w in snap.workspaces && Concerns(snap, ev, w.workspaceId)
  {
    var want := Wanted(snap, ev);
    assert forall x :: x in want <==> Concerns(snap, ev, x);
    FreezeFinds(snap, want, id);
    FreezeFrom(snap, want);
    forall w | w in FreezeFor(snap, ev) ensures Concerns(snap, ev, w.workspaceId) {
      FreezeFinds(snap, want, w.workspaceId);
      FindWorkspaceInIff(FreezeFor(snap, ev), w.workspaceId);
    }
  }

  lemma FreezeIsDistinct(snap: Snapshot, want: seq<Id>)
    ensures DistinctWorkspaces(Freeze(snap, want))
  {
    if want != [] {
      var r := Freeze(snap, want[..|want| - 1]);
      FreezeIsDistinct(snap, want[..|want| - 1]);
      FindWorkspaceInIff(r, want[|want| - 1]);
      FindWorkspaceInIff(snap.workspaces, want[|want| - 1]);
      assert forall k | 0 <= k < |r| :: r[k] in r;
    }
  }

  lemma FreezeNext(snap: Snapshot, want: seq<Id>, i: nat)
    requires i < |want|
    ensures
      var r, w := Freeze(snap, want[..i]), FindWorkspaceIn(snap.workspaces, want[i]);
      Freeze(snap, want[..i + 1]) == if FindWorkspaceIn(r, want[i]).Some? || w.None? then r else r + [w.value]
  {
    assert want[..i + 1][..i] == want[..i];
  }

  /** The loop of `freeze_for`. */
  method FreezeLoop(snap: Snapshot, ev: BurstEvent) returns (out: seq<WorkspaceSnap>)
    ensures out == FreezeFor(snap, ev)
  {
    var want := Wanted(snap, ev);
    out := [];
    for i := 0 to |want|
      invariant out == Freeze(snap, want[..i])
    {
      FreezeNext(snap, want, i);
      if FindWorkspaceIn(out, want[i]).None? {
        var w := FindWorkspaceIn(snap.workspaces, want[i]);
        if w.Some? { out := out + [w.value]; }
      }
    }
    assert want[..|want|] == want;
  }

  // ---------------------------------------------------------------- pushing

  /** What becomes of the pending burst when an event with this `t0` arrives. */
  datatype Fate = Expires | GoesStale | Joins

  function FateOf(b: Burst, t0: nat): Fate {
    if SatSub(t0, b.lastMs) > BURST_WINDOW_MS then Expires
    else if SatSub(t0, b.firstMs) > BURST_STALE_MS then GoesStale
    else Joins
  }

  function MergeFrozen(kept: seq<WorkspaceSnap>, add: seq<WorkspaceSnap>): seq<WorkspaceSnap> {
    if add == [] then kept
    else
      var w := add[|add| - 1];
      var r := MergeFrozen(kept, add[..|add| - 1]);
      if FindWorkspaceIn(r, w.workspaceId).Some? then r else r + [w]
  }

  lemma MergeExtends(kept: seq<WorkspaceSnap>, add: seq<WorkspaceSnap>)
    ensures kept <= MergeFrozen(kept, add)
    ensures DistinctWorkspaces(kept) ==> DistinctWorkspaces(MergeFrozen(kept, add))
  {
    if add != [] {
      var r := MergeFrozen(kept, add[..|add| - 1]);
      MergeExtends(kept, add[..|add| - 1]);
      FindWorkspaceInIff(r, add[|add| - 1].workspaceId);
      assert forall k | 0 <= k < |r| :: r[k] in r;
    }
  }

  /** The earliest freeze of a workspace wins. */
  lemma {:induction false} MergeFinds(kept: seq<WorkspaceSnap>, add: seq<WorkspaceSnap>, id: Id)
    ensures FindWorkspaceIn(MergeFrozen(kept, add), id) ==
            FindWorkspaceIn(kept, id).OrElse(FindWorkspaceIn(add, id))
  {
    if add != [] {
      var last := add[|add| - 1];
      var before := add[..|add| - 1];
      assert add == before + [last];
      MergeFinds(kept, before, id);
      MergeFinds(kept, before, last.workspaceId);
      FindInAppend(before, last, id);
      FindInAppend(MergeFrozen(kept, before), last, id);
    }
  }

  function Fresh(t0: nat): Burst {
    Burst(t0, t0, "", [], [])
  }

  function Join(b: Burst, ev: BurstEvent, token: Token, frozen: seq<WorkspaceSnap>): Burst {
    Burst(if b.firstMs == 0 then ev.t0 else b.firstMs, Max(b.lastMs, ev.t0), token,
          b.events + [ev], MergeFrozen(b.frozen, frozen))
  }

  /** The new pending burst, the burst that must be finalised now, and the burst that is
      thrown away with only a log line. */
  datatype PushResult = PushResult(burst: Burst, expired: Option<Burst>, dropped: Option<Burst>)

  function Push(pending: Option<Burst>, ev: BurstEvent, token: Token, frozen: seq<WorkspaceSnap>): PushResult {
    var alone := Join(Fresh(ev.t0), ev, token, frozen);
    match pending
    case None => PushResult(alone, None, None)
    case Some(b) =>
      match FateOf(b, ev.t0)
      case Expires => PushResult(alone, Some(b), None)
      case GoesStale => PushResult(alone, None, Some(b))
      case Joins => PushResult(Join(b, ev, token, frozen), None, None)
  }

  /** `push_event`, statement by statement. */
  method PushEvent(pending: Option<Burst>, ev: BurstEvent, token: Token, frozen: seq<WorkspaceSnap>)
    returns (r: PushResult)
    ensures r == Push(pending, ev, token, frozen)
  {
    var kept: Option<Burst> := None;
    var expired: Option<Burst> := None;
    var dropped: Option<Burst> := None;
    if pending.Some? {
      var b := pending.value;
      if SatSub(ev.t0, b.lastMs) > BURST_WINDOW_MS { expired := Some(b); }
      else if SatSub(ev.t0, b.firstMs) > BURST_STALE_MS { dropped := Some(b); }
      else { kept := Some(b); }
    }
    var burst := kept.GetOr(Burst(ev.t0, ev.t0, "", [], []));
    ghost var base := burst;
    burst := burst.(events := burst.events + [ev]);
    burst := burst.(lastMs := Max(burst.lastMs, ev.t0));
    burst := burst.(lastToken := token);
    if burst.firstMs == 0 { burst := burst.(firstMs := ev.t0); }
    for i := 0 to |frozen|
      invariant burst == Join(base, ev, token, frozen[..i])
    {
      assert frozen[..i + 1][..i] == frozen[..i];
      if FindWorkspaceIn(burst.frozen, frozen[i].workspaceId).None? {
        burst := burst.(frozen := burst.frozen + [frozen[i]]);
      }
    }
    assert frozen[..|frozen|] == frozen;
    r := PushResult(burst, expired, dropped);
  }

  predicate OwnsFinalization(pending: Option<Burst>, token: Token) {
    pending.Some? && pending.value.lastToken == token
  }

  // ---------------------------------------------------------------- the shape of a burst

  function MaxT0(events: seq<BurstEvent>): nat {
    if events == [] then 0 else Max(MaxT0(events[..|events| - 1]), events[|events| - 1].t0)
  }

  lemma MaxT0IsMaximum(events: seq<BurstEvent>)
    ensures forall e | e in events :: e.t0 <= MaxT0(events)
    ensures events != [] ==> exists e | e in events :: e.t0 == MaxT0(events)
  {
    if events != [] {
      var last := events[|events| - 1];
      MaxT0IsMaximum(events[..|events| - 1]);
      assert last in events;
      assert forall e | e in events :: e == last || e in events[..|events| - 1];
    }
  }

  /** The first time stamp that is not zero: a clock that failed reads as 0. */
  function FirstT0(events: seq<BurstEvent>): nat {
    if events == [] then 0
    else
      var before := FirstT0(events[..|events| - 1]);
      if before != 0 then before else events[|events| - 1].t0
  }

  predicate Linked(events: seq<BurstEvent>) {
    forall i | 0 < i < |events| :: events[i].t0 <= MaxT0(events[..i]) + BURST_WINDOW_MS
  }

  /** What every burst the hooks build satisfies, in whatever time order events arrive. */
  predicate BurstShape(b: Burst) {
    && b.events != []
    && b.lastMs == MaxT0(b.events)
    && b.firstMs == FirstT0(b.events)
    && b.firstMs <= b.lastMs <= b.firstMs + BURST_STALE_MS
    && (b.firstMs == 0 ==> b.lastMs == 0)
    && Linked(b.events)
    && DistinctWorkspaces(b.frozen)
    && (forall e | e in b.events :: IsCloseEvent(e.name))
  }

  predicate PendingShape(p: Option<Burst>) {
    p.Some? ==> BurstShape(p.value)
  }

  lemma LinkedSnoc(events: seq<BurstEvent>, ev: BurstEvent)
    requires Linked(events) && (events != [] ==> ev.t0 <= MaxT0(events) + BURST_WINDOW_MS)
    ensures Linked(events + [ev])
    ensures MaxT0(events + [ev]) == Max(MaxT0(events), ev.t0)
    ensures FirstT0(events + [ev]) == if FirstT0(events) != 0 then FirstT0(events) else ev.t0
  {
    var all := events + [ev];
    assert all[..|events|] == events;
    forall i | 0 < i < |all| ensures all[i].t0 <= MaxT0(all[..i]) + BURST_WINDOW_MS {
      assert all[..i] == events[..i];
    }
  }

  lemma JoinKeepsShape(b: Burst, ev: BurstEvent, token: Token, frozen: seq<WorkspaceSnap>)
    requires BurstShape(b) && FateOf(b, ev.t0) == Joins && IsCloseEvent(ev.name)
    ensures BurstShape(Join(b, ev, token, frozen))
  {
    LinkedSnoc(b.events, ev);
    MergeExtends(b.frozen, frozen);
  }

  lemma AloneHasShape(ev: BurstEvent, token: Token, frozen: seq<WorkspaceSnap>)
    requires IsCloseEvent(ev.name)
    ensures BurstShape(Join(Fresh(ev.t0), ev, token, frozen))
  {
    var events := [ev];
    assert events[..0] == [];
    assert [] + [ev] == events;
    MergeExtends([], frozen);
  }

  lemma PushKeepsShape(pending: Option<Burst>, ev: BurstEvent, token: Token, frozen: seq<WorkspaceSnap>)
    requires PendingShape(pending) && IsCloseEvent(ev.name)
    ensures
      var r := Push(pending, ev, token, frozen);
      && BurstShape(r.burst) && r.burst.lastToken == token
      && PendingShape(r.expired) && PendingShape(r.dropped)
  {
    AloneHasShape(ev, token, frozen);
    if pending.Some? && FateOf(pending.value, ev.t0) == Joins {
      JoinKeepsShape(pending.value, ev, token, frozen);
    }
  }

  /** An expired burst lies wholly more than the window before the event that expired it. */
  lemma ExpiredIsWhollyOlder(pending: Option<Burst>, ev: BurstEvent, token: Token, frozen: seq<WorkspaceSnap>)
    requires PendingShape(pending) && Push(pending, ev, token, frozen).expired.Some?
    ensures forall e | e in Push(pending, ev, token, frozen).expired.value.events ::
              e.t0 + BURST_WINDOW_MS < ev.t0
  {
    MaxT0IsMaximum(pending.value.events);
  }

  /** A freeze already in a burst is never overwritten by a later event that joins it. */
  lemma JoinKeepsEarlierFreezes(b: Burst, ev: BurstEvent, token: Token, frozen: seq<WorkspaceSnap>, id: Id)
    requires FindWorkspaceIn(b.frozen, id).Some?
    ensures FindWorkspaceIn(Join(b, ev, token, frozen).frozen, id) == FindWorkspaceIn(b.frozen, id)
  {
    MergeFinds(b.frozen, frozen, id);
  }

  // ---------------------------------------------------------------- conservation of events

  function EventsOf(p: Option<Burst>): multiset<BurstEvent> {
    if p.None? then multiset{} else multiset(p.value.events)
  }

  /** Nothing a push touches disappears or is doubled: the old burst and the new event are
      together the new burst, the expired burst and the dropped burst. */
  lemma PushConserves(pending: Option<Burst>, ev: BurstEvent, token: Token, frozen: seq<WorkspaceSnap>)
    ensures
      var r := Push(pending, ev, token, frozen);
      EventsOf(pending) + multiset{ev} ==
      multiset(r.burst.events) + EventsOf(r.expired) + EventsOf(r.dropped)
  {
    if pending.Some? && FateOf(pending.value, ev.t0) == Joins {
      JoinHolds(pending.value, ev, token, frozen);
    } else {
      AloneHolds(ev, token, frozen);
    }
  }

  lemma AloneHolds(ev: BurstEvent, token: Token, frozen: seq<WorkspaceSnap>)
    ensures multiset(Join(Fresh(ev.t0), ev, token, frozen).events) == multiset{ev}
  {
    assert Join(Fresh(ev.t0), ev, token, frozen).events == [ev];
  }

  lemma JoinHolds(b: Burst, ev: BurstEvent, token: Token, frozen: seq<WorkspaceSnap>)
    ensures multiset(Join(b, ev, token, frozen).events) == multiset(b.events) + multiset{ev}
  {
    assert Join(b, ev, token, frozen).events == b.events + [ev];
  }

  /** A burst is finalised early exactly when the event comes more than 250 ms after its last
      event; it is thrown away exactly when the event comes inside that window but more than
      five seconds after the burst's first event; otherwise the event joins it, last. */
  lemma PushDropsExactlyWhen(pending: Option<Burst>, ev: BurstEvent, token: Token, frozen: seq<WorkspaceSnap>)
    ensures
      var r := Push(pending, ev, token, frozen);
      var late := pending.Some? && pending.value.lastMs + 250 < ev.t0;
      var stale := pending.Some? && !late && pending.value.firstMs + 5_000 < ev.t0;
      && r.expired == (if late then pending else None)
      && r.dropped == (if stale then pending else None)
      && r.burst.events == (if late || stale || pending.None? then [ev] else pending.value.events + [ev])
      && r.burst.lastToken == token
  {
  }

  // ---------------------------------------------------------------- which panes a burst holds

  /** A longer list finds the same pane: the first one. */
  lemma {:induction false} FindPaneInLonger(a: seq<WorkspaceSnap>, b: seq<WorkspaceSnap>, pane: Id)
    requires a <= b && FindPane(a, pane).Some?
    ensures FindPane(b, pane) == FindPane(a, pane)
  {
    if FindPaneInTabs(a[0], a[0].tabs, pane).None? {
      FindPaneInLonger(a[1..], b[1..], pane);
    }
  }

  lemma FindPaneSnoc(ws: seq<WorkspaceSnap>, w: WorkspaceSnap, pane: Id)
    ensures FindPane(ws + [w], pane).Some? <==> FindPane(ws, pane).Some? || HasPane(w, pane)
  {
    FindPaneIff(ws, pane);
    FindPaneIff(ws + [w], pane);
    assert forall x :: x in ws + [w] <==> x in ws || x == w;
  }

  lemma FreezeFrom(snap: Snapshot, want: seq<Id>)
    ensures forall w | w in Freeze(snap, want) :: w in snap.workspaces
  {
    if want != [] {
      FreezeFrom(snap, want[..|want| - 1]);
      FindWorkspaceInIff(snap.workspaces, want[|want| - 1]);
    }
  }

  /** Some of these workspaces has the pane and is not among the kept ones. */
  predicate Adds(kept: seq<WorkspaceSnap>, add: seq<WorkspaceSnap>, pane: Id) {
    exists w | w in add :: HasPane(w, pane) && FindWorkspaceIn(kept, w.workspaceId).None?
  }

  lemma {:induction false} MergeHolds(kept: seq<WorkspaceSnap>, add: seq<WorkspaceSnap>, pane: Id)
    requires DistinctWorkspaces(add)
    ensures FindPane(MergeFrozen(kept, add), pane).Some? <==> FindPane(kept, pane).Some? || Adds(kept, add, pane)
  {
    if add != [] {
      var n := |add| - 1;
      var before, last := add[..n], add[n];
      MergeHolds(kept, before, pane);
      MergeFinds(kept, before, last.workspaceId);
      FindWorkspaceInIff(before, last.workspaceId);
      FindPaneSnoc(MergeFrozen(kept, before), last, pane);
      assert add == before + [last];
      assert forall k | 0 <= k < n :: before[k] == add[k];
    }
  }

  /** The pending burst that an event with this `t0` would join. */
  function Target(pending: Option<Burst>, t0: nat): Option<Burst> {
    if pending.Some? && FateOf(pending.value, t0) == Joins then pending else None
  }

  function FrozenOf(b: Option<Burst>): seq<WorkspaceSnap> {
    if b.Some? then b.value.frozen else []
  }

  lemma PushMerges(pending: Option<Burst>, ev: BurstEvent, token: Token, frozen: seq<WorkspaceSnap>)
    ensures
      var r := Push(pending, ev, token, frozen);
      && r.burst.frozen == MergeFrozen(FrozenOf(Target(pending, ev.t0)), frozen)
      && ev in r.burst.events
  {
    var r := Push(pending, ev, token, frozen);
    assert r.burst.events[|r.burst.events| - 1] == ev;
  }

  /** After a push the burst holds a pane exactly when the burst it joined held it, or the
      event's freeze has it in a workspace that burst had not frozen. */
  lemma PushHolds(pending: Option<Burst>, ev: BurstEvent, token: Token, frozen: seq<WorkspaceSnap>, pane: Id)
    requires DistinctWorkspaces(frozen)
    ensures
      var kept := FrozenOf(Target(pending, ev.t0));
      FindPane(Push(pending, ev, token, frozen).burst.frozen, pane).Some?
      <==> FindPane(kept, pane).Some? || Adds(kept, frozen, pane)
  {
    PushMerges(pending, ev, token, frozen);
    MergeHolds(FrozenOf(Target(pending, ev.t0)), frozen, pane);
  }

  // ---------------------------------------------------------------- histories of bursts

  function Retire(bursts: seq<Burst>, b: Option<Burst>): seq<Burst> {
    if b.Some? then bursts + [b.value] else bursts
  }

  function AllEvents(bursts: seq<Burst>): multiset<BurstEvent> {
    if bursts == [] then multiset{}
    else AllEvents(bursts[..|bursts| - 1]) + multiset(bursts[|bursts| - 1].events)
  }

  lemma AllEventsRetire(bursts: seq<Burst>, b: Option<Burst>)
    ensures AllEvents(Retire(bursts, b)) == AllEvents(bursts) + EventsOf(b)
  {
    if b.Some? { assert (bursts + [b.value])[..|bursts|] == bursts; }
  }

  lemma {:induction false} SomeBurstHas(bursts: seq<Burst>, e: BurstEvent) returns (k: nat)
    requires e in AllEvents(bursts)
    ensures k < |bursts| && e in bursts[k].events
  {
    k := |bursts| - 1;
    if e !in bursts[k].events {
      k := SomeBurstHas(bursts[..k], e);
    }
  }
}
