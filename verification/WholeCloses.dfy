/** From a closed tab or workspace to its entry on the undo stack, for every state of the
    shadow snapshot and over every interleaving of hooks and reopens. */
module WholeCloses {
  import opened Prelude
  import opened Model
  import opened Bursts
  import opened Inference
  import opened InferenceLaws
  import opened EntryContents
  import opened Protocol
  import opened Ledgers
  import opened Snapshots
  import opened EndToEnd

  // ---------------------------------------------------------------- what the hook finds

  /** The hook of a tab's close finds the tab exactly when it is current, or when only history
      has it and the current snapshot does not know the event by its pane. */
  lemma HookFindsTab(c: Cache, ev: BurstEvent)
    requires ev.tabId.Some?
    ensures
      var has := (s: Snapshot) => FindTab(s.workspaces, ev.tabId.value).Some?;
      has(Chosen(c, ev)) <==> has(c.current) || (has(c.previous) && !Knows(c.current, ev))
  {
    ChosenIs(c, ev);
  }

  lemma ChosenIs(c: Cache, ev: BurstEvent)
    ensures Chosen(c, ev) == if !Knows(c.current, ev) && Knows(c.previous, ev) then c.previous else c.current
  {
    var snaps := [c.current, c.previous];
    assert snaps[1..] == [c.previous];
    assert BestSnapshot(snaps[1..], ev) == c.previous;
  }

  /** The hook of a workspace's close takes the workspace from history exactly when the current
      snapshot has no tab of it and history has one. */
  lemma HookFindsWorkspace(c: Cache, ev: BurstEvent)
    requires ev.paneId.None? && ev.tabId.None? && ev.workspaceId.Some?
    ensures
      var present := FindWorkspaceIn(c.current.workspaces, ev.workspaceId.value);
      var past := FindWorkspaceIn(c.previous.workspaces, ev.workspaceId.value);
      FindWorkspaceIn(Chosen(c, ev).workspaces, ev.workspaceId.value) ==
      if (present.None? || present.value.tabs == []) && past.Some? && past.value.tabs != [] then past else present
  {
    ChosenIs(c, ev);
  }

  // ---------------------------------------------------------------- what the burst holds

  /** Once the event is pushed, the burst has the workspace it names as the burst it joined had
      frozen it, else as the snapshot remembers it. */
  lemma PushHoldsNamedWorkspace(snap: Snapshot, pending: Option<Burst>, ev: BurstEvent, token: Token)
    requires ev.workspaceId.Some?
    ensures
      var w := ev.workspaceId.value;
      FindWorkspaceIn(Push(pending, ev, token, FreezeFor(snap, ev)).burst.frozen, w) ==
      FindWorkspaceIn(FrozenOf(Target(pending, ev.t0)), w).OrElse(FindWorkspaceIn(snap.workspaces, w))
  {
    PushMerges(pending, ev, token, FreezeFor(snap, ev));
    MergeFinds(FrozenOf(Target(pending, ev.t0)), FreezeFor(snap, ev), ev.workspaceId.value);
    FreezeHoldsWhatIsNamed(snap, ev, ev.workspaceId.value);
  }

  /** No other workspace of the snapshot has this tab. */
  predicate OneTabHolder(snap: Snapshot, tab: Id, ws: Id) {
    forall w | w in snap.workspaces :: HasTab(w, tab) ==> w.workspaceId == ws
  }

  /** A tab that one workspace of the snapshot has, not frozen in the burst before, is held
      exactly as the snapshot remembers it. */
  lemma PushHoldsTab(snap: Snapshot, pending: Option<Burst>, ev: BurstEvent, token: Token)
    requires DistinctWorkspaces(snap.workspaces) && ev.tabId.Some?
    requires FindTab(snap.workspaces, ev.tabId.value).Some?
    ensures
      var at := FindTab(snap.workspaces, ev.tabId.value).value;
      var kept := FrozenOf(Target(pending, ev.t0));
      var burst := Push(pending, ev, token, FreezeFor(snap, ev)).burst;
      && (FindWorkspaceIn(kept, at.ws.workspaceId).None? ==>
            FindWorkspaceIn(burst.frozen, at.ws.workspaceId) == Some(at.ws) && FindTab(burst.frozen, ev.tabId.value).Some?)
      && (FindWorkspaceIn(kept, at.ws.workspaceId).None? && FindTab(kept, ev.tabId.value).None?
          && OneTabHolder(snap, ev.tabId.value, at.ws.workspaceId) ==>
            FindTab(burst.frozen, ev.tabId.value) == Some(at))
  {
    var tab := ev.tabId.value;
    var at := FindTab(snap.workspaces, tab).value;
    var kept := FrozenOf(Target(pending, ev.t0));
    var frozen := FreezeFor(snap, ev);
    var merged := MergeFrozen(kept, frozen);
    PushMerges(pending, ev, token, frozen);
    FindTabIff(snap.workspaces, tab);
    FindDistinctWorkspace(snap.workspaces, at.ws);
    FreezeHoldsWhatIsNamed(snap, ev, at.ws.workspaceId);
    MergeFinds(kept, frozen, at.ws.workspaceId);
    if FindWorkspaceIn(kept, at.ws.workspaceId).None? {
      FindWorkspaceInIff(merged, at.ws.workspaceId);
      assert HasTab(at.ws, tab);
      FindTabIff(merged, tab);
      if FindTab(kept, tab).None? && OneTabHolder(snap, tab, at.ws.workspaceId) {
        TabFoundAsRemembered(snap, kept, frozen, tab);
      }
    }
  }

  lemma TabFoundAsRemembered(snap: Snapshot, kept: seq<WorkspaceSnap>, frozen: seq<WorkspaceSnap>, tab: Id)
    requires DistinctWorkspaces(snap.workspaces) && forall w | w in frozen :: w in snap.workspaces
    requires FindTab(snap.workspaces, tab).Some? && FindTab(kept, tab).None?
    requires OneTabHolder(snap, tab, FindTab(snap.workspaces, tab).value.ws.workspaceId)
    requires FindTab(MergeFrozen(kept, frozen), tab).Some?
    ensures FindTab(MergeFrozen(kept, frozen), tab) == FindTab(snap.workspaces, tab)
  {
    var merged := MergeFrozen(kept, frozen);
    var at := FindTab(snap.workspaces, tab).value;
    FindTabIff(merged, tab);
    FindTabIff(snap.workspaces, tab);
    FindTabIff(kept, tab);
    MergeFrom(kept, frozen);
    var w := FindTab(merged, tab).value.ws;
    assert HasTab(w, tab);
    SameWorkspace(snap.workspaces, w, at.ws);
    TabFoundIn(merged, tab);
    TabFoundIn(snap.workspaces, tab);
  }

  lemma {:induction false} TabFoundIn(ws: seq<WorkspaceSnap>, tab: Id)
    requires FindTab(ws, tab).Some?
    ensures
      var at := FindTab(ws, tab).value;
      FindTabIn(at.ws.tabs, tab) == Some(at.tab)
  {
    if FindTabIn(ws[0].tabs, tab).None? { TabFoundIn(ws[1..], tab); }
  }

  lemma {:induction false} FindTabInLonger(a: seq<WorkspaceSnap>, b: seq<WorkspaceSnap>, tab: Id)
    requires a <= b && FindTab(a, tab).Some?
    ensures FindTab(b, tab) == FindTab(a, tab)
  {
    if FindTabIn(a[0].tabs, tab).None? { FindTabInLonger(a[1..], b[1..], tab); }
  }

  lemma {:induction false} FindWorkspaceInLonger(a: seq<WorkspaceSnap>, b: seq<WorkspaceSnap>, id: Id)
    requires a <= b && FindWorkspaceIn(a, id).Some?
    ensures FindWorkspaceIn(b, id) == FindWorkspaceIn(a, id)
  {
    if a[0].workspaceId != id { FindWorkspaceInLonger(a[1..], b[1..], id); }
  }

  // ---------------------------------------------------------------- what the books hold

  /** The entry of the tab's close is on the stack, held, restored or lost, dated by the close,
      and holds the tab in its workspace. */
  predicate KeepsTab(u: Undo, ev: BurstEvent, at: TabAt) {
    exists id | id in u.issued ::
      && Accounted(u, id) && HoldsTab(u.issued[id], at)
      && u.issued[id].closedAt == ev.t0 && u.issued[id].reason.Closed? && u.issued[id].events == [ev.name]
  }

  /** This workspace with its tabs is in an entry, and the entry is the burst's one for the
      workspaces it closed. */
  predicate RestoresWorkspace(entry: ClosedEntry, b: Burst, ws: WorkspaceSnap) {
    && DescribesAll(entry, b)
    && exists w | w in [entry.workspace] + entry.group :: w.workspaceId == ws.workspaceId && w.tabs == ws.tabs
  }

  predicate KeepsWhole(u: Undo, b: Burst, ws: WorkspaceSnap) {
    exists id | id in u.issued :: Accounted(u, id) && RestoresWorkspace(u.issued[id], b, ws)
  }

  lemma KeptIsWhole(u: Undo, b: Burst, ws: WorkspaceSnap)
    requires KeepsWorkspace(u, b, ws.workspaceId) && FindWorkspaceIn(b.frozen, ws.workspaceId) == Some(ws)
    ensures KeepsWhole(u, b, ws)
  {
    var id :| id in u.issued && Accounted(u, id) && DescribesAll(u.issued[id], b)
              && HoldsWorkspace(u.issued[id], b.frozen, ws.workspaceId);
    var entry := u.issued[id];
    assert HoldsWorkspace(entry, b.frozen, ws.workspaceId);
    var w :| w in [entry.workspace] + entry.group && w.workspaceId == ws.workspaceId && KeepsFrozen(w, b.frozen);
    assert RestoresWorkspace(entry, b, ws);
  }

  /** For any runs before and after the close of a workspace: its burst is pending, dropped or
      finalised, and a finalised burst has put on the books the workspace with all its tabs, as
      frozen earlier in the burst or else as the snapshot remembered it at the close. */
  lemma ClosedWorkspaceReachesTheStack(
    cfg: Config, cache: Cache, before: seq<Step>, ev: BurstEvent, token: Token, now: nat, after: seq<Step>)
    requires ev.name.WorkspaceClosed? && ev.workspaceId.Some?
    requires ValidRun(cfg, Initial, before + [CloseHook(cache, ev, token, now)] + after)
    ensures ValidRun(cfg, Initial, before)
    ensures
      var w := ev.workspaceId.value;
      var pending := Exec(cfg, Initial, before).capture.pending;
      var base := Push(pending, ev, token, FreezeFor(Chosen(cache, ev), ev)).burst;
      var held := FindWorkspaceIn(FrozenOf(Target(pending, ev.t0)), w)
                  .OrElse(FindWorkspaceIn(Chosen(cache, ev).workspaces, w));
      var s := Exec(cfg, Initial, before + [CloseHook(cache, ev, token, now)] + after);
      && Tracked(s.capture, base, ev)
      && (held.Some? ==> forall b | b in s.capture.finalised && GrewFrom(b, base, ev) :: KeepsWhole(s.undo, b, held.value))
  {
    var hook := CloseHook(cache, ev, token, now);
    var pending := CloseIsTracked(cfg, cache, before, ev, token, now, after);
    var w := ev.workspaceId.value;
    var base := Push(pending, ev, token, FreezeFor(Chosen(cache, ev), ev)).burst;
    PushHoldsNamedWorkspace(Chosen(cache, ev), pending, ev, token);
    var held := FindWorkspaceIn(base.frozen, w);
    var s := Exec(cfg, Initial, before + [hook] + after);
    if held.Some? {
      FindWorkspaceInIff(base.frozen, w);
      forall b | b in s.capture.finalised && GrewFrom(b, base, ev) ensures KeepsWhole(s.undo, b, held.value) {
        FinalisedIsOnTheBooks(cfg, before + [hook] + after, b, ev);
        FindWorkspaceInLonger(base.frozen, b.frozen, w);
        KeptIsWhole(s.undo, b, held.value);
      }
    }
  }

  lemma CloseIsTracked(
    cfg: Config, cache: Cache, before: seq<Step>, ev: BurstEvent, token: Token, now: nat, after: seq<Step>)
    returns (pending: Option<Burst>)
    requires ValidRun(cfg, Initial, before + [CloseHook(cache, ev, token, now)] + after)
    ensures ValidRun(cfg, Initial, before) && pending == Exec(cfg, Initial, before).capture.pending
    ensures Tracked(Exec(cfg, Initial, before + [CloseHook(cache, ev, token, now)] + after).capture,
                    Push(pending, ev, token, FreezeFor(Chosen(cache, ev), ev)).burst, ev)
  {
    var hook := CloseHook(cache, ev, token, now);
    HookPushes(cfg, before, hook, after);
    var s0 := Exec(cfg, Initial, before);
    pending := s0.capture.pending;
    PushMerges(pending, ev, token, FreezeFor(Chosen(cache, ev), ev));
    RunTracks(cfg, Next(cfg, s0, hook), after, Push(pending, ev, token, FreezeFor(Chosen(cache, ev), ev)).burst, ev);
  }

  lemma FinalisedIsOnTheBooks(cfg: Config, run: seq<Step>, b: Burst, ev: BurstEvent)
    requires ValidRun(cfg, Initial, run) && b in Exec(cfg, Initial, run).capture.finalised && ev in b.events
    ensures OnTheBooks(cfg, Exec(cfg, Initial, run).undo, b, ev)
  {
    var bursts := Exec(cfg, Initial, run).capture.finalised;
    var k :| 0 <= k < |bursts| && bursts[k] == b;
    FinalisedEventIsOnTheBooks(cfg, run, k, ev);
  }

  /** A tab close in a finalised burst that froze the tab: the tab's entry is on the books,
      unless the tab's workspace was closed in the same burst; then that workspace is. */
  predicate TabIsOnTheBooks(u: Undo, b: Burst, ev: BurstEvent, at: TabAt) {
    var w := WorkspaceOf(b.frozen, ev);
    if ClosesWorkspace(b, w) then KeepsWorkspace(u, b, w) else KeepsTab(u, ev, at)
  }

  lemma FinalisedTabIsOnTheBooks(cfg: Config, u: Undo, b: Burst, ev: BurstEvent)
    requires ev.name.TabClosed? && ev.tabId.Some? && ev in b.events && OnTheBooks(cfg, u, b, ev)
    requires FindTab(b.frozen, ev.tabId.value).Some?
    ensures TabIsOnTheBooks(u, b, ev, FindTab(b.frozen, ev.tabId.value).value)
  {
    var w := WorkspaceOf(b.frozen, ev);
    CoveredMeans(b, w);
    YieldsExactlyWhen(b, cfg.captureExited, ev);
    FindTabIff(b.frozen, ev.tabId.value);
    if !ClosesWorkspace(b, w) {
      assert Yields(b, cfg.captureExited, ev);
      var id :| id in u.issued && Accounted(u, id) && u.issued[id].id == id && Describes(u.issued[id], b.frozen, ev);
    }
  }

  /** The same for the close of a tab: as frozen at the close when its workspace had not been
      frozen before in the burst, and else as frozen then. */
  lemma ClosedTabReachesTheStack(
    cfg: Config, cache: Cache, before: seq<Step>, ev: BurstEvent, token: Token, now: nat, after: seq<Step>)
    requires ev.name.TabClosed? && ev.tabId.Some?
    requires ValidRun(cfg, Initial, before + [CloseHook(cache, ev, token, now)] + after)
    ensures ValidRun(cfg, Initial, before)
    ensures
      var pending := Exec(cfg, Initial, before).capture.pending;
      var base := Push(pending, ev, token, FreezeFor(Chosen(cache, ev), ev)).burst;
      var held := FindTab(base.frozen, ev.tabId.value);
      var s := Exec(cfg, Initial, before + [CloseHook(cache, ev, token, now)] + after);
      && Tracked(s.capture, base, ev)
      && (held.Some? ==>
            forall b | b in s.capture.finalised && GrewFrom(b, base, ev) :: TabIsOnTheBooks(s.undo, b, ev, held.value))
  {
    var hook := CloseHook(cache, ev, token, now);
    var pending := CloseIsTracked(cfg, cache, before, ev, token, now, after);
    var base := Push(pending, ev, token, FreezeFor(Chosen(cache, ev), ev)).burst;
    var held := FindTab(base.frozen, ev.tabId.value);
    var s := Exec(cfg, Initial, before + [hook] + after);
    if held.Some? {
      forall b | b in s.capture.finalised && GrewFrom(b, base, ev) ensures TabIsOnTheBooks(s.undo, b, ev, held.value) {
        FinalisedIsOnTheBooks(cfg, before + [hook] + after, b, ev);
        FindTabInLonger(base.frozen, b.frozen, ev.tabId.value);
        FinalisedTabIsOnTheBooks(cfg, s.undo, b, ev);
      }
    }
  }

  /** From the snapshot on: a tab that is current, or that only history has and the current
      snapshot does not know the event by its pane, in one workspace and not frozen before in
      the burst, is on the books as the snapshot remembered it. */
  lemma RememberedTabReachesTheStack(
    cfg: Config, cache: Cache, before: seq<Step>, ev: BurstEvent, token: Token, now: nat, after: seq<Step>)
    requires ev.name.TabClosed? && ev.tabId.Some? && DistinctWorkspaces(Chosen(cache, ev).workspaces)
    requires ValidRun(cfg, Initial, before + [CloseHook(cache, ev, token, now)] + after)
    ensures ValidRun(cfg, Initial, before)
    ensures
      var tab := ev.tabId.value;
      var found := FindTab(Chosen(cache, ev).workspaces, tab);
      var pending := Exec(cfg, Initial, before).capture.pending;
      var kept := FrozenOf(Target(pending, ev.t0));
      var base := Push(pending, ev, token, FreezeFor(Chosen(cache, ev), ev)).burst;
      var s := Exec(cfg, Initial, before + [CloseHook(cache, ev, token, now)] + after);
      && (found.Some? <==> FindTab(cache.current.workspaces, tab).Some?
                           || (FindTab(cache.previous.workspaces, tab).Some? && !Knows(cache.current, ev)))
      && (&& found.Some? && OneTabHolder(Chosen(cache, ev), tab, found.value.ws.workspaceId)
          && FindTab(kept, tab).None? && FindWorkspaceIn(kept, found.value.ws.workspaceId).None? ==>
            forall b | b in s.capture.finalised && GrewFrom(b, base, ev) :: TabIsOnTheBooks(s.undo, b, ev, found.value))
  {
    HookFindsTab(cache, ev);
    ClosedTabReachesTheStack(cfg, cache, before, ev, token, now, after);
    if FindTab(Chosen(cache, ev).workspaces, ev.tabId.value).Some? {
      PushHoldsTab(Chosen(cache, ev), Exec(cfg, Initial, before).capture.pending, ev, token);
    }
  }
}
