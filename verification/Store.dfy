/** The plugin's state directory as one object: every locked section of the plugin, written
    the way it runs, against the section functions the laws are proved about. Reads and
    writes of a section happen under the lock, so a method is one atomic step. */
module Store {
  import opened Prelude
  import opened Model
  import opened Bursts
  import opened Inference
  import opened Stacks
  import opened Snapshots
  import opened SelfCreated

  function EventIds(ev: BurstEvent): seq<Id> {
    (if ev.paneId.Some? then [ev.paneId.value] else [])
    + (if ev.tabId.Some? then [ev.tabId.value] else [])
    + (if ev.name.WorkspaceClosed? && ev.workspaceId.Some? then [ev.workspaceId.value] else [])
  }

  /** A close the hook must not capture: a popup, or something a restore has just made. */
  predicate Ignored(file: seq<Made>, ev: BurstEvent) {
    || (ev.name.PaneClosed? && ev.paneId.None?)
    || exists id | id in EventIds(ev) :: IsSelfCreated(file, id, ev.t0)
  }

  /** The entries of one burst go in last first, each at the front. */
  method InsertAll(entries: seq<ClosedEntry>, rest: seq<ClosedEntry>) returns (list: seq<ClosedEntry>)
    ensures list == entries + rest
  {
    list := rest;
    var i := |entries|;
    while i > 0
      invariant 0 <= i <= |entries| && list == entries[i..] + rest
    {
      i := i - 1;
      list := [entries[i]] + list;
    }
  }

  lemma RenumberedMaxId(stack: ClosedStack, b: Burst, cfg: Config, now: nat)
    requires NewEntries(stack, b, cfg, now) != []
    ensures
      var next := NextEntryId(Prune(stack, now, cfg.entryTtlHours, STACK_CAP));
      MaxId(NewEntries(stack, b, cfg, now)) + 1 == next + |NewEntries(stack, b, cfg, now)|
  {
    MaxIdNumbered(Drafts(b, cfg.captureExited, EXPECTED_PROTOCOL),
                  NextEntryId(Prune(stack, now, cfg.entryTtlHours, STACK_CAP)));
  }

  /** A close is ignored exactly when it is a popup's, or when a restore recorded its pane, its
      tab or, for a workspace's close, its workspace less than five seconds before. */
  lemma IgnoredExactlyWhen(file: seq<Made>, ev: BurstEvent)
    ensures Ignored(file, ev) <==>
            || (ev.name.PaneClosed? && ev.paneId.None?)
            || exists m | m in file ::
                 && ev.t0 < m.at + 5_000
                 && (ev.paneId == Some(m.id) || ev.tabId == Some(m.id)
                     || (ev.name.WorkspaceClosed? && ev.workspaceId == Some(m.id)))
  {
    assert forall id :: id in EventIds(ev) <==>
      ev.paneId == Some(id) || ev.tabId == Some(id) || (ev.name.WorkspaceClosed? && ev.workspaceId == Some(id));
    assert forall m: Made :: Shields(m, ev.t0) <==> ev.t0 < m.at + 5_000;
  }

  /** The first reopen after a server start: its own new pane's hook runs the recovery pass,
      and when the restore then fails and closes that pane, even in the same millisecond, the
      close is captured as the user's. */
  lemma BootReopenIsCaptured(now: nat, pane: Id, ev: BurstEvent)
    requires ev.name.PaneClosed? && ev.paneId == Some(pane) && ev.t0 == now
    ensures Ignored(FileAfter([Recorded([pane], now)]), ev)
    ensures !Ignored(FileAfter([Recorded([pane], now), Recovered]), ev)
  {
    var history := [Recorded([pane], now)];
    assert NotRecoveredSince(history, 0) && NotPrunedSince(history, 0);
    ShieldedExactlyWhen(history, pane, now);
    assert pane in EventIds(ev);
    RecoveryForgets(history, []);
    assert history + [Recovered] + [] == [Recorded([pane], now), Recovered];
  }

  class Files {
    const cfg: Config
    var pending: Option<Burst>
    var closed: ClosedStack
    var snapshot: Snapshot
    var previous: Snapshot
    var selfCreated: seq<Made>

    /** A fresh state directory: every missing file reads as its default. */
    constructor (cfg: Config)
      ensures this.cfg == cfg && OnDisk() == Disk(None, EmptyStack)
      ensures Shadow() == Cache(EmptySnapshot, EmptySnapshot) && selfCreated == []
    {
      this.cfg := cfg;
      pending, closed := None, EmptyStack;
      snapshot, previous := EmptySnapshot, EmptySnapshot;
      selfCreated := [];
    }

    function OnDisk(): Disk
      reads this
    {
      Disk(pending, closed)
    }

    function Shadow(): Cache
      reads this
    {
      Cache(snapshot, previous)
    }

    // -------------------------------------------------------------- the undo stack

    /** `finalize_locked`. */
    method FinalizeLocked(b: Burst, now: nat)
      modifies `closed
      ensures closed == Finalized(old(closed), b, cfg, now)
    {
      var stack := Prune(closed, now, cfg.entryTtlHours, STACK_CAP);
      var next := NextEntryId(stack);
      var entries := InferEntries(b, cfg.captureExited, next, EXPECTED_PROTOCOL);
      if entries == [] { return; }
      RenumberedMaxId(closed, b, cfg, now);
      var list := InsertAll(entries, stack.entries);
      closed := ClosedStack(Truncate(list, STACK_CAP), MaxId(entries) + 1);
    }

    /** The pop of `reopen`. */
    method PopEntry(want: Option<nat>, now: nat) returns (entry: Option<ClosedEntry>)
      modifies `closed
      ensures (OnDisk(), entry) == PopSection(cfg, old(OnDisk()), want, now)
    {
      var stack := Prune(closed, now, cfg.entryTtlHours, STACK_CAP);
      var pick := PickIndex(stack.entries, want);
      if pick.None? { return None; }
      entry := Some(stack.entries[pick.value]);
      closed := stack.(entries := stack.entries[..pick.value] + stack.entries[pick.value + 1..]);
    }

    /** `push_back`. */
    method PushBack(entry: ClosedEntry)
      modifies `closed
      ensures OnDisk() == PushBackSection(old(OnDisk()), entry)
    {
      var i := 0;
      while i < |closed.entries| && closed.entries[i].id != entry.id
        invariant i <= |closed.entries| && closed == old(closed)
        invariant forall k | 0 <= k < i :: closed.entries[k].id != entry.id
      {
        i := i + 1;
      }
      assert i < |closed.entries| ==> closed.entries[i] in closed.entries;
      if i == |closed.entries| {
        closed := closed.(entries := Truncate([entry] + closed.entries, STACK_CAP));
      }
    }

    // -------------------------------------------------------------- capturing closes

    /** The guards and the first locked section of the close hook. */
    method OnClose(ev: BurstEvent, token: Token, now: nat) returns (ignored: bool)
      modifies `pending, `closed
      ensures ignored <==> Ignored(old(selfCreated), ev)
      ensures OnDisk() ==
              if ignored then old(OnDisk())
              else PushSection(cfg, old(OnDisk()), ev, token, FreezeFor(Chosen(old(Shadow()), ev), ev), now)
    {
      if ev.name.PaneClosed? && ev.paneId.None? { return true; }
      var ids := EventIds(ev);
      ignored := false;
      for i := 0 to |ids|
        invariant ignored <==> exists k | 0 <= k < i :: IsSelfCreated(selfCreated, ids[k], ev.t0)
        invariant pending == old(pending) && closed == old(closed)
      {
        if IsSelfCreated(selfCreated, ids[i], ev.t0) { ignored := true; }
      }
      assert ignored <==> Ignored(selfCreated, ev);
      if ignored { return; }
      var chosen := BestSnapshot([snapshot, previous], ev);
      var frozen := FreezeLoop(chosen, ev);
      var r := PushEvent(pending, ev, token, frozen);
      if r.expired.Some? { FinalizeLocked(r.expired.value, now); }
      pending := Some(r.burst);
    }

    /** The second locked section of the close hook, after its sleep. */
    method FinaliseOwned(token: Token, now: nat)
      modifies `pending, `closed
      ensures OnDisk() == FinaliseSection(cfg, old(OnDisk()), token, now)
    {
      if OwnsFinalization(pending, token) {
        FinalizeLocked(pending.value, now);
        pending := None;
      }
    }

    /** `recover`, without the daemon's own lock file. */
    method Recover(now: nat, later: nat)
      modifies `pending, `closed, `selfCreated
      ensures OnDisk() == RecoverSection(cfg, old(OnDisk()), now, later)
      ensures selfCreated == []
    {
      if pending.Some? {
        var b := pending.value;
        if SatSub(now, b.firstMs) > BURST_STALE_MS {
          var i := 0;
          while i < |b.events| && !IsCloseEvent(b.events[i].name)
            invariant i <= |b.events| && pending == old(pending) && closed == old(closed)
            invariant forall k | 0 <= k < i :: !IsCloseEvent(b.events[k].name)
          {
            i := i + 1;
          }
          assert i < |b.events| ==> b.events[i] in b.events;
          assert HasCloseEvent(b) <==> i < |b.events|;
          if i < |b.events| { FinalizeLocked(b, later); }
          pending := None;
        }
      }
      selfCreated := [];
      var stack := Prune(closed, now, cfg.entryTtlHours, STACK_CAP);
      if |stack.entries| != |closed.entries| { closed := stack; }
    }

    // -------------------------------------------------------------- the shadow snapshot

    /** The locked end of `refresh`: history is written before the new snapshot. */
    method CommitRefresh(snap: Snapshot) returns (kept: Snapshot)
      modifies `snapshot, `previous
      ensures Shadow() == Commit(old(Shadow()), snap)
      ensures kept == snapshot
    {
      if snapshot.takenAt > snap.takenAt { return snapshot; }
      if LostContainers(snapshot, snap) { previous := snapshot; }
      snapshot := snap;
      kept := snap;
    }

    /** `seed_from_event` for a create event whose payload parses. */
    method Seed(step: CacheStep)
      requires !IsRefresh(step)
      modifies `snapshot
      ensures Shadow() == NextCache(old(Shadow()), step)
    {
      match step {
        case PaneCreated(pane, now) => snapshot := MergePaneCreated(snapshot, pane, now);
        case TabCreated(tab) => snapshot := MergeTabCreated(snapshot, tab);
        case WorkspaceCreated(workspace) => snapshot := MergeWorkspaceCreated(snapshot, workspace);
      }
    }

    // -------------------------------------------------------------- ids a restore made

    /** `record_self_created`. */
    method RecordSelfCreated(ids: seq<Id>, now: nat)
      modifies `selfCreated
      ensures selfCreated == Record(old(selfCreated), ids, now)
    {
      var file := Filter(selfCreated, (m: Made) => Shields(m, now));
      ghost var young := file;
      for i := 0 to |ids|
        invariant file == young + MadeAll(ids, now)[..i] && selfCreated == old(selfCreated)
      {
        file := file + [Made(ids[i], now)];
      }
      selfCreated := file;
    }
  }
}
