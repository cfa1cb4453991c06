/** The allocator laws of the undo stack: what each locked section does to the ids. */
module StackLaws {
  import opened Prelude
  import opened Model
  import opened Stacks

  predicate DistinctIds(entries: seq<ClosedEntry>) {
    forall i, j | 0 <= i < j < |entries| :: entries[i].id != entries[j].id
  }

  function IdSet(entries: seq<ClosedEntry>): set<nat> {
    set i | 0 <= i < |entries| :: entries[i].id
  }

  /** Ids are distinct, already allocated, and never more than the cap are kept. */
  predicate StackOk(stack: ClosedStack) {
    && DistinctIds(stack.entries)
    && |stack.entries| <= STACK_CAP
    && forall e | e in stack.entries :: 1 <= e.id < stack.nextId
  }

  /** Position `i` of `kept` is position `at[i]` of `all`, in ascending order. */
  predicate Embeds(kept: seq<ClosedEntry>, all: seq<ClosedEntry>, at: seq<nat>) {
    && |at| == |kept|
    && (forall i | 0 <= i < |kept| :: at[i] < |all| && all[at[i]] == kept[i])
    && (forall i, j | 0 <= i < j < |kept| :: at[i] < at[j])
  }

  /** `kept` is what is left of `all` after dropping some entries, in the same order. */
  ghost predicate Thinned(kept: seq<ClosedEntry>, all: seq<ClosedEntry>) {
    exists at: seq<nat> :: Embeds(kept, all, at)
  }

  lemma ThinnedMeans(kept: seq<ClosedEntry>, all: seq<ClosedEntry>)
    requires Thinned(kept, all)
    ensures forall e | e in kept :: e in all
    ensures DistinctIds(all) ==> DistinctIds(kept)
    ensures |kept| <= |all|
  {
    var at :| Embeds(kept, all, at);
    AscendingFits(at, |all|);
  }

  lemma {:induction false} AscendingFits(at: seq<nat>, n: nat)
    requires forall i, j | 0 <= i < j < |at| :: at[i] < at[j]
    requires forall i | 0 <= i < |at| :: at[i] < n
    ensures |at| <= n
  {
    if at != [] { AscendingFits(at[..|at| - 1], at[|at| - 1]); }
  }

  lemma ThinnedTwice(a: seq<ClosedEntry>, b: seq<ClosedEntry>, c: seq<ClosedEntry>)
    requires Thinned(a, b) && Thinned(b, c)
    ensures Thinned(a, c)
  {
    var f :| Embeds(a, b, f);
    var g :| Embeds(b, c, g);
    var h: seq<nat> := seq(|a|, i requires 0 <= i < |a| => g[f[i]]);
    assert Embeds(a, c, h);
  }

  lemma TakeThins(s: seq<ClosedEntry>, n: nat)
    requires n <= |s|
    ensures Thinned(s[..n], s)
  {
    var at: seq<nat> := seq(n, i requires 0 <= i => i);
    assert Embeds(s[..n], s, at);
  }

  lemma RemoveThins(s: seq<ClosedEntry>, i: nat)
    requires i < |s|
    ensures Thinned(s[..i] + s[i + 1..], s)
  {
    var at: seq<nat> := seq(|s| - 1, k requires 0 <= k => if k < i then k else k + 1);
    assert Embeds(s[..i] + s[i + 1..], s, at);
  }

  lemma EmbedsMore(kept: seq<ClosedEntry>, all: seq<ClosedEntry>, at: seq<nat>, x: ClosedEntry)
    requires Embeds(kept, all, at)
    ensures Embeds(kept, all + [x], at)
    ensures Embeds(kept + [x], all + [x], at + [|all|])
  {
  }

  lemma {:induction false} FilterEmbeds(s: seq<ClosedEntry>, p: ClosedEntry -> bool) returns (at: seq<nat>)
    ensures Embeds(Filter(s, p), s, at)
  {
    at := [];
    if s != [] {
      var n := |s| - 1;
      var before := FilterEmbeds(s[..n], p);
      EmbedsMore(Filter(s[..n], p), s[..n], before, s[n]);
      assert s[..n] + [s[n]] == s;
      at := if p(s[n]) then before + [n] else before;
    }
  }

  lemma FilterThins(s: seq<ClosedEntry>, p: ClosedEntry -> bool)
    ensures Thinned(Filter(s, p), s)
  {
    var at := FilterEmbeds(s, p);
  }

  lemma PruneThins(stack: ClosedStack, now: nat, hours: nat)
    ensures
      var pruned := Prune(stack, now, hours, STACK_CAP);
      && Thinned(pruned.entries, stack.entries)
      && |pruned.entries| <= STACK_CAP && pruned.nextId == stack.nextId
      && (StackOk(stack) ==> StackOk(pruned))
      && (StackOk(stack) ==> pruned.entries == Alive(stack.entries, now, hours))
  {
    var alive := Alive(stack.entries, now, hours);
    var pruned := Prune(stack, now, hours, STACK_CAP).entries;
    FilterThins(stack.entries, (e: ClosedEntry) => Lives(e, now, hours));
    ThinnedMeans(alive, stack.entries);
    TakeThins(alive, Min(STACK_CAP, |alive|));
    ThinnedTwice(pruned, alive, stack.entries);
    ThinnedMeans(pruned, stack.entries);
  }

  /** The next id is fresh even when every entry has expired. */
  lemma NextIdIsFresh(stack: ClosedStack, now: nat, hours: nat)
    requires StackOk(stack)
    ensures NextEntryId(Prune(stack, now, hours, STACK_CAP)) == Max(stack.nextId, 1)
  {
    PruneThins(stack, now, hours);
    var pruned := Prune(stack, now, hours, STACK_CAP);
    if pruned.entries != [] { MaxIdIsSome(pruned.entries); }
  }

  lemma MaxIdIsSome(entries: seq<ClosedEntry>)
    requires entries != []
    ensures exists i | 0 <= i < |entries| :: entries[i].id == MaxId(entries)
  {
    var n := |entries| - 1;
    assert n == 0 ==> entries[..n] == [];
    if entries[n].id != MaxId(entries) {
      MaxIdIsSome(entries[..n]);
    }
  }

  /** Finalising gives the new entries consecutive fresh ids, in front of the survivors. */
  lemma FinalizedAllocates(stack: ClosedStack, b: Burst, cfg: Config, now: nat)
    requires StackOk(stack)
    ensures
      var entries := NewEntries(stack, b, cfg, now);
      var after := Finalized(stack, b, cfg, now);
      && (forall i | 0 <= i < |entries| :: entries[i].id == Max(stack.nextId, 1) + i)
      && StackOk(after)
      && (forall e | e in after.entries :: e in entries || e in stack.entries)
      && after.nextId == (if entries == [] then stack.nextId else Max(stack.nextId, 1) + |entries|)
      && (entries == [] ==> after == stack)
      && (entries != [] ==> forall e | e in after.entries :: e in entries || Lives(e, now, cfg.entryTtlHours))
  {
    NextIdIsFresh(stack, now, cfg.entryTtlHours);
    PruneThins(stack, now, cfg.entryTtlHours);
    var pruned := Prune(stack, now, cfg.entryTtlHours, STACK_CAP);
    var entries := NewEntries(stack, b, cfg, now);
    ThinnedMeans(pruned.entries, stack.entries);
    FilterIn(stack.entries, (e: ClosedEntry) => Lives(e, now, cfg.entryTtlHours));
    if entries != [] { PushedInFront(entries, pruned.entries, Max(stack.nextId, 1)); }
  }

  /** The new entries, as many as fit, are on top in their own order, and below them is what
      is left of the old stack in its order. */
  lemma FinalizedPutsInFront(stack: ClosedStack, b: Burst, cfg: Config, now: nat)
    ensures
      var entries := NewEntries(stack, b, cfg, now);
      var after := Finalized(stack, b, cfg, now).entries;
      var n := Min(STACK_CAP, |entries|);
      && n <= |after| && after[..n] == entries[..n]
      && Thinned(after[n..], stack.entries)
  {
    var entries := NewEntries(stack, b, cfg, now);
    if entries == [] {
      TakeThins(stack.entries, |stack.entries|);
      assert stack.entries[..|stack.entries|] == stack.entries[0..];
    } else {
      var pruned := Prune(stack, now, cfg.entryTtlHours, STACK_CAP).entries;
      PruneThins(stack, now, cfg.entryTtlHours);
      FrontAndRest(entries, pruned);
      var n := Min(STACK_CAP, |entries|);
      ThinnedTwice(Truncate(entries + pruned, STACK_CAP)[n..], pruned, stack.entries);
    }
  }

  lemma FrontAndRest(entries: seq<ClosedEntry>, rest: seq<ClosedEntry>)
    ensures
      var after := Truncate(entries + rest, STACK_CAP);
      var n := Min(STACK_CAP, |entries|);
      n <= |after| && after[..n] == entries[..n] && Thinned(after[n..], rest)
  {
    var after := Truncate(entries + rest, STACK_CAP);
    var n := Min(STACK_CAP, |entries|);
    assert after[n..] == rest[..|after| - n];
    TakeThins(rest, |after| - n);
  }

  /** Entries with fresh consecutive ids in front of a valid stack, cut to the cap. */
  lemma PushedInFront(entries: seq<ClosedEntry>, rest: seq<ClosedEntry>, next: nat)
    requires next >= 1 && forall i | 0 <= i < |entries| :: entries[i].id == next + i
    requires DistinctIds(rest) && forall e | e in rest :: 1 <= e.id < next
    ensures StackOk(ClosedStack(Truncate(entries + rest, STACK_CAP), next + |entries|))
    ensures forall e | e in Truncate(entries + rest, STACK_CAP) :: e in entries || e in rest
  {
    var all := entries + rest;
    assert forall i | 0 <= i < |rest| :: rest[i] in rest;
    forall i, j | 0 <= i < j < |all| ensures all[i].id != all[j].id {
      if i < |entries| <= j {
        assert all[j] == rest[j - |entries|];
      }
    }
    forall e | e in Truncate(all, STACK_CAP) ensures (e in entries || e in rest) && 1 <= e.id < next + |entries| {
      var k :| 0 <= k < Min(STACK_CAP, |all|) && all[k] == e;
      assert k < |entries| ==> e == entries[k];
    }
  }

  /** An entry leaves the stack only by its age or by the cap. */
  lemma FinalizedLosesOnlyOldOrCapped(stack: ClosedStack, b: Burst, cfg: Config, now: nat, e: ClosedEntry)
    requires StackOk(stack)
    requires e in stack.entries || e in NewEntries(stack, b, cfg, now)
    requires e !in Finalized(stack, b, cfg, now).entries
    ensures !Lives(e, now, cfg.entryTtlHours) || |Finalized(stack, b, cfg, now).entries| == STACK_CAP
  {
    FilterIn(stack.entries, (x: ClosedEntry) => Lives(x, now, cfg.entryTtlHours));
    PruneThins(stack, now, cfg.entryTtlHours);
    var entries := NewEntries(stack, b, cfg, now);
    var pruned := Prune(stack, now, cfg.entryTtlHours, STACK_CAP);
    var all := entries + pruned.entries;
    if |all| <= STACK_CAP {
      assert Truncate(all, STACK_CAP) == all;
    }
  }

  /** Pruning loses exactly the expired entries, and a pop those and the entry it takes. */
  lemma PopLosesOnlyOldAndPicked(cfg: Config, d: Disk, want: Option<nat>, now: nat, e: ClosedEntry)
    requires StackOk(d.closed) && e in d.closed.entries && PopSection(cfg, d, want, now).1.Some?
    ensures
      var (after, picked) := PopSection(cfg, d, want, now);
      && (e in Prune(d.closed, now, cfg.entryTtlHours, STACK_CAP).entries <==> Lives(e, now, cfg.entryTtlHours))
      && (e in after.closed.entries <==> Lives(e, now, cfg.entryTtlHours) && e != picked.value)
  {
    PruneKeepsLiving(d.closed, now, cfg.entryTtlHours, e);
    PruneThins(d.closed, now, cfg.entryTtlHours);
    var pruned := Prune(d.closed, now, cfg.entryTtlHours, STACK_CAP).entries;
    RemovedOnly(pruned, PickIndex(pruned, want).value, e);
  }

  lemma PruneKeepsLiving(stack: ClosedStack, now: nat, hours: nat, e: ClosedEntry)
    requires StackOk(stack) && e in stack.entries
    ensures e in Prune(stack, now, hours, STACK_CAP).entries <==> Lives(e, now, hours)
  {
    FilterIn(stack.entries, (x: ClosedEntry) => Lives(x, now, hours));
    PruneThins(stack, now, hours);
  }

  lemma RemovedOnly(entries: seq<ClosedEntry>, i: nat, e: ClosedEntry)
    requires i < |entries| && DistinctIds(entries)
    ensures e in entries[..i] + entries[i + 1..] <==> e in entries && e != entries[i]
  {
    assert entries == entries[..i] + [entries[i]] + entries[i + 1..];
  }

  /** Putting an entry back loses at most the last entry of a full stack. */
  lemma PushBackLosesOnlyLast(d: Disk, entry: ClosedEntry, e: ClosedEntry)
    requires StackOk(d.closed) && e in d.closed.entries && e !in PushBackSection(d, entry).closed.entries
    ensures |d.closed.entries| == STACK_CAP && e == d.closed.entries[STACK_CAP - 1]
  {
    var all := [entry] + d.closed.entries;
    var k :| 0 <= k < |d.closed.entries| && d.closed.entries[k] == e;
    assert all[k + 1] == e;
    forall j | 0 <= j < Min(STACK_CAP, |all|) ensures all[j] in Truncate(all, STACK_CAP) {
      assert Truncate(all, STACK_CAP)[j] == all[j];
    }
  }

  lemma RemoveAt(entries: seq<ClosedEntry>, i: nat)
    requires i < |entries| && DistinctIds(entries)
    ensures
      var rest := entries[..i] + entries[i + 1..];
      && DistinctIds(rest) && IdSet(rest) == IdSet(entries) - {entries[i].id}
      && (forall e | e in rest :: e in entries)
  {
    var rest := entries[..i] + entries[i + 1..];
    forall k | 0 <= k < |rest| ensures rest[k] == entries[if k < i then k else k + 1] {}
    forall id | id in IdSet(entries) - {entries[i].id} ensures id in IdSet(rest) {
      var k :| 0 <= k < |entries| && entries[k].id == id;
      assert rest[if k < i then k else k - 1].id == id;
    }
  }

  lemma PopTakesOne(cfg: Config, d: Disk, want: Option<nat>, now: nat)
    requires StackOk(d.closed)
    ensures
      var (after, picked) := PopSection(cfg, d, want, now);
      && StackOk(after.closed) && after.pending == d.pending
      && after.closed.nextId == d.closed.nextId
      && (picked.None? ==> after == d)
      && (forall e | e in after.closed.entries :: e in d.closed.entries)
      && (picked.Some? ==> picked.value in d.closed.entries && picked.value.id !in IdSet(after.closed.entries))
  {
    var pruned := Prune(d.closed, now, cfg.entryTtlHours, STACK_CAP).entries;
    assert DistinctIds(pruned) && |pruned| <= STACK_CAP && forall e | e in pruned :: e in d.closed.entries by {
      PruneThins(d.closed, now, cfg.entryTtlHours);
      ThinnedMeans(pruned, d.closed.entries);
    }
    match PickIndex(pruned, want) {
      case None =>
      case Some(i) =>
        RemoveAt(pruned, i);
        assert pruned[i] in pruned;
    }
  }

  /** A pop leaves the other entries in their order. */
  lemma PopThins(cfg: Config, d: Disk, want: Option<nat>, now: nat)
    ensures Thinned(PopSection(cfg, d, want, now).0.closed.entries, d.closed.entries)
  {
    var all := d.closed.entries;
    var pruned := Prune(d.closed, now, cfg.entryTtlHours, STACK_CAP).entries;
    match PickIndex(pruned, want) {
      case None =>
        TakeThins(all, |all|);
        assert all[..|all|] == all;
      case Some(i) =>
        PruneThins(d.closed, now, cfg.entryTtlHours);
        RemoveThins(pruned, i);
        ThinnedTwice(pruned[..i] + pruned[i + 1..], pruned, all);
    }
  }

  lemma PushBackPutsOnTop(d: Disk, entry: ClosedEntry)
    requires StackOk(d.closed) && entry.id !in IdSet(d.closed.entries) && 1 <= entry.id < d.closed.nextId
    ensures
      var after := PushBackSection(d, entry);
      && StackOk(after.closed) && after.pending == d.pending && after.closed.nextId == d.closed.nextId
      && after.closed.entries != [] && after.closed.entries[0] == entry
      && after.closed.entries[1..] <= d.closed.entries && |after.closed.entries| == Min(20, |d.closed.entries| + 1)
      && (forall e | e in after.closed.entries :: e == entry || e in d.closed.entries)
  {
    var all := [entry] + d.closed.entries;
    forall e | e in Truncate(all, STACK_CAP) ensures e in all {
      var k :| 0 <= k < Min(STACK_CAP, |all|) && all[k] == e;
    }
    forall i, j | 0 <= i < j < |all| ensures all[i].id != all[j].id {
      if i == 0 {
        assert d.closed.entries[j - 1].id in IdSet(d.closed.entries);
      }
    }
    assert !OnStack(d.closed, entry.id) by {
      assert forall k | 0 <= k < |d.closed.entries| :: d.closed.entries[k].id in IdSet(d.closed.entries);
    }
  }

  /** An entry whose id is still on the stack is not put there a second time. */
  lemma PushBackOnlyOnce(d: Disk, entry: ClosedEntry)
    requires entry.id in IdSet(d.closed.entries)
    ensures PushBackSection(d, entry) == d
  {
    var k :| 0 <= k < |d.closed.entries| && d.closed.entries[k].id == entry.id;
    assert d.closed.entries[k] in d.closed.entries;
  }

  // ---------------------------------------------------------------- which entry a pop takes

  /** An entry lives for its hours, to the millisecond and without wrapping; no hours is for
      ever. */
  lemma LivesMeans(e: ClosedEntry, now: nat, hours: nat)
    ensures Lives(e, now, hours) <==>
            hours == 0 || now <= e.closedAt + Min(hours * 60 * 60 * 1000, 0xFFFF_FFFF_FFFF_FFFF)
  {
  }

  lemma {:induction false} FilterFirst(s: seq<ClosedEntry>, p: ClosedEntry -> bool) returns (k: nat)
    ensures Filter(s, p) != [] ==>
              k < |s| && s[k] == Filter(s, p)[0] && p(s[k]) && forall j | 0 <= j < k :: !p(s[j])
  {
    k := 0;
    if s != [] {
      var n := |s| - 1;
      k := FilterFirst(s[..n], p);
      if Filter(s[..n], p) == [] {
        FilterIn(s[..n], p);
        assert forall j | 0 <= j < n :: s[j] in s[..n];
        k := n;
      }
    }
  }

  /** Position `k` is the first living entry. */
  predicate FirstLiving(entries: seq<ClosedEntry>, k: nat, now: nat, hours: nat) {
    k < |entries| && Lives(entries[k], now, hours) && forall j | 0 <= j < k :: !Lives(entries[j], now, hours)
  }

  /** A reopen with an id takes the living entry of that id and nothing else; one without an id
      takes the first living entry. */
  lemma PopTakesTheWanted(cfg: Config, d: Disk, want: Option<nat>, now: nat)
    requires StackOk(d.closed)
    ensures
      var picked := PopSection(cfg, d, want, now).1;
      var hours := cfg.entryTtlHours;
      match want
      case Some(id) =>
        && (picked.Some? <==> exists e | e in d.closed.entries :: e.id == id && Lives(e, now, hours))
        && (picked.Some? ==> picked.value.id == id && picked.value in d.closed.entries && Lives(picked.value, now, hours))
      case None =>
        && (picked.Some? <==> exists e | e in d.closed.entries :: Lives(e, now, hours))
        && (picked.Some? ==> exists k | 0 <= k < |d.closed.entries| ::
              d.closed.entries[k] == picked.value && FirstLiving(d.closed.entries, k, now, hours))
  {
    var hours := cfg.entryTtlHours;
    var lives := (e: ClosedEntry) => Lives(e, now, hours);
    PruneThins(d.closed, now, hours);
    var pruned := Prune(d.closed, now, hours, STACK_CAP).entries;
    assert pruned == Filter(d.closed.entries, lives);
    FilterIn(d.closed.entries, lives);
    match want {
      case Some(id) =>
        assert forall k | 0 <= k < |pruned| :: pruned[k] in pruned;
      case None =>
        var k := FilterFirst(d.closed.entries, lives);
        assert pruned != [] ==> pruned[0] in pruned;
    }
  }

  // ---------------------------------------------------------------- who finalises

  /** A hook finalises the pending burst exactly when its own token was written last. */
  lemma OnlyTheLastWriterFinalises(cfg: Config, d: Disk, token: Token, now: nat)
    ensures
      var after := FinaliseSection(cfg, d, token, now);
      if d.pending.Some? && d.pending.value.lastToken == token
      then after == Disk(None, Finalized(d.closed, d.pending.value, cfg, now))
      else after == d
  {
  }

  lemma {:induction false} FilterFull(s: seq<ClosedEntry>, p: ClosedEntry -> bool)
    ensures |Filter(s, p)| <= |s|
    ensures |Filter(s, p)| == |s| ==> Filter(s, p) == s
  {
    if s != [] { FilterFull(s[..|s| - 1], p); }
  }

  predicate SomethingClosed(b: Burst) {
    exists e | e in b.events :: e.name in {PaneClosed, TabClosed, WorkspaceClosed, PaneExited}
  }

  /** A recovery pass takes up the pending burst exactly when its first event is more than five
      seconds old, finalises it if something was closed in it, and leaves the living entries of
      the stack. */
  lemma RecoveryTakesUpOldBursts(cfg: Config, d: Disk, now: nat, later: nat)
    requires StackOk(d.closed)
    ensures
      var after := RecoverSection(cfg, d, now, later);
      var taken := d.pending.Some? && d.pending.value.firstMs + 5_000 < now;
      var stack := if taken && SomethingClosed(d.pending.value) then Finalized(d.closed, d.pending.value, cfg, later)
                   else d.closed;
      && after.pending == (if taken then None else d.pending)
      && after.closed == stack.(entries := Alive(stack.entries, now, cfg.entryTtlHours))
  {
    var taken := d.pending.Some? && d.pending.value.firstMs + 5_000 < now;
    if taken {
      SomethingClosedIff(d.pending.value);
      FinalizedAllocates(d.closed, d.pending.value, cfg, later);
    }
    PrunedIsAlive(if taken && SomethingClosed(d.pending.value) then Finalized(d.closed, d.pending.value, cfg, later)
                  else d.closed, now, cfg.entryTtlHours);
  }

  lemma SomethingClosedIff(b: Burst)
    ensures HasCloseEvent(b) <==> SomethingClosed(b)
  {
    forall e | e in b.events ensures IsCloseEvent(e.name) <==> e.name in {PaneClosed, TabClosed, WorkspaceClosed, PaneExited} {
      CloseEventsAre(e.name);
    }
  }

  /** Rewriting the stack only when pruning shortened it is pruning it. */
  lemma PrunedIsAlive(stack: ClosedStack, now: nat, hours: nat)
    requires StackOk(stack)
    ensures
      var pruned, alive := Prune(stack, now, hours, STACK_CAP), stack.(entries := Alive(stack.entries, now, hours));
      pruned == alive && (|pruned.entries| == |stack.entries| ==> stack == alive)
  {
    PruneThins(stack, now, hours);
    FilterFull(stack.entries, (e: ClosedEntry) => Lives(e, now, hours));
  }
}
