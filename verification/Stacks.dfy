/** The undo stack as an allocator, and the locked sections that read and write the two
    state files of the capture path: the pending burst and the closed stack. */
module Stacks {
  import opened Prelude
  import opened Model
  import opened Bursts
  import opened Inference

  const U64_MAX: nat := 0xFFFF_FFFF_FFFF_FFFF

  /** `ttl_hours.saturating_mul(3_600_000)`; zero means entries never expire. */
  function TtlMs(hours: nat): nat {
    Min(hours * 3_600_000, U64_MAX)
  }

  predicate Lives(e: ClosedEntry, now: nat, hours: nat) {
    TtlMs(hours) == 0 || SatSub(now, e.closedAt) <= TtlMs(hours)
  }

  function Alive(entries: seq<ClosedEntry>, now: nat, hours: nat): seq<ClosedEntry> {
    Filter(entries, (e: ClosedEntry) => Lives(e, now, hours))
  }

  function Prune(stack: ClosedStack, now: nat, hours: nat, cap: nat): ClosedStack {
    stack.(entries := Truncate(Alive(stack.entries, now, hours), cap))
  }

  function MaxId(entries: seq<ClosedEntry>): nat {
    if entries == [] then 0 else Max(MaxId(entries[..|entries| - 1]), entries[|entries| - 1].id)
  }

  function NextEntryId(stack: ClosedStack): nat {
    Max(Max(MaxId(stack.entries) + 1, stack.nextId), 1)
  }

  /** The entries a burst adds and the stack that `finalize_locked` leaves on disk. */
  function NewEntries(stack: ClosedStack, b: Burst, cfg: Config, now: nat): seq<ClosedEntry> {
    var pruned := Prune(stack, now, cfg.entryTtlHours, STACK_CAP);
    Inferred(b, cfg.captureExited, NextEntryId(pruned), EXPECTED_PROTOCOL)
  }

  function Finalized(stack: ClosedStack, b: Burst, cfg: Config, now: nat): ClosedStack {
    var pruned := Prune(stack, now, cfg.entryTtlHours, STACK_CAP);
    var entries := NewEntries(stack, b, cfg, now);
    if entries == [] then stack
    else ClosedStack(Truncate(entries + pruned.entries, STACK_CAP), NextEntryId(pruned) + |entries|)
  }

  lemma MaxIdNumbered(drafts: seq<ClosedEntry>, next: nat)
    requires drafts != []
    ensures MaxId(Renumber(drafts, next)) == next + |drafts| - 1
  {
    var out := Renumber(drafts, next);
    if |drafts| > 1 {
      MaxIdNumbered(drafts[..|drafts| - 1], next);
      assert out[..|out| - 1] == Renumber(drafts[..|drafts| - 1], next);
    } else {
      assert out[..0] == [];
    }
  }

  // ---------------------------------------------------------------- locked sections

  datatype Disk = Disk(pending: Option<Burst>, closed: ClosedStack)

  /** First locked section of the close hook. */
  function PushSection(cfg: Config, d: Disk, ev: BurstEvent, token: Token, frozen: seq<WorkspaceSnap>, now: nat): Disk {
    var r := Push(d.pending, ev, token, frozen);
    Disk(Some(r.burst),
         if r.expired.Some? then Finalized(d.closed, r.expired.value, cfg, now) else d.closed)
  }

  /** Second locked section of the close hook. */
  function FinaliseSection(cfg: Config, d: Disk, token: Token, now: nat): Disk {
    if OwnsFinalization(d.pending, token) then Disk(None, Finalized(d.closed, d.pending.value, cfg, now))
    else d
  }

  predicate Abandoned(pending: Option<Burst>, now: nat) {
    pending.Some? && SatSub(now, pending.value.firstMs) > BURST_STALE_MS
  }

  predicate HasCloseEvent(b: Burst) {
    exists e | e in b.events :: IsCloseEvent(e.name)
  }

  /** Recovery of the capture files: `now` is its own clock, `later` the one that
      finalisation reads. */
  function RecoverSection(cfg: Config, d: Disk, now: nat, later: nat): Disk {
    var d1 :=
      if !Abandoned(d.pending, now) then d
      else Disk(None, if HasCloseEvent(d.pending.value) then Finalized(d.closed, d.pending.value, cfg, later) else d.closed);
    var pruned := Prune(d1.closed, now, cfg.entryTtlHours, STACK_CAP);
    if |pruned.entries| != |d1.closed.entries| then d1.(closed := pruned) else d1
  }

  function PositionOf(entries: seq<ClosedEntry>, id: nat): (r: Option<nat>)
    ensures r.Some? ==> r.value < |entries| && entries[r.value].id == id
    ensures r.None? <==> forall i | 0 <= i < |entries| :: entries[i].id != id
  {
    if entries == [] then None
    else if entries[0].id == id then Some(0)
    else
      var rest := PositionOf(entries[1..], id);
      if rest.Some? then Some(rest.value + 1) else None
  }

  function PickIndex(entries: seq<ClosedEntry>, want: Option<nat>): (r: Option<nat>)
    ensures r.Some? ==> r.value < |entries|
  {
    if want.Some? then PositionOf(entries, want.value)
    else if entries != [] then Some(0) else None
  }

  /** The pop of `reopen`: the pruned stack without the picked entry, or nothing at all. */
  function PopSection(cfg: Config, d: Disk, want: Option<nat>, now: nat): (Disk, Option<ClosedEntry>) {
    var pruned := Prune(d.closed, now, cfg.entryTtlHours, STACK_CAP);
    match PickIndex(pruned.entries, want)
    case None => (d, None)
    case Some(i) =>
      (d.(closed := pruned.(entries := pruned.entries[..i] + pruned.entries[i + 1..])), Some(pruned.entries[i]))
  }

  predicate OnStack(stack: ClosedStack, id: nat) {
    exists e | e in stack.entries :: e.id == id
  }

  function PushBackSection(d: Disk, entry: ClosedEntry): Disk {
    if OnStack(d.closed, entry.id) then d
    else d.(closed := d.closed.(entries := Truncate([entry] + d.closed.entries, STACK_CAP)))
  }
}
