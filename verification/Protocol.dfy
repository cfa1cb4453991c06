/** The whole capture-and-undo protocol as a state machine: short-lived hooks, recovery
    passes and reopens sharing the state files through one lock. Every step is one locked
    section; the laws hold for every interleaving of steps.

    The state is kept in two halves: what the hooks do to the pending burst, and what the
    finalised bursts and the reopens do to the undo stack. */
module Protocol {
  import opened Prelude
  import opened Model
  import opened Bursts
  import opened Stacks
  import opened StackLaws

  type Pid = nat

  datatype Phase = Sleeping | Finished | Crashed

  /** The pending burst and the hooks, with the history of events they leave behind. */
  datatype Capture = Capture(
    pending: Option<Burst>,
    hooks: map<Token, Phase>,
    pushed: multiset<BurstEvent>,
    finalised: seq<Burst>,
    dropped: seq<Burst>)

  /** The undo stack and the running reopens, with the history of entries. */
  datatype Undo = Undo(
    closed: ClosedStack,
    holding: map<Pid, ClosedEntry>,
    issued: map<nat, ClosedEntry>,
    restored: set<nat>,
    lost: set<nat>)

  datatype System = System(capture: Capture, undo: Undo)

  const Initial := System(Capture(None, map[], multiset{}, [], []), Undo(EmptyStack, map[], map[], {}, {}))

  datatype Step =
    | HookPush(token: Token, ev: BurstEvent, frozen: seq<WorkspaceSnap>, now: nat)
    | HookFinalise(token: Token, now: nat)
    | HookCrash(token: Token)
    | Recovery(now: nat, later: nat)
    | Pop(pid: Pid, want: Option<nat>, now: nat)
    | Restored(pid: Pid)
    | PushedBack(pid: Pid)

  predicate Enabled(s: System, step: Step) {
    match step
    case HookPush(token, ev, _, _) => token !in s.capture.hooks && IsCloseEvent(ev.name)
    case HookFinalise(token, _) => token in s.capture.hooks && s.capture.hooks[token].Sleeping?
    case HookCrash(token) => token in s.capture.hooks && s.capture.hooks[token].Sleeping?
    case Recovery(_, _) => true
    case Pop(pid, _, _) => pid !in s.undo.holding
    case Restored(pid) => pid in s.undo.holding
    case PushedBack(pid) => pid in s.undo.holding
  }

  // ---------------------------------------------------------------- one step

  function NextCapture(c: Capture, step: Step): Capture {
    match step
    case HookPush(token, ev, frozen, _) =>
      var r := Push(c.pending, ev, token, frozen);
      Capture(Some(r.burst), c.hooks[token := Sleeping], c.pushed + multiset{ev},
              Retire(c.finalised, r.expired), Retire(c.dropped, r.dropped))
    case HookFinalise(token, _) =>
      var c1 := c.(hooks := c.hooks[token := Finished]);
      if OwnsFinalization(c.pending, token)
      then c1.(pending := None, finalised := c.finalised + [c.pending.value]) else c1
    case HookCrash(token) => c.(hooks := c.hooks[token := Crashed])
    case Recovery(now, _) =>
      if !Abandoned(c.pending, now) then c
      else if HasCloseEvent(c.pending.value)
      then c.(pending := None, finalised := c.finalised + [c.pending.value])
      else c.(pending := None, dropped := c.dropped + [c.pending.value])
    case _ => c
  }

  /** The burst a step hands to inference, with the clock inference reads. */
  function Finalises(c: Capture, step: Step): Option<(Burst, nat)> {
    match step
    case HookPush(token, ev, frozen, now) =>
      var r := Push(c.pending, ev, token, frozen);
      if r.expired.Some? then Some((r.expired.value, now)) else None
    case HookFinalise(token, now) =>
      if OwnsFinalization(c.pending, token) then Some((c.pending.value, now)) else None
    case Recovery(now, later) =>
      if Abandoned(c.pending, now) && HasCloseEvent(c.pending.value) then Some((c.pending.value, later)) else None
    case _ => None
  }

  function Issue(issued: map<nat, ClosedEntry>, entries: seq<ClosedEntry>): map<nat, ClosedEntry> {
    if entries == [] then issued
    else Issue(issued, entries[..|entries| - 1])[entries[|entries| - 1].id := entries[|entries| - 1]]
  }

  /** The stack becomes `after`; `added` holds what was put on it on the way, and whatever is
      on neither list afterwards, other than a picked entry, is lost. */
  function Restack(u: Undo, added: seq<ClosedEntry>, after: ClosedStack, picked: set<nat>): Undo {
    u.(closed := after,
       lost := u.lost + (IdSet(u.closed.entries) + IdSet(added) - IdSet(after.entries) - picked))
  }

  function UndoFinalise(cfg: Config, u: Undo, b: Burst, now: nat): Undo {
    var entries := NewEntries(u.closed, b, cfg, now);
    Restack(u, entries, Finalized(u.closed, b, cfg, now), {}).(issued := Issue(u.issued, entries))
  }

  function UndoPrune(cfg: Config, u: Undo, now: nat): Undo {
    var pruned := Prune(u.closed, now, cfg.entryTtlHours, STACK_CAP);
    if |pruned.entries| != |u.closed.entries| then Restack(u, [], pruned, {}) else u
  }

  function NextUndo(cfg: Config, u: Undo, step: Step, finalises: Option<(Burst, nat)>): Undo
    requires (step.Restored? || step.PushedBack?) ==> step.pid in u.holding
  {
    var u1 := if finalises.Some? then UndoFinalise(cfg, u, finalises.value.0, finalises.value.1) else u;
    match step
    case Recovery(now, _) => UndoPrune(cfg, u1, now)
    case Pop(pid, want, now) =>
      var (after, picked) := PopSection(cfg, Disk(None, u1.closed), want, now);
      if picked.None? then u1
      else Restack(u1, [], after.closed, {picked.value.id}).(holding := u1.holding[pid := picked.value])
    case Restored(pid) => u1.(holding := u1.holding - {pid}, restored := u1.restored + {u1.holding[pid].id})
    case PushedBack(pid) =>
      var after := PushBackSection(Disk(None, u1.closed), u1.holding[pid]);
      Restack(u1, [u1.holding[pid]], after.closed, {}).(holding := u1.holding - {pid})
    case _ => u1
  }

  function Next(cfg: Config, s: System, step: Step): System
    requires Enabled(s, step)
  {
    System(NextCapture(s.capture, step), NextUndo(cfg, s.undo, step, Finalises(s.capture, step)))
  }

  predicate ValidRun(cfg: Config, s: System, run: seq<Step>)
    decreases |run|
  {
    run == [] || (Enabled(s, run[0]) && ValidRun(cfg, Next(cfg, s, run[0]), run[1..]))
  }

  function Exec(cfg: Config, s: System, run: seq<Step>): System
    requires ValidRun(cfg, s, run)
    decreases |run|
  {
    if run == [] then s else Exec(cfg, Next(cfg, s, run[0]), run[1..])
  }

  /** A hook runs its second section at most once, and never after a crash. */
  lemma HookEndsOnce(cfg: Config, s: System, token: Token, now: nat, later: nat)
    requires Enabled(s, HookFinalise(token, now))
    ensures !Enabled(Next(cfg, s, HookFinalise(token, now)), HookFinalise(token, later))
    ensures !Enabled(Next(cfg, s, HookCrash(token)), HookFinalise(token, later))
  {
  }

  // ---------------------------------------------------------------- the files a step writes

  function DiskOf(s: System): Disk {
    Disk(s.capture.pending, s.undo.closed)
  }

  /** The two halves together are the locked sections of the store, file for file. */
  lemma StepIsItsSection(cfg: Config, s: System, step: Step)
    requires Enabled(s, step)
    ensures
      var d, d' := DiskOf(s), DiskOf(Next(cfg, s, step));
      match step
      case HookPush(token, ev, frozen, now) => d' == PushSection(cfg, d, ev, token, frozen, now)
      case HookFinalise(token, now) => d' == FinaliseSection(cfg, d, token, now)
      case HookCrash(_) => d' == d
      case Recovery(now, later) => d' == RecoverSection(cfg, d, now, later)
      case Pop(_, want, now) => d' == PopSection(cfg, d, want, now).0
      case Restored(_) => d' == d
      case PushedBack(pid) => d' == PushBackSection(d, s.undo.holding[pid])
  {
  }

  // ---------------------------------------------------------------- events: exactly once

  /** Every pushed event is in exactly one place: the pending burst, one finalised burst or
      one dropped chain. */
  predicate EventsConserved(c: Capture) {
    c.pushed == EventsOf(c.pending) + AllEvents(c.finalised) + AllEvents(c.dropped)
  }

  /** Every burst a run has retired or still holds. */
  function AllBursts(c: Capture): seq<Burst> {
    Retire(c.finalised + c.dropped, c.pending)
  }

  /** No burst is retired twice: the last tokens of all bursts differ. */
  predicate BurstsDistinct(c: Capture) {
    && (forall i, j | 0 <= i < j < |AllBursts(c)| :: AllBursts(c)[i].lastToken != AllBursts(c)[j].lastToken)
    && (forall i | 0 <= i < |AllBursts(c)| :: AllBursts(c)[i].lastToken in c.hooks)
  }

  /** The pending burst belongs to a hook that has not run its finalise section. */
  predicate Owned(c: Capture) {
    c.pending.Some? ==>
      c.pending.value.lastToken in c.hooks && !c.hooks[c.pending.value.lastToken].Finished?
  }

  predicate Shaped(c: Capture) {
    && PendingShape(c.pending)
    && (forall i | 0 <= i < |c.finalised| :: BurstShape(c.finalised[i]))
    && (forall i | 0 <= i < |c.dropped| :: BurstShape(c.dropped[i]))
  }

  predicate CaptureInv(c: Capture) {
    EventsConserved(c) && BurstsDistinct(c) && Owned(c) && Shaped(c)
  }

  lemma PushConservesEvents(s: System, step: Step)
    requires EventsConserved(s.capture) && Enabled(s, step) && step.HookPush?
    ensures EventsConserved(NextCapture(s.capture, step))
  {
    var c := s.capture;
    var r := Push(c.pending, step.ev, step.token, step.frozen);
    var d := NextCapture(c, step);
    PushConserves(c.pending, step.ev, step.token, step.frozen);
    AllEventsRetire(c.finalised, r.expired);
    AllEventsRetire(c.dropped, r.dropped);
    PushBalances(EventsOf(c.pending), multiset{step.ev}, multiset(r.burst.events), EventsOf(r.expired),
                 EventsOf(r.dropped), AllEvents(c.finalised), AllEvents(c.dropped));
  }

  lemma PushBalances<T>(pending: multiset<T>, one: multiset<T>, burst: multiset<T>, expired: multiset<T>,
                        dropped: multiset<T>, f: multiset<T>, g: multiset<T>)
    requires pending + one == burst + expired + dropped
    ensures (pending + f + g) + one == burst + (f + expired) + (g + dropped)
  {
    calc {
      (pending + f + g) + one;
      (pending + one) + f + g;
      burst + (f + expired) + (g + dropped);
    }
  }

  /** Retiring the pending burst moves its events, all of them, to one history. */
  lemma RetiringConserves(c: Capture, d: Capture)
    requires EventsConserved(c) && d.pushed == c.pushed
    requires
      || (d.pending == c.pending && d.finalised == c.finalised && d.dropped == c.dropped)
      || (c.pending.Some? && d.pending.None? && d.finalised == c.finalised + [c.pending.value] && d.dropped == c.dropped)
      || (c.pending.Some? && d.pending.None? && d.finalised == c.finalised && d.dropped == c.dropped + [c.pending.value])
    ensures EventsConserved(d)
  {
    AllEventsRetire(c.finalised, c.pending);
    AllEventsRetire(c.dropped, c.pending);
    MovesOver(EventsOf(c.pending), AllEvents(c.finalised), AllEvents(c.dropped));
  }

  lemma MovesOver<T>(pending: multiset<T>, f: multiset<T>, g: multiset<T>)
    ensures pending + f + g == multiset{} + (f + pending) + g
    ensures pending + f + g == multiset{} + f + (g + pending)
  {
  }

  lemma StepConservesEvents(s: System, step: Step)
    requires EventsConserved(s.capture) && Enabled(s, step)
    ensures EventsConserved(NextCapture(s.capture, step))
  {
    if step.HookPush? {
      PushConservesEvents(s, step);
    } else {
      RetiringConserves(s.capture, NextCapture(s.capture, step));
    }
  }

  lemma StepKeepsShape(s: System, step: Step)
    requires Shaped(s.capture) && Enabled(s, step)
    ensures Shaped(NextCapture(s.capture, step))
  {
    if step.HookPush? {
      PushKeepsShape(s.capture.pending, step.ev, step.token, step.frozen);
    }
  }

  /** After a step the pending burst is the old one, or none, or one whose last token is
      new; a burst that stops pending goes to exactly one of the two histories, unless the
      new event joined it. */
  predicate Handover(c: Capture, d: Capture) {
    && (d.pending.Some? && d.pending != c.pending ==>
          d.pending.value.lastToken !in c.hooks && d.pending.value.lastToken in d.hooks)
    && (forall t | t in c.hooks :: t in d.hooks)
    && (|| (d.finalised == c.finalised && d.dropped == c.dropped)
        || (&& c.pending.Some? && c.pending != d.pending
            && d.finalised == c.finalised + [c.pending.value] && d.dropped == c.dropped)
        || (&& c.pending.Some? && c.pending != d.pending
            && d.finalised == c.finalised && d.dropped == c.dropped + [c.pending.value]))
  }

  lemma HandoverKeepsDistinct(c: Capture, d: Capture)
    requires BurstsDistinct(c) && Handover(c, d)
    ensures BurstsDistinct(d)
  {
    var a, b := AllBursts(c), AllBursts(d);
    var f, g := |c.finalised|, |c.finalised| + |c.dropped|;
    if |d.finalised| == f && |d.dropped| == |c.dropped| {
      assert forall i | 0 <= i < g :: b[i] == a[i];
    } else if |d.finalised| == f {
      assert forall i | 0 <= i < g + 1 :: b[i] == a[i];
    } else {
      FinalisedLast(c, d);
      MovedLast(a, b, f, g);
    }
  }

  lemma FinalisedLast(c: Capture, d: Capture)
    requires c.pending.Some? && d.finalised == c.finalised + [c.pending.value] && d.dropped == c.dropped
    ensures
      var f, g := |c.finalised|, |c.finalised| + |c.dropped|;
      && |AllBursts(c)| == g + 1 <= |AllBursts(d)|
      && forall i | 0 <= i < g + 1 :: AllBursts(d)[i] == AllBursts(c)[LastTo(f, g, i)]
  {
  }

  /** The place in a list of `g + 1` of what stands at `i` once the last has moved to `f`. */
  function LastTo(f: nat, g: nat, i: nat): nat {
    if i < f then i else if i == f then g else i - 1
  }

  lemma MovedLast(a: seq<Burst>, b: seq<Burst>, f: nat, g: nat)
    requires f <= g && |a| == g + 1 && |b| >= g + 1
    requires forall i | 0 <= i < g + 1 :: b[i] == a[LastTo(f, g, i)]
    requires forall i, j | 0 <= i < j < |a| :: a[i].lastToken != a[j].lastToken
    ensures forall i, j | 0 <= i < j < g + 1 :: b[i].lastToken != b[j].lastToken
  {
    forall i, j | 0 <= i < j < g + 1 ensures b[i].lastToken != b[j].lastToken {
      var x, y := LastTo(f, g, i), LastTo(f, g, j);
      assert x != y && x < |a| && y < |a|;
      assert b[i] == a[x] && b[j] == a[y];
    }
  }

  lemma StepHandsOver(s: System, step: Step)
    requires BurstsDistinct(s.capture) && Owned(s.capture) && Enabled(s, step)
    ensures Handover(s.capture, NextCapture(s.capture, step))
    ensures Owned(NextCapture(s.capture, step))
  {
  }

  lemma StepKeepsCapture(s: System, step: Step)
    requires CaptureInv(s.capture) && Enabled(s, step)
    ensures CaptureInv(NextCapture(s.capture, step))
  {
    StepConservesEvents(s, step);
    StepKeepsShape(s, step);
    StepHandsOver(s, step);
    HandoverKeepsDistinct(s.capture, NextCapture(s.capture, step));
  }

  // ---------------------------------------------------------------- entries: conservation

  function StackIds(u: Undo): set<nat> {
    IdSet(u.closed.entries)
  }

  function HeldIds(u: Undo): set<nat> {
    set pid | pid in u.holding :: u.holding[pid].id
  }

  /** Every id ever issued is in exactly one place. */
  predicate IdsConserved(u: Undo) {
    && u.issued.Keys == StackIds(u) + HeldIds(u) + u.restored + u.lost
    && StackIds(u) !! HeldIds(u) !! u.restored !! u.lost
    && (forall p, q | p in u.holding && q in u.holding && p != q :: u.holding[p].id != u.holding[q].id)
  }

  /** The entry an id names is the one it was issued for. */
  predicate EntriesIntact(u: Undo) {
    && NamesIntact(u.issued, u.closed.entries)
    && (forall p | p in u.holding :: u.holding[p].id in u.issued && u.issued[u.holding[p].id] == u.holding[p])
  }

  predicate UndoInv(u: Undo) {
    && StackOk(u.closed)
    && IdsConserved(u)
    && EntriesIntact(u)
    && (forall id | id in u.issued :: 1 <= id < u.closed.nextId)
  }

  predicate Consecutive(entries: seq<ClosedEntry>, next: nat) {
    forall i | 0 <= i < |entries| :: entries[i].id == next + i
  }

  lemma IssueKeys(issued: map<nat, ClosedEntry>, entries: seq<ClosedEntry>)
    ensures Issue(issued, entries).Keys == issued.Keys + IdSet(entries)
  {
    if entries != [] {
      var n := |entries| - 1;
      IssueKeys(issued, entries[..n]);
      assert IdSet(entries) == IdSet(entries[..n]) + {entries[n].id};
    }
  }

  lemma IssueLooksUp(issued: map<nat, ClosedEntry>, entries: seq<ClosedEntry>, next: nat, id: nat)
    requires Consecutive(entries, next)
    requires id in issued || next <= id < next + |entries|
    ensures id in Issue(issued, entries)
    ensures Issue(issued, entries)[id] == if next <= id < next + |entries| then entries[id - next] else issued[id]
  {
    if entries != [] {
      var n := |entries| - 1;
      if id != next + n { IssueLooksUp(issued, entries[..n], next, id); }
    }
  }

  // Each of the ways the stack can change keeps the books.

  predicate NamesIntact(issued: map<nat, ClosedEntry>, entries: seq<ClosedEntry>) {
    forall e | e in entries :: e.id in issued && issued[e.id] == e
  }

  lemma IssueNames(issued: map<nat, ClosedEntry>, entries: seq<ClosedEntry>, next: nat, others: seq<ClosedEntry>)
    requires Consecutive(entries, next) && NamesIntact(issued, others)
    requires forall id | id in issued :: id < next
    ensures NamesIntact(Issue(issued, entries), entries) && NamesIntact(Issue(issued, entries), others)
    ensures forall id | id in issued :: id in Issue(issued, entries) && Issue(issued, entries)[id] == issued[id]
  {
    forall id | id in issued ensures id in Issue(issued, entries) && Issue(issued, entries)[id] == issued[id] {
      IssueLooksUp(issued, entries, next, id);
    }
    forall e | e in entries ensures e.id in Issue(issued, entries) && Issue(issued, entries)[e.id] == e {
      var i :| 0 <= i < |entries| && entries[i] == e;
      IssueLooksUp(issued, entries, next, next + i);
    }
  }

  /** The books balance when new ids are fresh and nothing reaches the stack from elsewhere. */
  lemma RestackBalances(u: Undo, added: seq<ClosedEntry>, after: ClosedStack, picked: set<nat>, issued: map<nat, ClosedEntry>)
    requires IdsConserved(u)
    requires issued.Keys == u.issued.Keys + IdSet(added)
    requires IdSet(added) !! u.issued.Keys
    requires IdSet(after.entries) <= StackIds(u) + IdSet(added) && picked <= StackIds(u) && picked !! IdSet(after.entries)
    ensures
      var v := Restack(u, added, after, picked).(issued := issued);
      && v.issued.Keys == StackIds(v) + HeldIds(v) + v.restored + v.lost + picked
      && StackIds(v) !! HeldIds(v) !! v.restored !! v.lost !! picked
  {
  }

  lemma FinaliseKeepsUndo(cfg: Config, u: Undo, b: Burst, now: nat)
    requires UndoInv(u)
    ensures UndoInv(UndoFinalise(cfg, u, b, now))
  {
    var entries := NewEntries(u.closed, b, cfg, now);
    var after := Finalized(u.closed, b, cfg, now);
    var next := Max(u.closed.nextId, 1);
    FinalizedAllocates(u.closed, b, cfg, now);
    IssueKeys(u.issued, entries);
    IssueNames(u.issued, entries, next, u.closed.entries);
    AfterIds(u.closed.entries, entries, after.entries);
    RestackBalances(u, entries, after, {}, Issue(u.issued, entries));
    assert NamesIntact(Issue(u.issued, entries), after.entries);
  }

  lemma AfterIds(before: seq<ClosedEntry>, added: seq<ClosedEntry>, after: seq<ClosedEntry>)
    requires forall e | e in after :: e in added || e in before
    ensures IdSet(after) <= IdSet(before) + IdSet(added)
  {
    forall i | 0 <= i < |after| ensures after[i].id in IdSet(before) + IdSet(added) {
      assert after[i] in after;
      if after[i] in added {
        var k :| 0 <= k < |added| && added[k] == after[i];
        assert added[k].id in IdSet(added);
      } else {
        var k :| 0 <= k < |before| && before[k] == after[i];
        assert before[k].id in IdSet(before);
      }
    }
  }

  lemma PruneKeepsUndo(cfg: Config, u: Undo, now: nat)
    requires UndoInv(u)
    ensures UndoInv(UndoPrune(cfg, u, now))
  {
    PruneThins(u.closed, now, cfg.entryTtlHours);
    var after := Prune(u.closed, now, cfg.entryTtlHours, STACK_CAP);
    AfterIds(u.closed.entries, [], after.entries);
    RestackBalances(u, [], after, {}, u.issued);
  }

  lemma HoldOne(u: Undo, pid: Pid, e: ClosedEntry, v: Undo)
    requires pid !in u.holding
    ensures v.holding == u.holding[pid := e] ==> HeldIds(v) == HeldIds(u) + {e.id}
  {
    if v.holding == u.holding[pid := e] {
      assert forall p | p in u.holding :: v.holding[p] == u.holding[p];
      assert v.holding[pid] == e;
    }
  }

  /** Taking `e` off the stack into the hands of `pid`, other entries of the stack lost. */
  lemma TakingKeepsUndo(u: Undo, pid: Pid, e: ClosedEntry, after: ClosedStack)
    requires UndoInv(u) && pid !in u.holding && e in u.closed.entries
    requires StackOk(after) && after.nextId == u.closed.nextId && e.id !in IdSet(after.entries)
    requires forall x | x in after.entries :: x in u.closed.entries
    ensures UndoInv(Restack(u, [], after, {e.id}).(holding := u.holding[pid := e]))
  {
    var k :| 0 <= k < |u.closed.entries| && u.closed.entries[k] == e;
    assert u.closed.entries[k].id in StackIds(u);
    AfterIds(u.closed.entries, [], after.entries);
    RestackBalances(u, [], after, {e.id}, u.issued);
    var v := Restack(u, [], after, {e.id}).(holding := u.holding[pid := e]);
    HoldOne(u, pid, e, v);
    assert IdsConserved(v);
    assert EntriesIntact(v);
  }

  lemma PopKeepsUndo(cfg: Config, u: Undo, step: Step)
    requires UndoInv(u) && step.Pop? && step.pid !in u.holding
    ensures UndoInv(NextUndo(cfg, u, step, None))
  {
    var (after, picked) := PopSection(cfg, Disk(None, u.closed), step.want, step.now);
    PopTakesOne(cfg, Disk(None, u.closed), step.want, step.now);
    if picked.Some? {
      TakingKeepsUndo(u, step.pid, picked.value, after.closed);
    }
  }

  lemma ReleaseHeld(u: Undo, pid: Pid, v: Undo)
    requires IdsConserved(u) && pid in u.holding
    ensures v.holding == u.holding - {pid} ==> HeldIds(v) == HeldIds(u) - {u.holding[pid].id}
  {
    if v.holding == u.holding - {pid} {
      forall id | id in HeldIds(u) && id != u.holding[pid].id ensures id in HeldIds(v) {
        var p :| p in u.holding && u.holding[p].id == id;
        assert p in v.holding;
      }
    }
  }

  /** `push_back` never meets an entry with the same id: the popped entry always goes back
      on top of the stack. */
  lemma PushBackIsNeverRefused(u: Undo, pid: Pid)
    requires UndoInv(u) && pid in u.holding
    ensures !OnStack(u.closed, u.holding[pid].id)
    ensures
      var after := PushBackSection(Disk(None, u.closed), u.holding[pid]).closed;
      after.entries != [] && after.entries[0] == u.holding[pid] && StackOk(after)
  {
    var e := u.holding[pid];
    assert e.id in HeldIds(u);
    PushBackPutsOnTop(Disk(None, u.closed), e);
    assert forall k | 0 <= k < |u.closed.entries| :: u.closed.entries[k].id in StackIds(u);
  }

  lemma PushBackKeepsUndo(cfg: Config, u: Undo, step: Step)
    requires UndoInv(u) && step.PushedBack? && step.pid in u.holding
    ensures UndoInv(NextUndo(cfg, u, step, None))
  {
    var e := u.holding[step.pid];
    var after := PushBackSection(Disk(None, u.closed), e).closed;
    assert e.id in HeldIds(u);
    PushBackPutsOnTop(Disk(None, u.closed), e);
    ReturningKeepsUndo(u, step.pid, after);
  }

  lemma ReturnBalances(stack: set<nat>, held: set<nat>, restored: set<nat>, lost: set<nat>, e: nat, after: set<nat>)
    requires stack !! held !! restored !! lost && e in held && after <= stack + {e}
    ensures
      var lost' := lost + (stack + {e} - after);
      && stack + held + restored + lost == after + (held - {e}) + restored + lost'
      && after !! (held - {e}) !! restored !! lost'
  {
  }

  /** Putting the held entry on the stack, other entries of the stack lost. */
  lemma ReturningKeepsUndo(u: Undo, pid: Pid, after: ClosedStack)
    requires UndoInv(u) && pid in u.holding
    requires StackOk(after) && after.nextId == u.closed.nextId
    requires forall x | x in after.entries :: x == u.holding[pid] || x in u.closed.entries
    ensures UndoInv(Restack(u, [u.holding[pid]], after, {}).(holding := u.holding - {pid}))
  {
    var e := u.holding[pid];
    assert e.id in HeldIds(u);
    AfterIds(u.closed.entries, [e], after.entries);
    var v := Restack(u, [e], after, {}).(holding := u.holding - {pid});
    ReleaseHeld(u, pid, v);
    assert IdSet([e]) == {e.id} by { assert [e][0].id in IdSet([e]); }
    ReturnBalances(StackIds(u), HeldIds(u), u.restored, u.lost, e.id, IdSet(after.entries));
    assert v.lost == u.lost + (StackIds(u) + {e.id} - IdSet(after.entries));
    assert forall p | p in v.holding :: p in u.holding && v.holding[p] == u.holding[p];
  }

  lemma RestoredKeepsUndo(cfg: Config, u: Undo, step: Step)
    requires UndoInv(u) && step.Restored? && step.pid in u.holding
    ensures UndoInv(NextUndo(cfg, u, step, None))
  {
    assert u.holding[step.pid].id in HeldIds(u);
    ReleaseHeld(u, step.pid, NextUndo(cfg, u, step, None));
  }

  lemma StepKeepsUndo(cfg: Config, s: System, step: Step)
    requires UndoInv(s.undo) && Enabled(s, step)
    ensures UndoInv(NextUndo(cfg, s.undo, step, Finalises(s.capture, step)))
  {
    var f := Finalises(s.capture, step);
    if f.Some? { FinaliseKeepsUndo(cfg, s.undo, f.value.0, f.value.1); }
    match step {
      case Pop(_, _, _) => PopKeepsUndo(cfg, s.undo, step);
      case Restored(_) => RestoredKeepsUndo(cfg, s.undo, step);
      case PushedBack(_) => PushBackKeepsUndo(cfg, s.undo, step);
      case Recovery(now, _) =>
        PruneKeepsUndo(cfg, if f.Some? then UndoFinalise(cfg, s.undo, f.value.0, f.value.1) else s.undo, now);
      case _ =>
    }
  }
}
