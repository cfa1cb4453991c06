/** Whole runs of the protocol machine: what holds in every state any interleaving reaches. */
module Runs {
  import opened Model
  import opened Bursts
  import opened Stacks
  import opened StackLaws
  import opened Protocol

  lemma {:induction false} RunsCompose(cfg: Config, s: System, a: seq<Step>, b: seq<Step>)
    ensures ValidRun(cfg, s, a + b) <==> ValidRun(cfg, s, a) && ValidRun(cfg, Exec(cfg, s, a), b)
    ensures ValidRun(cfg, s, a + b) ==> Exec(cfg, s, a + b) == Exec(cfg, Exec(cfg, s, a), b)
    decreases |a|
  {
    if a == [] {
      assert a + b == b;
    } else {
      assert (a + b)[0] == a[0] && (a + b)[1..] == a[1..] + b;
      if Enabled(s, a[0]) { RunsCompose(cfg, Next(cfg, s, a[0]), a[1..], b); }
    }
  }

  lemma OneStep(cfg: Config, s: System, step: Step)
    ensures ValidRun(cfg, s, [step]) <==> Enabled(s, step)
    ensures Enabled(s, step) ==> Exec(cfg, s, [step]) == Next(cfg, s, step)
  {
    assert [step][1..] == [];
    if Enabled(s, step) { assert ValidRun(cfg, Next(cfg, s, step), []); }
  }

  // ---------------------------------------------------------------- whole runs

  predicate SystemInv(s: System) {
    CaptureInv(s.capture) && UndoInv(s.undo)
  }

  lemma {:induction false} RunKeepsInv(cfg: Config, s: System, run: seq<Step>)
    requires SystemInv(s) && ValidRun(cfg, s, run)
    ensures SystemInv(Exec(cfg, s, run))
    decreases |run|
  {
    if run != [] {
      StepKeepsCapture(s, run[0]);
      StepKeepsUndo(cfg, s, run[0]);
      RunKeepsInv(cfg, Next(cfg, s, run[0]), run[1..]);
    }
  }

  lemma InitialInv()
    ensures SystemInv(Initial)
  {
    assert AllBursts(Initial.capture) == [];
  }

  /** Exactly once, in every state of every run, crashes of sleeping hooks included: each
      pushed close event is in exactly one of the pending burst, the finalised bursts and
      the dropped chains; no burst is retired twice; and a burst recovery finds always has
      a close event, so recovery never drops one. */
  lemma ExactlyOnce(cfg: Config, run: seq<Step>)
    requires ValidRun(cfg, Initial, run)
    ensures
      var c := Exec(cfg, Initial, run).capture;
      && EventsConserved(c)
      && BurstsDistinct(c)
      && Shaped(c)
      && (c.pending.Some? ==> HasCloseEvent(c.pending.value))
  {
    InitialInv();
    RunKeepsInv(cfg, Initial, run);
    var c := Exec(cfg, Initial, run).capture;
    if c.pending.Some? {
      assert c.pending.value.events[0] in c.pending.value.events;
    }
  }

  /** No orphan: a pending burst always has an owner that still has to run its finalise
      section, unless that owner crashed. Once every hook has finished, nothing is pending. */
  lemma NoOrphanedBurst(cfg: Config, run: seq<Step>)
    requires ValidRun(cfg, Initial, run)
    ensures
      var c := Exec(cfg, Initial, run).capture;
      && (c.pending.Some? ==> exists t | t in c.hooks :: t == c.pending.value.lastToken && !c.hooks[t].Finished?)
      && ((forall t | t in c.hooks :: c.hooks[t].Finished?) ==>
            c.pending.None? && c.pushed == AllEvents(c.finalised) + AllEvents(c.dropped))
  {
    InitialInv();
    RunKeepsInv(cfg, Initial, run);
  }

  predicate NoneCrashed(c: Capture) {
    forall t | t in c.hooks :: !c.hooks[t].Crashed?
  }

  lemma NoCrashStep(s: System, step: Step)
    requires Enabled(s, step) && !step.HookCrash? && NoneCrashed(s.capture)
    ensures NoneCrashed(NextCapture(s.capture, step))
  {
  }

  lemma {:induction false} NoCrashSteps(cfg: Config, s: System, run: seq<Step>)
    requires ValidRun(cfg, s, run)
    requires forall i | 0 <= i < |run| :: !run[i].HookCrash?
    requires NoneCrashed(s.capture)
    ensures NoneCrashed(Exec(cfg, s, run).capture)
    decreases |run|
  {
    if run != [] {
      assert forall i | 0 <= i < |run[1..]| :: run[1..][i] == run[i + 1];
      NoCrashStep(s, run[0]);
      NoCrashSteps(cfg, Next(cfg, s, run[0]), run[1..]);
    }
  }

  /** Without crashes the owner of the pending burst is asleep and will finalise it: its own
      finalise section is enabled and retires exactly that burst. */
  lemma OwnerFinalises(cfg: Config, run: seq<Step>, now: nat)
    requires ValidRun(cfg, Initial, run)
    requires forall i | 0 <= i < |run| :: !run[i].HookCrash?
    requires Exec(cfg, Initial, run).capture.pending.Some?
    ensures
      var s := Exec(cfg, Initial, run);
      var owner := HookFinalise(s.capture.pending.value.lastToken, now);
      && Enabled(s, owner)
      && Next(cfg, s, owner).capture.pending.None?
      && Next(cfg, s, owner).capture.finalised == s.capture.finalised + [s.capture.pending.value]
  {
    InitialInv();
    RunKeepsInv(cfg, Initial, run);
    NoCrashSteps(cfg, Initial, run);
    var c := Exec(cfg, Initial, run).capture;
    assert c.hooks[c.pending.value.lastToken].Sleeping?;
  }

  /** A burst whose owner crashed is picked up whole by the first later event outside its
      window, and by a recovery pass once it is five seconds old. */
  lemma AbandonedBurstIsPickedUp(cfg: Config, s: System, token: Token, ev: BurstEvent,
                                 frozen: seq<WorkspaceSnap>, now: nat, later: nat)
    requires SystemInv(s) && s.capture.pending.Some?
    requires token !in s.capture.hooks && IsCloseEvent(ev.name)
    ensures
      var b := s.capture.pending.value;
      && (b.lastMs + BURST_WINDOW_MS < ev.t0 ==>
            Next(cfg, s, HookPush(token, ev, frozen, now)).capture.finalised == s.capture.finalised + [b])
      && (b.firstMs + BURST_STALE_MS < now ==>
            && Next(cfg, s, Recovery(now, later)).capture.finalised == s.capture.finalised + [b]
            && Next(cfg, s, Recovery(now, later)).capture.pending.None?)
  {
    var b := s.capture.pending.value;
    assert b.events[0] in b.events && HasCloseEvent(b);
    var pushed := NextCapture(s.capture, HookPush(token, ev, frozen, now));
    assert b.lastMs + BURST_WINDOW_MS < ev.t0 ==> pushed.finalised == s.capture.finalised + [b];
    assert Enabled(s, HookPush(token, ev, frozen, now)) && Enabled(s, Recovery(now, later));
  }

  /** Undo entries are conserved over every run: the ids ever issued are the disjoint union
      of those on the stack, held by a running reopen, restored, and lost to age or the cap;
      two reopens never hold the same entry; and an id always names the entry it was issued
      for. */
  lemma EntriesConserved(cfg: Config, run: seq<Step>)
    requires ValidRun(cfg, Initial, run)
    ensures
      var u := Exec(cfg, Initial, run).undo;
      && IdsConserved(u) && EntriesIntact(u) && StackOk(u.closed)
      && (forall pid | pid in u.holding :: !OnStack(u.closed, u.holding[pid].id))
  {
    InitialInv();
    RunKeepsInv(cfg, Initial, run);
    var u := Exec(cfg, Initial, run).undo;
    forall pid | pid in u.holding ensures !OnStack(u.closed, u.holding[pid].id) {
      PushBackIsNeverRefused(u, pid);
    }
  }

  /** Whatever a run did before, even if the stack has emptied since, the ids the next
      finalisation issues were never issued before. */
  lemma IdsAreNeverReused(cfg: Config, run: seq<Step>, b: Burst, now: nat)
    requires ValidRun(cfg, Initial, run)
    ensures
      var u := Exec(cfg, Initial, run).undo;
      var entries := NewEntries(u.closed, b, cfg, now);
      forall i | 0 <= i < |entries| :: entries[i].id >= 1 && entries[i].id !in u.issued
  {
    InitialInv();
    RunKeepsInv(cfg, Initial, run);
    FinalizedAllocates(Exec(cfg, Initial, run).undo.closed, b, cfg, now);
  }
}
