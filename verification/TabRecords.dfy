/** The index a recorded tab carries: neither bursts nor inference lose it, so the index an
    entry stores is the tab's place among its neighbours. */
module TabRecords {
  import opened Model
  import opened Bursts
  import opened Inference
  import opened InferenceLaws
  import opened Protocol
  import opened TabIndices

  predicate WellTabbedBursts(c: Capture) {
    && (c.pending.Some? ==> AllWellTabbed(c.pending.value.frozen))
    && (forall b | b in c.finalised :: AllWellTabbed(b.frozen))
  }

  lemma StepKeepsBursts(s: System, step: Step)
    requires WellTabbedBursts(s.capture) && Enabled(s, step) && (step.HookPush? ==> AllWellTabbed(step.frozen))
    ensures WellTabbedBursts(NextCapture(s.capture, step))
  {
    if step.HookPush? {
      var pending := s.capture.pending;
      PushMerges(pending, step.ev, step.token, step.frozen);
      MergedFreezesAreWellTabbed(FrozenOf(Target(pending, step.ev.t0)), step.frozen);
    }
  }

  lemma {:induction false} RunKeepsBursts(cfg: Config, s: System, run: seq<Step>)
    requires WellTabbedBursts(s.capture) && ValidRun(cfg, s, run)
    requires forall i | 0 <= i < |run| && run[i].HookPush? :: AllWellTabbed(run[i].frozen)
    ensures WellTabbedBursts(Exec(cfg, s, run).capture)
    decreases |run|
  {
    if run != [] {
      assert forall i | 0 <= i < |run[1..]| :: run[1..][i] == run[i + 1];
      StepKeepsBursts(s, run[0]);
      RunKeepsBursts(cfg, Next(cfg, s, run[0]), run[1..]);
    }
  }

  /** Over every interleaving whose hooks freeze such snapshots, every workspace that a
      finalised burst records whole stores its tabs' positions. */
  lemma RecordedWorkspacesAreWellTabbed(cfg: Config, run: seq<Step>, b: Burst)
    requires ValidRun(cfg, Initial, run) && b in Exec(cfg, Initial, run).capture.finalised
    requires forall i | 0 <= i < |run| && run[i].HookPush? :: AllWellTabbed(run[i].frozen)
    ensures AllWellTabbed(ClosedSnaps(b.frozen, WorkspaceCloses(b.events)))
  {
    RunKeepsBursts(cfg, Initial, run);
    ClosedSnapsKeepTabs(b.frozen, WorkspaceCloses(b.events));
    forall w | w in ClosedSnaps(b.frozen, WorkspaceCloses(b.events)) ensures WellTabbed(w.tabs) {
      FindWorkspaceInIff(b.frozen, w.workspaceId);
    }
  }
}
