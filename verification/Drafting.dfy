/** What inference makes of a list of bursts, before ids are given out. */
module Drafting {
  import opened Prelude
  import opened Model
  import opened Inference
  import opened Stacks
  import opened StackLaws

  function DraftsOf(cfg: Config, b: Burst): seq<ClosedEntry> {
    Drafts(b, cfg.captureExited, EXPECTED_PROTOCOL)
  }

  /** What inference made of each burst. */
  function DraftLists(cfg: Config, bursts: seq<Burst>): seq<seq<ClosedEntry>> {
    seq(|bursts|, i requires 0 <= i < |bursts| => DraftsOf(cfg, bursts[i]))
  }

  lemma DraftListsGrow(cfg: Config, bursts: seq<Burst>, b: Burst)
    ensures DraftLists(cfg, bursts + [b]) == DraftLists(cfg, bursts) + [DraftsOf(cfg, b)]
  {
  }

  lemma DraftListAt(cfg: Config, bursts: seq<Burst>, k: nat)
    requires k < |bursts|
    ensures DraftLists(cfg, bursts)[k] == DraftsOf(cfg, bursts[k])
  {
  }

  /** How many entries these lists of drafts make. */
  function Total(lists: seq<seq<ClosedEntry>>): nat {
    if lists == [] then 0 else Total(lists[..|lists| - 1]) + |lists[|lists| - 1]|
  }

  lemma {:induction false} TotalGrows(lists: seq<seq<ClosedEntry>>, k: nat)
    requires k <= |lists|
    ensures Total(lists[..k]) <= Total(lists)
  {
    if k < |lists| {
      TotalGrows(lists[..|lists| - 1], k);
      assert lists[..|lists| - 1][..k] == lists[..k];
    } else {
      assert lists[..k] == lists;
    }
  }

  lemma NewEntriesAreNumbered(stack: ClosedStack, b: Burst, cfg: Config, now: nat)
    requires StackOk(stack)
    ensures NewEntries(stack, b, cfg, now) == Renumber(DraftsOf(cfg, b), Max(stack.nextId, 1))
    ensures Max(Finalized(stack, b, cfg, now).nextId, 1) == Max(stack.nextId, 1) + |DraftsOf(cfg, b)|
  {
    NextIdIsFresh(stack, now, cfg.entryTtlHours);
  }
}
