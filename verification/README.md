# Undo close, verified

The `reopen` plugin undoes closes in the herdr terminal multiplexer. A closed pane's process
and its place are already gone when a close hook starts, so everything rests on what the
plugin remembered before, on how short-lived hook processes share a few state files through
one lock, and on how a remembered layout is grown back into the live one. This project models
those parts in Dafny and proves what every run of them keeps.

- **Capture.** A close event is frozen against the best shadow snapshot, joins one global
  250 ms burst, and is finalised by the hook that wrote last, by a later event, or by
  recovery. `Bursts`, `Stacks`, `Protocol`, `Runs`, `Drafting` and `Ledgers` follow it over every
  interleaving of hooks, crashes, recovery passes and reopens, `CrashSafety`, `CrashIds` and
  `CrashLedger` over every single file write. `StackOrder` says in which order the entries
  come back. `Chains` shows which sequences of closes are thrown away.
- **Inference.** One burst becomes undo entries: `Inference` has the loops and the partition
  they compute, `InferenceLaws` and `EntryContents` what that partition and its entries mean,
  `EntryCounts` how many entries it makes.
- **Memory.** `Assembly` and `Snapshots` are the shadow snapshot with its one step of history,
  `SnapshotContents` what it says, `PaneLeaves` the tie between its panes and its layouts,
  `TabIndices` and `TabRecords` the index each tab stores; `SelfCreated` keeps what a restore
  makes from being captured as a close.
- **Reopening.** `Layouts`, `LayoutLaws`, `UndoOrder`, `BurstUndo`, `Tabs`, `TabOrder` and
  `MissingTabs` are the tree surgery and the tab order. `AgentNames`, `AgentStart` and
  `ShellQuote` bring a pane's agent back.
- **The whole.** `EndToEnd` joins these: from a pane in the snapshot to its entry on the undo
  stack, and from that entry to the restored layout; `WholeCloses` does so for tabs and
  workspaces.

`Store.Files` is the plugin's state directory as an object with the locked sections as its
methods. Each method is proved equal to the section function that the laws are about, and
`Protocol.StepIsItsSection` and `CrashSafety.SectionRunsToItsOutcome` say the same of the step
machines, so the three views are one behaviour.

Laws that hold only under a condition are stated as equivalences with that condition. Where
the code and its documentation disagree, the model follows the code:

- `docs/HOW_IT_WORKS.md` (lines 15-17) says a burst is finalised into exactly one undo entry.
  A burst makes one entry for all workspaces it closes and one for every yielding event, so
  exactly one when it closes workspaces and nothing else yields, or closes none and one event
  yields (`EntryCounts.EntryCount`). Two panes of one workspace make two entries and a tab
  that no snapshot remembers makes none (`EntryCounts.TwoPanesMakeTwoEntries`,
  `EntryCounts.UncachedTabCloseMakesNone`). A chain of closes each within 250 ms of the latest
  before it that outlives five seconds is thrown away with a log line only
  (`Bursts.PushDropsExactlyWhen`, `Chains.ChainIsDropped`).
- The repository's `README.md` (lines 21-25) promises "same side, same ratio" for a reopened
  pane. In the tab its close left, a pane is back on its side, and then with its ratio,
  exactly when it was a second child or its sibling was a single pane
  (`LayoutLaws.ReopenedSideExactlyWhen`); the documented caveat, that a pane with a subtree for
  a sibling returns on the opposite side, is thus right for first children only. The whole tab
  is as before exactly when the sibling was a single pane
  (`LayoutLaws.ReopenUndoesCloseExactlyWhen`). The old share of the split and its direction are
  always kept (`LayoutLaws.RestoredPaneKeepsItsShare`).
- A tab close hides the pane closes of the same workspace in the same burst even when the
  panes sat in other tabs (`EntryCounts.TabCloseHidesPaneElsewhere`); `InferenceLaws.Yields` is
  the exact rule.
- Closes made one after another and undone in reverse restore the tab exactly when each pane's
  sibling was a single pane that was not closed later, up to one lucky case
  (`UndoOrder.UndoInReverseExactlyWhen`): reopened panes have new ids, which the older recorded
  layouts do not name.
- Closes of one burst share the layout frozen at the first of them and come back in the order
  they were closed (`StackOrder.StackIsInUndoOrder`). The tab is then as before exactly when
  each pane, at its turn, belongs beside a single pane that the shared layout leads to
  (`BurstUndo.BurstUndoneExactlyWhen`), which is so when every pane stood beside a single pane
  that stayed open (`BurstUndo.LoneBurstIsUndone`), and not for two siblings closed together
  (`BurstUndo.BurstSiblingsAreMisplaced`).
- `docs/HOW_IT_WORKS.md` (lines 25-26) promises that what a reopen creates is not captured for
  5 s. A recovery pass empties the list (`SelfCreated.RecoveryForgets`), and the first hook
  after a server start that is not a close hook runs one. When that is the hook of a pane the
  first reopen has just made, the pane's close is captured as the user's, even in the same
  millisecond (`Store.BootReopenIsCaptured`).
- A workspace that is still open gets only its missing tabs back, each moved to its remembered
  place. They come back in remembered order exactly when no missing tab's stored index is
  more than one beyond the number of tabs still open (`MissingTabs.MissingTabsInOrderExactlyWhen`): the code clamps every
  index by the tab count it read at the start.

## Model

| member | source | states |
|---|---|---|
| Bursts.FreezeFinds | src/close.rs:98-123 | freezing copies exactly the wanted workspaces, verbatim, and finds no other |
| Bursts.FreezeIsDistinct | src/close.rs:114-122 | a freeze holds no workspace twice |
| Bursts.FreezeHoldsWhatIsNamed | src/close.rs:98-123 | an event freezes the workspace it names, that of its pane and that of its tab, as far as the snapshot has them, verbatim, and nothing else |
| Bursts.FreezeLoop | src/close.rs:98-123 | the loop of `freeze_for` computes that freeze |
| Bursts.KnowsMeans | src/close.rs:75-93 | a snapshot knows an event by its pane, by its tab, or, when it names neither, by its workspace with some tab left |
| Bursts.BestSnapshot | src/close.rs:74-94 | the chosen snapshot is a candidate, the first if that knows the event, and knows the event whenever any candidate does |
| Bursts.PushEvent | src/close.rs:128-169 | the statements of `push_event` give the new burst, the burst to finalise now and the burst dropped |
| Bursts.MergeFinds | src/close.rs:158-166 | merging frozen workspaces: the earliest freeze of each workspace wins, the others are added |
| Bursts.JoinKeepsEarlierFreezes | src/close.rs:158-166 | an event that joins never overwrites a freeze the burst already holds |
| Bursts.PushConserves | src/close.rs:128-169 | old burst plus event equals new burst plus expired plus dropped, as multisets |
| Model.CloseEventsAre | src/close.rs:11-20 | the four events that are closes |
| Bursts.PushDropsExactlyWhen | src/close.rs:134-156 | by time stamps alone, with 250 ms and 5000 ms: when the old burst expires, when it is dropped, and that the event otherwise joins it, last, with its token |
| Bursts.PushKeepsShape | src/close.rs:128-169 | for events in any time order: last time is the maximum, first is the first non-zero one, span at most 5000 ms, each event at most 250 ms after the maximum before it, frozen ids distinct |
| Bursts.ExpiredIsWhollyOlder | src/close.rs:134-144 | every event of an expired burst is more than 250 ms older than the event that expired it |
| Bursts.PushHolds | src/close.rs:158-166 | after a push the burst holds a pane exactly when the burst it joined held it or the event's freeze has it in a workspace not frozen before |
| Chains.ChainIsDropped | src/close.rs:134-151 | a run of hooks with their own tokens and any freezes, each close within the window of the latest and none finalised between: the first close more than five seconds after the start leaves all earlier ones in one dropped burst and no entry |
| Chains.SteadyChainIsDropped | src/close.rs:134-151 | at any steady pace up to the window, the close after those that fit into five seconds throws all of them away |
| Inference.InferTabCloses | src/close.rs:401-427 | the tab loop makes one numbered entry per cached tab close, in order |
| Inference.InferPaneCloses | src/close.rs:429-503 | the pane loop makes one numbered entry per eligible pane event, in order |
| Inference.InferOneWorkspace | src/close.rs:392-505 | within one workspace tab closes win over pane closes |
| Inference.InferWorkspaceCloses | src/close.rs:297-359 | all closed workspaces of a burst become at most one entry |
| Inference.PartitionEvents | src/close.rs:363-380 | the partition loop gives each workspace, in order of first appearance, exactly its own remaining events |
| Inference.InferEntries | src/close.rs:282-388 | the whole of `infer_entries` computes the partition meaning `Inferred` |
| InferenceLaws.EveryYieldingEventOnce | src/close.rs:282-505 | an event becomes an entry exactly as often as it occurs if it yields, and never otherwise |
| InferenceLaws.YieldingEventHasItsEntry | src/close.rs:282-505 | each yielding event has a consecutively numbered entry, made from that event and the frozen workspaces alone |
| InferenceLaws.OneWorkspaceEntry | src/close.rs:297-359 | at most one entry restores whole workspaces, the first; it is there exactly when a workspace closed and holds exactly the distinct closed ids in order |
| InferenceLaws.ClosedSnapIds | src/close.rs:304-333 | the workspaces collected for that entry are the closed ids without repetitions |
| InferenceLaws.ClosedSnapsKeepTabs | src/close.rs:304-333 | each of them keeps all its remembered tabs |
| InferenceLaws.MinT0IsMinimum | src/close.rs:290-295 | the entry's date is the earliest event time of the burst |
| InferenceLaws.PaneEntryHoldsPane | src/close.rs:429-503 | a pane entry holds the closed pane with its tab's layout; it is a tab entry exactly when the frozen tab had one pane |
| InferenceLaws.TabEntryHoldsTab | src/close.rs:401-427 | a tab entry is dated by its close and holds exactly the closed tab as remembered |
| EntryContents.DraftDescribes | src/close.rs:401-503 | the entry of one event, field by field: its date, name and reason, and the tab, the pane or, for an unknown pane, what the event says, in the shell of its workspace |
| EntryContents.ClosedSnapKeepsFrozen | src/close.rs:306-330 | a closed workspace is kept as frozen; a missing title comes from the event, a missing directory from the first tab or pane that has one, else from the event |
| EntryContents.GroupDraftDescribes | src/close.rs:290-359 | the one entry of closed workspaces is dated by the earliest event of the burst, names all its events, and keeps every workspace as frozen |
| EntryContents.WorkspaceOfMeans | src/close.rs:258-273 | an event belongs to the workspace it names, else to that of its frozen pane, else to that of its frozen tab, else to none |
| EntryContents.YieldsExactlyWhen | src/close.rs:363-503 | in terms of the events and the frozen workspaces alone: exactly which event makes an entry of its own |
| InferenceLaws.YieldingPaneIsUndoable | src/close.rs:429-503 | a yielding pane close always leaves an entry holding that pane |
| InferenceLaws.WorkspacesAreIndependent | src/close.rs:361-387 | the entries of one workspace are those of a burst of its own events alone, whatever the other workspaces did |
| EntryCounts.EntryCount | src/close.rs:282-388 | a burst makes one entry for all closed workspaces and one per yielding event, hence exactly one exactly when one of the two is one and the other none |
| EntryCounts.TwoPanesMakeTwoEntries | src/close.rs:429-503 | two panes of one workspace closed in one burst make two entries |
| EntryCounts.UncachedTabCloseMakesNone | src/close.rs:408-411 | a tab no snapshot remembers makes no entry |
| EntryCounts.TabCloseHidesPaneElsewhere | src/close.rs:401-427 | a tab close and a pane close of another tab of the workspace make the tab's entry only, and it does not hold the pane |
| Stacks.MaxIdNumbered | src/close.rs:599-611 | the persisted next id is one past the entries just numbered |
| StackLaws.PruneThins | src/store.rs:170-176 | pruning keeps order, distinctness and the allocator, and on a valid stack drops exactly the expired entries |
| StackLaws.NextIdIsFresh | src/store.rs:180-183 | after any pruning, even of everything, the next id is the persisted one |
| StackLaws.FinalizedAllocates | src/close.rs:591-611 | finalising numbers new entries consecutively from a fresh id, drops the expired ones, keeps the stack valid and advances the allocator; with nothing new it changes nothing |
| StackLaws.OnlyTheLastWriterFinalises | src/close.rs:172-174 | a hook finalises the pending burst exactly when its token was written last, and otherwise changes nothing |
| StackLaws.RecoveryTakesUpOldBursts | src/daemon.rs:197-230 | recovery takes up the pending burst exactly when its first event is more than five seconds old, finalises it if something was closed in it, and leaves exactly the living entries |
| StackLaws.FinalizedPutsInFront | src/close.rs:597-608 | the new entries, as many as fit, are the front of the stack in their own order; behind them is what is left of the old stack, in its order |
| StackLaws.FinalizedLosesOnlyOldOrCapped | src/close.rs:591-611 | an entry leaves the stack in a finalisation only by age or because the cap was reached |
| StackLaws.PopTakesOne | src/main.rs:282-308 | the pop takes one entry off the stack, and changes nothing when there is none to take |
| StackLaws.PopTakesTheWanted | src/main.rs:282-308 | a reopen with an id takes the living entry of that id or nothing; one without takes the first living entry or nothing |
| StackLaws.LivesMeans | src/store.rs:171-174 | an entry lives while at most its hours have passed, in milliseconds saturating at 64 bits; zero hours is for ever |
| StackLaws.PopThins | src/main.rs:282-308 | what a pop leaves is what was there, in the same order |
| StackLaws.PopLosesOnlyOldAndPicked | src/main.rs:282-308 | a successful pop removes exactly the expired entries and the picked one |
| StackLaws.PushBackPutsOnTop | src/restore.rs:1114-1124 | an entry that is not on the stack goes back on top of the others, which keep their order up to the cap of 20, and the stack stays valid |
| StackLaws.PushBackOnlyOnce | src/restore.rs:1114-1124 | an entry whose id is on the stack is not put there again |
| StackLaws.PushBackLosesOnlyLast | src/restore.rs:1114-1124 | putting back loses at most the last entry of a full stack |
| Store.InsertAll | src/close.rs:599-607 | inserting the entries at the front, last first, leaves the first entry of the burst on top |
| Store.Files.FinalizeLocked | src/close.rs:591-611 | the method leaves exactly the stack of `Finalized` |
| Store.Files.OnClose | src/close.rs:544-569 | popups and self-created ids are ignored and leave the files alone; any other close runs exactly the push section on the best snapshot's freeze |
| Store.Files.FinaliseOwned | src/close.rs:573-582 | only the owner of the pending burst finalises it and clears it |
| Store.Files.Recover | src/daemon.rs:193-231 | recovery finalises an abandoned burst that has a close event, clears it and the self-created ids, and prunes |
| Store.Files.PopEntry | src/main.rs:282-308 | pop under the lock: pruned stack without the picked entry, or nothing changed |
| Store.Files.PushBack | src/restore.rs:1114-1124 | the entry returns to the top unless its id is already on the stack |
| Store.Files.CommitRefresh | src/snapshot.rs:639-663 | an older snapshot is refused; an accepted one saves the current one as history exactly when something was lost |
| Store.Files.Seed | src/main.rs:164-197 | a create event is merged into the current snapshot and touches no history |
| Store.Files.RecordSelfCreated | src/store.rs:134-147 | expired ids are dropped and the new ones appended with the current time |
| SelfCreated.ShieldedExactlyWhen | src/store.rs:134-154 | for any clock readings, an id is shielded exactly when some restore made it under five seconds ago and no pruning in between took it out and no recovery pass came after |
| SelfCreated.PruningIsInvisible | src/store.rs:134-154 | under a clock that never runs backwards an id is shielded exactly when a restore made it less than five seconds ago and no recovery pass came after that restore |
| SelfCreated.RecoveryForgets | src/daemon.rs:216 | after a recovery pass only restores after it shield |
| Store.BootReopenIsCaptured | src/daemon.rs:216-254 | the close of a pane just made by a restore is ignored before a recovery pass and captured after it, at the same millisecond |
| Store.IgnoredExactlyWhen | src/close.rs:508-551 | a close is ignored exactly when it is a popup's or names a pane, tab or closed workspace that a restore recorded less than five seconds before |
| Protocol.StepIsItsSection | src/close.rs:556-582 | every step of the protocol machine changes the files as the locked section does |
| Runs.ExactlyOnce | src/close.rs:128-169 | in every state of every run each pushed close event is in exactly one of the pending burst, the finalised bursts and the dropped chains; no burst is retired twice; recovery never meets a burst without a close event |
| Runs.NoOrphanedBurst | src/close.rs:573-582 | a pending burst's last token belongs to a hook that has not run its finalise section; when every hook has finished nothing is pending |
| Runs.OwnerFinalises | src/close.rs:172-174 | without crashes the owner of the pending burst is asleep, and its finalise section retires exactly that burst |
| Runs.AbandonedBurstIsPickedUp | src/daemon.rs:197-214 | a burst whose owner crashed is finalised whole by the first later event outside its window and by a recovery pass after five seconds |
| Runs.EntriesConserved | src/main.rs:282-312 | over every run the issued ids are the disjoint union of stack, held, restored and lost; two reopens never hold the same entry; an id always names the entry it was issued for |
| Runs.IdsAreNeverReused | src/store.rs:180-183 | no id is issued twice, even after the stack has emptied |
| StackOrder.StackIsInUndoOrder | src/close.rs:597-608 | over every run without a push-back the stack stands newest burst first with ascending ids inside a burst, and reopening again and again takes the entries in that order |
| StackOrder.BurstNoMeans | src/close.rs:591-611 | the burst an id belongs to is the one whose entries were numbered around it |
| Protocol.PushBackIsNeverRefused | src/restore.rs:1114-1124 | the duplicate check of `push_back` never fires for a held entry, which goes back on top |
| CrashSafety.WholeSectionIsAtomic | src/close.rs:556-582 | the writes of a section, all done, give the files of its atomic step |
| CrashSafety.SectionRunsToItsOutcome | src/daemon.rs:193-231 | a section that starts on a free lock and is not cut short does exactly that |
| CrashSafety.CrashesLoseNothing | src/close.rs:564-579 | with every file write its own step and crashes anywhere, no committed event is lost, and the surplus is exactly the bursts caught between stack write and pending write |
| CrashSafety.CrashFreeIsExactlyOnce | src/close.rs:564-579 | without crashes the write-level machine is exactly once |
| CrashSafety.RecoveryRecordsEverything | src/daemon.rs:197-214 | after any run with crashes one uninterrupted recovery pass leaves nothing pending and every committed event recorded or dropped |
| CrashSafety.CrashAfterStackWriteRepeats | src/close.rs:577-579 | an owner that dies right after the stack write leaves its burst pending, to be recorded a second time |
| CrashIds.CrashesNeverReuseIds | src/close.rs:591-611 | wherever crashes strike, no two stack writes issue the same id, a second recording included; the stack stays valid and every entry on the stack or with a reopen was issued and is at one of the two |
| CrashLedger.CrashesKeepTheLedger | src/close.rs:591-611 | wherever crashes strike, the entries issued are what inference makes of the recorded bursts, in the order of the stack writes, numbered 1, 2, 3 and so on |
| CrashLedger.EveryCommittedCloseIsIssued | src/close.rs:556-611 | every close that reached the pending file is pending, dropped with a chain, or in a recorded burst all of whose drafts have been issued |
| Snapshots.MergeTabPane | src/snapshot.rs:422-441 | merging into a tab replaces the pane of the same id in place, or grows the layout and appends |
| Snapshots.MergeWorkspacePane | src/snapshot.rs:405-441 | the tab is found or added in its workspace |
| Snapshots.MergePaneCreated | src/snapshot.rs:384-441 | the in-place merge of a created pane is the recursive merge the laws are about |
| Snapshots.MergeTabCreated | src/snapshot.rs:443-465 | the in-place merge of a created tab adds it to its workspace unless either is missing or the tab is there |
| Snapshots.MergeWorkspaceCreated | src/snapshot.rs:467-485 | the in-place merge of a created workspace appends it unless it is there |
| Snapshots.MergesForgetNothing | src/snapshot.rs:384-485 | a create event adds the pane it names and removes none, and leaves history and time alone |
| Snapshots.LostExactlyWhenDropped | src/snapshot.rs:667-685 | the test for a loss fires exactly when a pane id or a workspace id has gone |
| Snapshots.CommitKeepsOrSaves | src/snapshot.rs:639-663 | an older snapshot is refused; any other becomes current, and the former current becomes history exactly when a pane or workspace of it is missing from the new one |
| Snapshots.StepMemory | src/snapshot.rs:639-685 | what each step does to the memory of a pane: only an accepted commit that drops a pane or a workspace writes history, and it saves what was current |
| Snapshots.TimeNeverDecreases | src/snapshot.rs:639-663 | the stored time stamp never decreases over any run of commits and merges |
| Snapshots.RememberedExactlyWhen | src/snapshot.rs:639-685 | over any run of refreshes, whole or torn, and create events a pane is findable in current or history exactly while at most one losing commit has happened since it was last current |
| Snapshots.PaneOutlivesOneLoss | src/snapshot.rs:639-685 | a current pane stays findable through any run in which at most one losing commit leaves it out of the new snapshot; torn commits that keep it current cost nothing |
| Snapshots.HistoryIsTheLastLoss | src/snapshot.rs:653-663 | after any run with a loss the history is what was current just before the last losing commit, so a pane is remembered exactly when it is current now or was current then |
| Snapshots.SecondLossForgets | src/snapshot.rs:653-663 | a second losing commit without the pane forgets it: one step of history is all there is |
| Snapshots.HookFindsPane | src/close.rs:74-94 | a hook finds the pane exactly when it is current, or in history and not masked by a known tab; without a tab id that is exactly the cache's memory |
| Snapshots.FrozenHoldsPane | src/close.rs:98-123 | freezing for an event that names a pane of a coherent snapshot keeps the pane's workspace whole |
| Assembly.AssembleTab | src/snapshot.rs:157-189 | panes in leaf order, then the tab's panes that no leaf named |
| Assembly.Assemble | src/snapshot.rs:131-195 | the nested loops build the snapshot of all listed workspaces, tabs and panes |
| Assembly.AssembledIsCoherent | src/snapshot.rs:131-195 | lists that agree give distinct workspaces whose panes all name them |
| Assembly.EveryListedPaneIsKept | src/snapshot.rs:131-195 | every pane the server lists in a listed tab is findable in the snapshot |
| SnapshotContents.TabMeans | src/snapshot.rs:143-189 | a tab is remembered with its names, place, layout and focused pane, and with exactly the listed panes of its leaves, in leaf order, and then its others in list order |
| SnapshotContents.RootMeans | src/snapshot.rs:148-156 | the layout of an exported tab is the exported one; otherwise it is one leaf of the first pane listed there |
| SnapshotContents.RestPanesMeans | src/snapshot.rs:167-171 | the panes no leaf named stand behind the others, each once, in list order |
| SnapshotContents.PaneSnapMeans | src/snapshot.rs:104-126 | a pane is remembered field by field, in the directory of its foreground process if that is given and not empty |
| SnapshotContents.TabsMeans | src/snapshot.rs:143-147 | the tabs of a workspace are the listed ones that name it, in list order |
| SnapshotContents.WorkspacesMean | src/snapshot.rs:134-192 | the workspaces are the listed ones in list order, with the first directory found in their tabs |
| SnapshotContents.FirstCwdMeans | src/model.rs:197-205 | the first tab that offers a directory decides |
| SnapshotContents.MergedTabMeans | src/snapshot.rs:422-441 | a created pane replaces the one of its id or is added behind, and the layout grows by a right half unless it names the pane |
| SnapshotContents.CreatedTabMeans | src/snapshot.rs:443-465 | a created tab is added, empty, behind the others unless there is one of that id |
| SnapshotContents.TabGoesToItsWorkspace | src/snapshot.rs:443-452 | a created tab goes to the first workspace of its id, and without one nowhere |
| SnapshotContents.CreateEventMeans | src/snapshot.rs:384-485 | each create event changes the current snapshot by its own merge |
| SnapshotContents.CreatedWorkspaceMeans | src/snapshot.rs:467-485 | a created workspace is added, empty, behind the others unless there is one of that id |
| Assembly.RunKeepsCoherence | src/snapshot.rs:384-485 | create merges and commits of coherent snapshots keep both snapshots coherent |
| PaneLeaves.CreateKeepsLeaves | src/snapshot.rs:384-485 | a create event never separates a pane from its leaf in its tab's layout |
| PaneLeaves.CreatedPaneHasItsLeaf | src/snapshot.rs:422-441 | a pane that a create event adds is a leaf of its tab's layout and can be located there unless it is the only one |
| PaneLeaves.RunKeepsLeaves | src/snapshot.rs:384-485 | over any run whose refreshes keep a pane with its leaf, both snapshots do |
| Layouts.LocateFindsAParent | src/restore.rs:63-91 | what `locate` returns is a split of the tree with the pane as a child, its direction, ratio and sibling |
| Layouts.LocateIsExact | src/restore.rs:63-91 | `locate` is None exactly when the id is no split's child |
| Layouts.ParentIsUnique | src/restore.rs:63-91 | with distinct leaf ids the parent split and the side are unique |
| LayoutLaws.AnchorIsLive | src/restore.rs:646-659 | the pane split from is live, and is a leaf of the old sibling whenever one of those is live |
| LayoutLaws.PlanMeans | src/restore.rs:642-699 | the split, its ratio and the swap for every layout and list of live panes, a pane the layout does not have included |
| LayoutLaws.FirstLiveMeans | src/restore.rs:654-658 | the first live leaf of the sibling, in leaf order |
| LayoutLaws.RestoreReplacesAnchor | src/restore.rs:661-704 | the split and swap calls replace the anchor leaf by one split of anchor and new pane |
| LayoutLaws.RestoredPaneKeepsItsShare | src/restore.rs:646-703 | for every sibling shape, side and live tree the restored pane has the old direction and the old share of the split it joins |
| LayoutLaws.RestoredSideExactlyWhen | src/restore.rs:660-699 | for every layout and live tree the restored pane is on its old side, with its old ratio, exactly when it was a second child or is swapped; it is swapped exactly when it was first and the sibling's one pane is the anchor |
| LayoutLaws.ReopenedSideExactlyWhen | src/restore.rs:646-704 | in the tab its close left, a pane is back on its side with its ratio exactly when it was a second child or its sibling was a single pane |
| LayoutLaws.SurvivorsKeepTheirOrder | src/restore.rs:661-704 | every surviving leaf stays in order and the new pane stands right beside the anchor |
| LayoutLaws.ReopenIsConfined | src/restore.rs:646-704 | close and reopen change the tree only where the pane's split stood |
| LayoutLaws.ReopenUndoesCloseExactlyWhen | src/restore.rs:646-704 | at any depth and on either side, reopening gives the original tree with only that pane replaced exactly when its sibling was a single pane |
| UndoOrder.ExactPlanIsNeeded | src/restore.rs:646-704 | for any anchor, direction, ratio and swap: the close is undone exactly by the plan that names the single sibling with the old direction, ratio and side |
| UndoOrder.CloseUndoesReopen | src/restore.rs:661-704 | closing the pane just reopened gives back the tree it was reopened in |
| UndoOrder.ReopenedPanes | src/restore.rs:596-704 | after any closes and all their reopens the tab holds its untouched panes and the new ones, no other |
| UndoOrder.UndoInReverseExactlyWhen | src/restore.rs:596-704 | any number of closes reopened last-closed-first give the original tab with new ids exactly when every pane's single sibling kept its id, or happens to be the pane the fallback picks |
| BurstUndo.BurstUndoneExactlyWhen | src/close.rs:158-166 | any number of panes closed in one burst and reopened first-closed-first by the layout frozen at the first close give the original tab with new ids exactly when each pane, at its turn, belongs beside the single pane the layout leads to, in a split with the recorded direction, ratio and side |
| BurstUndo.ReopenedIsRenamedExactlyWhen | src/restore.rs:596-704 | the same from any tab: it must be the one the closes left |
| BurstUndo.ClosesCommute | src/restore.rs:596-704 | two closes of a tab with a third pane give the same tree in either order |
| BurstUndo.LoneBurstIsUndone | src/restore.rs:596-704 | a burst whose panes stood beside single panes that stayed open is undone exactly |
| BurstUndo.BurstSiblingsAreMisplaced | src/restore.rs:655-666 | two siblings closed in one burst and undone in order, with everything the server guarantees: both come back into the wrong splits |
| UndoOrder.SiblingsClosedAreMisplaced | src/restore.rs:655-666 | two siblings closed one after the other and undone in reverse, with everything the server guarantees: the older pane comes back on the wrong side with the wrong ratio |
| Tabs.MapPaneIds | src/restore.rs:94-112 | the loop pairs the identified leaves at equal positions |
| Tabs.StripUndoesFill | src/restore.rs:19-46 | stripping an applied layout gives back the layout that was applied |
| Tabs.StripTakesIdsOnly | src/restore.rs:19-46 | stripping takes the pane ids and nothing else |
| Tabs.MapIsTotalAndPositional | src/restore.rs:94-112 | after strip and fill the map takes every identified old leaf, in order, to the new leaf in the same place, no two to the same |
| Tabs.FinishTab | src/restore.rs:510-519 | the occupants restored are those the map finds among the remembered panes, in order |
| Tabs.EachPaneIsRestoredOnce | src/restore.rs:510-519 | each remembered pane with a leaf is restored exactly once, into its own new pane at that place; panes without a leaf are not |
| Tabs.OrderTabs | src/restore.rs:455-460 | the ascending move pass puts the created tabs in front in remembered order and keeps the others' order, wherever they were and however the index counts |
| Tabs.ReopenedTabIsInItsPlace | src/restore.rs:543-548 | a reopened tab moved to its clamped remembered index stands exactly where the closed one stood |
| TabIndices.AssembledIsWellTabbed | src/snapshot.rs:131-195 | assembling stores every tab's position in its workspace, and lists no tab twice |
| TabIndices.RunKeepsIndices | src/snapshot.rs:384-485 | over any run of create events and of refreshes with such snapshots, both snapshots store every tab's position |
| TabRecords.RecordedWorkspacesAreWellTabbed | src/close.rs:304-333 | over every interleaving whose hooks freeze such snapshots, every workspace recorded whole by a finalised burst stores its tabs' positions |
| MissingTabs.RestoreMissing | src/restore.rs:376-391 | the loop over the tabs of a live workspace appends each missing one and moves it to its stored index, clamped by the tab count read at the start |
| MissingTabs.MissingTabsInOrderExactlyWhen | src/restore.rs:376-391 | with the survivors in order, the missing tabs come back in remembered order exactly when no missing tab's stored index is more than one beyond the number of survivors |
| MissingTabs.ThreeMissingAreMisplaced | src/restore.rs:543-548 | of four tabs with only the first open, the last two come back in the wrong order |
| AgentNames.Alias | src/agents.rs:67-100 | the loop with its dash flag computes the sanitised name |
| AgentNames.AliasIsCanonical | src/agents.rs:67-100 | for every string the alias is valid, at most 28 characters, without doubled or trailing dashes |
| AgentNames.AliasMeans | src/agents.rs:67-100 | the alias is the seed in small letters with every other character a dash, without repeated or outer dashes, with `re-` in front unless it starts with a letter, cut to 28 characters |
| AgentNames.CleanMeans | src/agents.rs:68-77 | what becomes of each character |
| AgentNames.AliasFixesExactlyCanonical | src/agents.rs:67-100 | sanitising leaves exactly the canonical names alone, so it is idempotent |
| AgentNames.ValidMeans | src/agents.rs:50-63 | the server's rule for a name, in full |
| AgentNames.AliasCandidates | src/agents.rs:103-114 | the ladder is the base and four numbered names cut to fit |
| AgentNames.LadderNames | src/agents.rs:103-114 | the ladder name by name |
| AgentNames.LadderOfAliasIsSound | src/restore.rs:1057-1065 | for every alias the ladder is five different valid names, so the validity filter removes none |
| AgentNames.LadderIsDistinctExactlyWhen | src/agents.rs:103-114 | for any valid base the ladder repeats a name exactly when the base has 32 characters and ends in one of the ladder's suffixes |
| AgentStart.StartAgent | src/restore.rs:1045-1111 | for any replies and delays the start ends within 29 requests, at the first reply that does not let it go on; it succeeds exactly when that reply accepts or is the server's timeout, under the valid name that so many renames lead to; only a transport timeout makes prefilling unsafe |
| AgentStart.StartWith | src/restore.rs:1067-1110 | the loop ends at that reply, with that result, for any ladder of five names |
| AgentStart.ClockIsTheSum | src/restore.rs:1067-1090 | the clock of a start is all server time and half a second for every busy pane |
| AgentStart.GoingOnIsBounded | src/restore.rs:1065-1096 | a loop still going has seen only busy panes and taken names, at most 24 and 4 |
| AgentStart.BoundIsTight | src/restore.rs:1045-1111 | some server makes it take all 29 requests |
| AgentStart.VerifyAgent | src/restore.rs:781-813 | for any samples the watch ends at the first sample that completes the streak of exits, shows the agent alive after the settle time, or comes after the budget, and reports an exit exactly in the first case and life exactly when that sample shows it; a positive interval bounds the number of samples |
| AgentStart.DecidesExactlyWhen | src/restore.rs:787-811 | the streak counter, the settle time and the budget decide exactly so |
| AgentStart.DeciderIsBounded | src/restore.rs:781-813 | whatever the samples show, the first that decides comes within that bound |
| AgentStart.DefaultTakesTen | src/restore.rs:767-778 | the plugin's own settings take at most ten samples |
| AgentStart.StreakIsConsecutive | src/restore.rs:787-795 | the counter measures exactly the consecutive exits at the end |
| AgentStart.BudgetEnds | src/restore.rs:804-811 | whatever the samples, the budget ends the watch by the sample bound |
| AgentStart.FallBack | src/restore.rs:892-913 | a failed start is always reported, text is typed exactly when the pane is free, and each typed text is counted once more, as a prefill or a failure |
| AgentStart.RestoreAgent | src/restore.rs:829-889 | by the last replies and the samples: exactly when the agent is resumed, started fresh or failed; which starts are made, the second without resume arguments and only after a confirmed exit; text is typed exactly after a first start that failed without a transport timeout |
| ShellQuote.ShellReadsBack | src/snapshot.rs:364-378 | splitting and quote removal give back exactly the original arguments for every list of strings |
| ShellQuote.PlainWordsStay | src/snapshot.rs:367-372 | a word stays unquoted exactly when it is not empty and all plain |
| ShellQuote.QuotingIsInjective | src/snapshot.rs:364-378 | different argument lists are never quoted alike |
| Ledgers.IssuedIsTheLedger | src/close.rs:591-611 | over every interleaving the issued entries, ids and contents, are a function of the finalised bursts alone, numbered from 1 without a gap |
| Ledgers.EveryCloseIsAccountedFor | src/close.rs:556-611 | every pushed close is pending, in a dropped chain, or in a finalised burst: then an issued entry that is on the stack, held, restored or lost to age or cap describes it field by field, if it yields, and the burst's one entry for closed workspaces keeps its workspace as frozen, if the event closed one or its workspace closed in the same burst |
| EndToEnd.PushedPaneIsHeldExactlyWhen | src/close.rs:98-169 | pushed on any burst, a remembered pane's close leaves the pane in the burst exactly when the burst it joins had it or the freeze adds it; with one workspace holding it, exactly when that workspace was not frozen there before or the burst had the pane |
| EndToEnd.HeldAsRemembered | src/close.rs:98-169 | what the burst then holds is the pane as the snapshot remembered it, unless the burst had it already |
| EndToEnd.ClosedPaneIsFrozenWhole | src/close.rs:556-570 | over any run of the shadow snapshot, and for any burst: exactly when the close hook finds the pane, that a workspace not frozen before is then held whole, and exactly when the burst holds a pane with one holder |
| EndToEnd.ClosedPaneReachesTheStack | src/close.rs:556-611 | for any runs before and after the close its burst is pending, dropped or finalised, and if it yields there, an issued entry on the books keeps the pane with its tab and layout as held at the push |
| EndToEnd.RememberedPaneReachesTheStack | src/close.rs:556-611 | the same from the pane's last sighting in the shadow snapshot on, for closed and exited panes: found exactly when current, or in history and not masked by its tab, without a tab id exactly when at most one losing commit has come since; found with one holder and not frozen before in the burst, the entry has the tab and layout the snapshot remembered |
| EndToEnd.TabMasksRememberedPane | src/close.rs:74-94 | an exited pane that only the history has is not found while its event names a current tab, and would be found without the tab id |
| EndToEnd.MaskedCaseHappens | src/close.rs:74-94 | two refreshes of a two-pane tab lead there, after a single losing commit |
| WholeCloses.ClosedWorkspaceReachesTheStack | src/close.rs:556-611 | for any runs around the close of a workspace: its burst is tracked, and a finalised one has an entry on the books with the workspace and all its tabs, as frozen earlier in the burst or as the snapshot remembered it |
| WholeCloses.ClosedTabReachesTheStack | src/close.rs:556-611 | the same for the close of a tab: its entry, dated by the close, or the entry of its workspace when that closed in the same burst |
| WholeCloses.RememberedTabReachesTheStack | src/close.rs:556-611 | from the snapshot on: a tab found in one workspace and not frozen before in the burst is on the books as the snapshot remembered it |
| WholeCloses.HookFindsTab | src/close.rs:74-94 | the hook finds the tab exactly when it is current, or only in history and the current snapshot does not know the event |
| WholeCloses.HookFindsWorkspace | src/close.rs:74-94 | the hook takes the workspace from history exactly when the current snapshot has no tab of it and history has one |
| EndToEnd.RememberedPaneIsRecorded | src/close.rs:429-503 | the entry of a remembered pane holds it in its tab with the remembered layout |
| EndToEnd.ReopenUndoesRecordedClose | src/restore.rs:596-704 | following the recorded entry on the tab the close left gives the remembered layout back exactly when the sibling was a single pane |

## Left out

- EndToEnd.RememberedPaneReachesTheStack: for a pane several workspaces hold, or that the burst had frozen before, `EndToEnd.ClosedPaneReachesTheStack` says which memory the entry keeps.
- WholeCloses.HookFindsWorkspace: is about an event that names neither a pane nor a tab; any other is looked up by those first, as `Bursts.KnowsMeans` says.
- EndToEnd.PushedPaneIsHeldExactlyWhen: a pane whose workspace the burst had frozen without it gets an entry made from the event alone.
- Runs.NoOrphanedBurst: a hook that crashes leaves its burst to later events and recovery, as `Runs.AbandonedBurstIsPickedUp` says.
- CrashSafety.CrashesLoseNothing: is about the pending and stack files; a reopen that dies between its pop and its push-back leaves its entry held for ever.
- CrashIds.CrashesNeverReuseIds: a reopen puts back only an entry it has taken, as the plugin's one caller of `push_back` does.
- CrashLedger.CrashesKeepTheLedger: asks the same of reopens.
- StackOrder.StackIsInUndoOrder: a reopen that fails puts its entry on top whatever its burst; runs with a push-back are not covered.
- SelfCreated.PruningIsInvisible: a recovery pass is a step of the history; when the plugin runs one, once per server start, is not modelled.
- MissingTabs.MissingTabsInOrderExactlyWhen: the open tabs are the survivors in remembered order; tabs opened or moved since are not covered.
- AgentStart.VerifyAgent: asks for a clock that reaches the budget some time; with a positive interval every clock does (`AgentStart.SleepsReach`).
- AgentStart.RestoreAgent: asks for the same clock.
- AgentNames.LadderIsDistinctExactlyWhen: characters stand for bytes, so the cut of a base with non-ASCII characters is not modelled.
- ShellQuote.ShellReadsBack: covers word splitting, expansions and quote removal; a first word such as `NAME=x` or a reserved word is left unquoted by the source and would be given its special meaning.
- UndoOrder.UndoInReverseExactlyWhen: is about closes of different bursts, so each layout was recorded when its pane closed (`BurstUndo.BurstUndoneExactlyWhen` is about one burst); assumes that the tab stays open, and that the server never reuses a pane id.
- Runs.ExactlyOnce: the machine takes the frozen workspaces, tokens and clock readings of its steps as arbitrary inputs; tokens are assumed unique and locked sections atomic, so the unlocked fallback of a failed lock is not covered.
- The server's close, split, swap, layout apply and tab move are pure functions that succeed; failed calls and their report lines are not modelled.
- 64-bit integers are natural numbers; only the saturating subtraction and multiplication of the source are written out. Ratios are reals.
- File system, lock, rename, corrupt-file fallback and failing writes: state files are variables.
- Event and payload parsing, the socket client, the event stream, the daemon's heartbeat and its lock file.
- Configuration, allow lists, transcript lookup and session files: the answers are parameters.
- `same_container`, path canonicalisation and the choice between restoring into a live tab and escalating to a new tab or workspace.
- Sampling of foreground processes, its time budget and its tables; a pane's liveness is an arbitrary stream of samples.
- Focus calls, labels, summaries, notes, notifications, command line and doctor output.
