# Mobilka workspace: verified models

Mobilka lets an assistant change files in a session directory. A change is prepared,
committed, reconciled after a crash, rolled back or cleaned up, and whatever happens in
between, the user must find either the old tree or the new one. This project models that
protocol as it is written for Linux, Windows and Android, the record formats it stands on,
the path, listing and paging code around it, and the document engine with its wire format,
and proves what they promise.

`dafny verify dfyconfig.toml` checks everything. Modules by subject:

- `Volumes`, `Records`, `Runners`: entries, claims about files, the durable record of an operation, replies
  and failures.
- `LinuxProtocol`, `LinuxSession`, `LinuxHandlers`, `LinuxInterleaving`: one atomic rename per
  operation. The protocol is a transition system whose steps are single durable effects; the
  handlers are methods over a session, proved to take only such steps and to compute what the
  protocol says; many operations share one disk.
- `WindowsProtocol`, `WindowsHandlers`, `WindowsLife`: the same without an atomic exchange of two
  names; the last adds the cleanups to the runs.
- `SafProtocol`, `SafHandlers`, `SafCleanup`, `SafLife`, `SafSlotStore`, `SafSlotText`: Android,
  where documents are moved and renamed one at a time, and the record alternates between two slots.
- `RecordBytes`, `Decimals`, `LinuxRecordCodec`, `WindowsRecordCodec`, `WindowsPrepared`: the record files.
- `RelativePaths`, `WorkspaceListing`, `Utf8`, `WorkspacePaging`: what may be named, what is listed,
  and how a text file is handed out in pages.
- `DocumentEngine`, `DocumentFrames`, `DocumentDecoder`: extracted text within budgets, framed by the
  worker and decoded by the application.
- `AaptXmlTree`: the build's parser of indented resource dumps.

## How a crash is modelled

A process may stop after any durable effect (persist, rename, exchange, unlink, move). A
run is any sequence of effects that the handlers' checks allow, so it covers every order of
calls and every place to stop. A session has a ghost `trail` of every state that has been
durable; each handler ensures that its trail consists of protocol steps, and the lemmas about
runs then apply to whatever a crash leaves behind. With `fails` set, any step may fail, and a
flush may fail after its step has happened; a read may fail to see what is there, but never sees
what is not. On Android a query that fails ends the call, which is one more place to stop. With
`quiet` unset on Linux, somebody else may change the path between the checks of a commit and its
rename.

Assumed throughout: hashes have no collisions, new files have new identities, opening and hashing a
file is one step, directories that are to be removed are empty, and the caller cleans up an
operation only when it is prepared, committed or rolled back. On Android also: document ids
survive moves and renames; nobody else changes the documents of an operation or takes a name made
from its id, and the last part of its path is not such a name; other documents keep their names; a
provider refuses to move or rename a document to a taken name, so also to move it into the
directory it is in; renaming a document to the name it has changes nothing; and a creation expects
nothing at its path, every other operation a document (`Kind` has no other cases).

## What turned out not to hold

- On Windows, a commit that is entered again in `stageInstalling`, or for a deletion in
  `targetQuarantined`, reports success without looking at anything. `WindowsProtocol` shows an
  overwrite reported as committed with the path empty, the cleanup that then deletes the last copy,
  and a deletion reported as committed with the file in place; `CommittedMeansInstalledExactlyWhen`
  gives the exact condition for all runs.
- A rollback takes a file that it cannot open or hash for one that is not there. On Linux and
  Windows it then skips the undo of anything but an overwrite and records `rolledBack`; the cleanup
  that follows can delete the file and its backup copy (`SkippedUndoCanLoseTheFile`,
  `SkippedRollbackCanLoseTheFile`; exact conditions for all runs in the two lemmas
  `RolledBackMeansRestoredExactlyWhen`, for one call in the two lemmas `RestoredExactlyWhenSeen`).
- The Windows cleanup leaves behind what it cannot open and deletes the record all the same
  (`CleanupCanLeaveTheFile`, exact condition in `WindowsLife.LifeIsSafe`). The Windows reconcile can
  record `committed` for a move that has not happened, if the destination is another name of the same
  file and the first name cannot be opened (`MisreadCommitCanBeWrong`, exact condition in
  `SupportedIsTrue`).
- A prepare on Linux that stops before it saves its record leaves something staged that every
  handler refuses from then on, cleanup included (`CallsOnStranded`).
- Cleanup does not look at the phase. On Linux, cleaning up a deletion in flight and rolling back
  afterwards reports `rolledBack` for a file that is gone (`EarlyCleanupCanLoseTheFile`), and after
  an overwrite in flight the rollback can no longer restore the original (exact condition for all
  runs in `EarlyCleanupIsHarmlessExactlyWhen`). On Android it deletes a quarantined original at once
  (`CleanupCanLoseTheOriginal`, exact condition in `CleanupLosesTheOriginalExactlyWhen`).
- On Android, a commit moves the original under its own name before it renames it, and `prepare`
  checks only where it ends. A move past another document of that name, or within one directory,
  is prepared and can never be carried out; nor can an overwrite or deletion while the hidden
  directory has a document of that name (`MoveCanBeBlocked`, `MoveInOneDirectoryIsBlocked`; exactly
  when in `CommitMove`, `CommitOverwrite`, `CommitDelete`). The original stays where it was.
- On Android, a rollback of a creation that stops after deleting the staged document leaves a
  record that is refused for good (`CreationCanGetStuck`, exact condition in `LoadableExactlyWhen`).
- On Android, a cleanup that stops between the two slots can bring back the record before a
  rollback, and a commit then carries out what was rolled back (`RolledBackCanBeCommitted`, exact
  condition in `RollbackIsFinalExactlyWhen`). A committed operation stays committed (`CommitIsFinal`).
- A record of the Windows runner can be saved and then not be loaded again: saving does not look
  at the length of its strings, and prepare does not check the expected identity and hash of a
  creation, nor the destination of a move (`LongIdentityIsSavedAndLost`, `LongDestinationIsSavedAndLost`;
  exact conditions in `SavedThenLoaded` and the three lemmas of `WindowsPrepared`).
- A failed document job is reported with its code only if the code fits the output limits of the
  request (`ErrorCanBeLost`, exact condition in `ErrorIsReported`).
- The Windows document worker numbers its frames differently from the application and sends no
  offsets and no error codes, so the application refuses every response of it
  (`WindowsResponseIsNeverReceived`).
- The text of a page does not always arrive as it was sent: the application's `utf8.decode` drops a
  leading byte order mark (`MarkIsLost`; exact conditions in `TextLayersArriveExactlyWhen` and
  `ResponseArrivesAsSentExactlyWhen`).

## Model

| member | source | states |
|---|---|---|
| LinuxProtocol.PreparedIsGood | linux/runner/session_workspace_prepare_commit.cc:55-174 | what prepare leaves satisfies the invariant |
| LinuxProtocol.Inductive | linux/runner/session_workspace_recovery.cc:119-277 | every durable effect of commit, reconcile, rollback and permitted cleanup keeps the invariant |
| LinuxProtocol.RunIsGood | linux/runner/session_workspace_prepare_commit.cc:176-308 | the invariant holds in every state of every run |
| LinuxProtocol.Atomicity | linux/runner/session_workspace_prepare_commit.cc:176-308 | in every state of every run, rollbacks seeing what is there, the visible tree is exactly the old or exactly the new one, a prepared or rolledBack record means the old one, a committed record the new one, and no leftovers outlive the record |
| LinuxProtocol.DecisionKept | linux/runner/session_workspace_recovery.cc:129-136 | no step changes a decided phase or what is visible after it |
| LinuxProtocol.DecisionIsFinal | linux/runner/session_workspace_state.cc:116-131 | committed and rolledBack are absorbing over whole runs although the guard of the save would allow either to replace the other |
| LinuxProtocol.GuardNeverRefuses | linux/runner/session_workspace_state.cc:116-131 | in a reachable state the guard of the save accepts every phase a handler persists |
| LinuxProtocol.ReconcileIsExact | linux/runner/session_workspace_recovery.cc:80-116 | in every reachable state reconcile answers committed, notCommitted or indeterminate exactly when that is the truth, with the two exact exceptions |
| LinuxProtocol.RollbackAlwaysRestores | linux/runner/session_workspace_recovery.cc:143-221 | from every undecided reachable state, the middle of a rollback included, a rollback that sees what is there goes through and restores the old tree |
| LinuxProtocol.RolledBackMeansRestoredExactlyWhen | linux/runner/session_workspace_recovery.cc:143-221 | with reads that may fail: over a whole run, permitted cleanups included, rolledBack always means the old tree if and only if no rollback skipped an undo because a read failed |
| LinuxProtocol.LooseRunIsGood | linux/runner/session_workspace_recovery.cc:143-221 | even then the tree is the old or the new one in every state, and committed means the new one |
| LinuxProtocol.SkippedUndoCanLoseTheFile | linux/runner/session_workspace_recovery.cc:177-186 | a concrete run: the staged name cannot be opened, rolledBack is persisted, and the permitted cleanup deletes the file and its backup copy |
| LinuxProtocol.CommitDelivers | linux/runner/session_workspace_prepare_commit.cc:200-308 | exactly which prepared operations can commit, and that they then deliver the new tree |
| LinuxProtocol.EarlyCleanupIsHarmlessExactlyWhen | linux/runner/session_workspace_recovery.cc:252-277 | over a whole run with cleanup at any time: every undecided state can still be rolled back to the old tree if and only if no cleanup deleted the displaced original of an operation in flight |
| LinuxProtocol.EarlyCleanupCanLoseTheFile | linux/runner/session_workspace_recovery.cc:252-277 | a concrete run that ends rolledBack with the file and its backup copy gone |
| LinuxProtocol.OccupiedPathIsKept | linux/runner/session_workspace_prepare_commit.cc:204-214 | an entry at the path of a creation that prepare or commit failed to see is not touched by any effect |
| LinuxSession.Session.Save | linux/runner/session_workspace_state.cc:94-153 | saving replaces the record or changes nothing, refuses another token and a phase that does not follow, and may report a failure after it happened |
| LinuxSession.Session.Confirm | linux/runner/session_workspace_prepare_commit.cc:41-48 | a read confirms what is so or fails to; it never confirms what is not so |
| LinuxSession.Session.RenameNoReplace | linux/runner/session_workspace_common.cc:319-326 | moves one entry to a free name or changes nothing |
| LinuxSession.Session.Exchange | linux/runner/session_workspace_common.cc:319-326 | swaps two entries that both exist or changes nothing |
| LinuxSession.Session.WriteExact | linux/runner/session_workspace_common.cc:302-318 | creates a new file with the content, or on failure possibly one with any content |
| LinuxSession.Session.DeleteState | linux/runner/session_workspace_state.cc:196-200 | removes the record; a failed flush is reported after the fact |
| Volumes.ProofExactlyOfItsFile | linux/runner/session_workspace_prepare_commit.cc:41-48 | a proof is of a file with the expected identity and the expected hash, so a file rewritten in place is no longer proven |
| LinuxHandlers.HandlePrepare | linux/runner/session_workspace_prepare_commit.cc:55-174 | touches nothing visible at any moment; without failures succeeds exactly when, by the entries and the request alone, names are free, the target is what the caller expects and the arguments are there; what is then staged, with which content, and what the record says of the request and of the staged entry; only a failed read lets a creation pass over an occupied path; before the record is saved there is a moment with something staged and no record |
| LinuxHandlers.CallsOnStranded | linux/runner/session_workspace_prepare_commit.cc:117-173 | what a prepare leaves that stopped before it saved the record every handler refuses, cleanup included, and nothing changes |
| LinuxHandlers.Inspect | linux/runner/session_workspace_prepare_commit.cc:87-101 | what prepare sees at the path is what is there or nothing, and it passes only if that is what the caller expects |
| LinuxHandlers.StageRequest | linux/runner/session_workspace_prepare_commit.cc:122-158 | writes exactly one hidden entry and a record that proves it |
| LinuxHandlers.AdmissibleIsPreparable | linux/runner/session_workspace_prepare_commit.cc:60-121 | when nothing is objected to, said for each kind from the entries and the request |
| LinuxHandlers.CommitOverwrite | linux/runner/session_workspace_prepare_commit.cc:215-244 | compare and swap: with any other writer before the exchange, success means that the file displaced has exactly the expected identity and hash, is now hidden, and the staged file is at the path; giving up leaves every entry as the others left it |
| LinuxHandlers.CommitCreate | linux/runner/session_workspace_prepare_commit.cc:200-244 | installs the staged file, and only at a path that was free |
| LinuxHandlers.CommitDelete | linux/runner/session_workspace_prepare_commit.cc:245-264 | compare and swap for a deletion: the file taken away has the expected identity and hash; if the proof fails it is moved back |
| LinuxHandlers.CommitMove | linux/runner/session_workspace_prepare_commit.cc:265-287 | the same for a move, to a destination that was free |
| LinuxHandlers.CommitDirectory | linux/runner/session_workspace_prepare_commit.cc:288-303 | installs the staged directory, and only at a path that was free |
| LinuxHandlers.HandleCommit | linux/runner/session_workspace_prepare_commit.cc:176-308 | alone, every durable state is a protocol step; for each kind, in terms of the entries, what success means and when it comes; another phase is refused with nothing changed |
| LinuxHandlers.HandleReconcile | linux/runner/session_workspace_recovery.cc:60-117 | answers what the protocol says, for each kind in terms of the entries, and records a completed operation; if a read fails it may fall back to indeterminate, but no other answer comes without its evidence |
| LinuxHandlers.SupportedIsTrue | linux/runner/session_workspace_recovery.cc:80-116 | so about a reachable state committed, notCommitted and rolledBack are true whatever reads fail |
| LinuxHandlers.UndoVisible | linux/runner/session_workspace_recovery.cc:143-211 | takes back the visible effect in one step or refuses; an undo that is due is skipped if and only if a read failed, and never for an overwrite |
| LinuxHandlers.UndoOverwrite | linux/runner/session_workspace_recovery.cc:145-176 | an overwrite is undone exactly when result and original are seen; anything unclear is refused |
| LinuxHandlers.UndoOther | linux/runner/session_workspace_recovery.cc:150-211 | a creation, deletion, move or directory that is due to be undone is undone if and only if no read failed; otherwise nothing is done and nothing refused |
| LinuxHandlers.HandleRollback | linux/runner/session_workspace_recovery.cc:119-222 | the whole new state, for each kind in terms of the entries; repeated, it changes nothing; without failures when it succeeds; Done means undone and recorded, or, exactly if a read failed, recorded only |
| LinuxHandlers.RestoredExactlyWhenSeen | linux/runner/session_workspace_recovery.cc:143-221 | a rollback that replied Done has restored the old tree if and only if no read failed while there was something to undo |
| LinuxHandlers.RemoveIfPresent | linux/runner/session_workspace_recovery.cc:51-58 | removes a hidden entry of the given kind and nothing else |
| LinuxHandlers.HandleCleanup | linux/runner/session_workspace_recovery.cc:224-279 | never touches the visible tree and at no moment lacks the record while a hidden entry is left, even if reads fail; success means everything is gone |
| LinuxHandlers.StepsStayGood | linux/runner/session_workspace_recovery.cc:60-222 | whatever a handler made durable, the next call starts from the invariant, and the tree is old or new |
| LinuxHandlers.LooseStepsStayGood | linux/runner/session_workspace_recovery.cc:119-222 | the same for a rollback whose reads fail, with the skipped undo as the one exception |
| LinuxHandlers.CleanupIsNeverBlocked | linux/runner/session_workspace_recovery.cc:252-277 | from every reachable record, however often cleanup stopped, a full cleanup can go through |
| LinuxInterleaving.HiddenNamesDiffer | linux/runner/session_workspace_common.cc:297-301 | ids of 32 characters give different places in the hidden directory |
| LinuxInterleaving.PathsDiffer | linux/runner/session_workspace_common.cc:96-118 | different paths that are accepted lead to different places |
| LinuxInterleaving.NothingHiddenIsVisible | linux/runner/session_workspace_common.cc:79-118 | no accepted path leads to a place in the hidden directory |
| LinuxInterleaving.OthersAreUntouched | linux/runner/session_workspace_common.cc:284-301 | whatever one operation does to its own entries changes nothing of an independent one; the places are lists of names as the path parser makes them |
| LinuxInterleaving.StepKeeps | linux/runner/session_workspace_common.cc:284-301 | any step of anybody, a prepare of another operation and a rollback whose reads fail included, keeps what every prepared operation can be |
| LinuxInterleaving.EachStaysAtomic | linux/runner/session_workspace_prepare_commit.cc:55-308 | under every interleaving of any number of independent operations, each with its own prepare somewhere in the run, and whatever reads fail, the tree of each is the old or the new one from then on, and prepared and committed tell which |
| LinuxInterleaving.EachIsTruthfulExactlyWhen | linux/runner/session_workspace_recovery.cc:119-222 | and rolledBack means the old tree of an operation in every state if and only if no rollback of its own skipped an undo |
| WindowsProtocol.PreparedIsGood | windows/runner/session_workspace_prepare_commit.cpp:91-251 | what prepare leaves satisfies the invariant |
| WindowsProtocol.Inductive | windows/runner/session_workspace_prepare_commit.cpp:253-401 | every effect of commit, reconcile and rollback, those of failed reads and the blind commit included, keeps the arrangement invariant |
| WindowsProtocol.ForwardKeeps | windows/runner/session_workspace_prepare_commit.cpp:291-331 | the two renames of an overwrite and the single ones keep it |
| WindowsProtocol.BackwardKeeps | windows/runner/session_workspace_recovery.cpp:231-306 | deleting the result and putting the original back keep it |
| WindowsProtocol.RunIsGood | windows/runner/session_workspace_recovery.cpp:80-313 | the invariant holds in every state of every run |
| WindowsProtocol.Conservation | windows/runner/session_workspace_prepare_commit.cpp:286-373 | in every state of every run the original is in exactly one known place, the visible tree is old, new, or in the gap between two renames, and prepared means old |
| WindowsProtocol.RollbackAlwaysRestores | windows/runner/session_workspace_recovery.cpp:231-313 | from every undecided state rollback restores the old tree, and it concludes if and only if no directory took the path |
| WindowsProtocol.ReconcileIsExact | windows/runner/session_workspace_recovery.cpp:97-193 | each answer is given exactly in the arrangements it stands for |
| WindowsProtocol.CommittedMeansInstalledExactlyWhen | windows/runner/session_workspace_prepare_commit.cpp:332-394 | over a whole run, committed always means installed if and only if every blind commit, and every commit of a reconcile that failed to read something, came when a seeing reconcile would have said committed |
| WindowsProtocol.CommittedSoFar | windows/runner/session_workspace_prepare_commit.cpp:332-394 | the inductive half of it |
| WindowsProtocol.BlindCommitCanLeaveAGap | windows/runner/session_workspace_prepare_commit.cpp:332-394 | a concrete run to committed with the path empty |
| WindowsProtocol.CleanupAfterAGapLosesTheFile | windows/runner/session_workspace_recovery.cpp:344-380 | cleanup then removes both copies |
| WindowsProtocol.BlindDeleteCanKeepTheFile | windows/runner/session_workspace_prepare_commit.cpp:347-350 | a concrete run to committed with the file in place |
| WindowsProtocol.RolledBackMeansRestoredExactlyWhen | windows/runner/session_workspace_recovery.cpp:231-306 | over a whole run, rolledBack always means the old tree if and only if no rollback that failed to read something skipped an undo that was due |
| WindowsLife.EffectKeeps | windows/runner/session_workspace_recovery.cpp:317-382 | what a permitted cleanup has taken away enables nothing: every effect of a cleaned state is an effect of the state without the cleanup, and leads to the cleaned form of its result |
| WindowsLife.LifeIsSafe | windows/runner/session_workspace_recovery.cpp:317-382 | with permitted cleanups in between and stopped anywhere: the tree is old, new or in the gap, before a decision the original is conserved, and something hidden outlives the record if and only if a cleanup dropped it blindly |
| WindowsLife.CommitHere | windows/runner/session_workspace_prepare_commit.cpp:332-394 | the step to committed is right exactly where reconcile would have answered committed; only one that looks at nothing or fails to see something can be wrong |
| WindowsLife.RollbackHere | windows/runner/session_workspace_recovery.cpp:231-306 | the step to rolledBack is right exactly where nothing was left to undo; only a skipped one can be wrong |
| WindowsLife.TruthfulExactlyWhen | windows/runner/session_workspace_recovery.cpp:196-382 | over a whole life the record tells the truth about the visible tree in every state if and only if nothing was committed unseen that was not installed and no rollback skipped an undo that was due |
| WindowsLife.SkippedRollbackCanLoseTheFile | windows/runner/session_workspace_recovery.cpp:265-273 | a concrete life: .stage cannot be opened, rolledBack is persisted, and the permitted cleanup deletes the file and its backup copy |
| WindowsLife.CleanupCanLeaveTheFile | windows/runner/session_workspace_recovery.cpp:359-376 | a concrete life: the cleanup of a committed deletion cannot open .stage, the record is gone and the file stays hidden |
| WindowsLife.MisreadCommitCanBeWrong | windows/runner/session_workspace_recovery.cpp:158-170 | a concrete life: of a move to another name of the same file, reconcile cannot open the first name and records committed; nothing has moved |
| WindowsHandlers.Session.Save | windows/runner/session_workspace_state.cpp:128-175 | replaces the record whatever its phase is, or changes nothing |
| WindowsHandlers.Session.RenameDurable | windows/runner/session_workspace_prepare_commit.cpp:81-89 | moves to a free name or changes nothing; a failed flush is reported after the fact |
| WindowsHandlers.QuarantineTarget | windows/runner/session_workspace_prepare_commit.cpp:291-305 | the original goes to .old under two persisted phases, exactly when the checks hold |
| WindowsHandlers.InstallStage | windows/runner/session_workspace_prepare_commit.cpp:324-331 | the staged file goes to the free path |
| WindowsHandlers.CommitWrite | windows/runner/session_workspace_prepare_commit.cpp:286-335 | continues from every phase; exactly when it succeeds and the state it leaves |
| WindowsHandlers.CommitDelete | windows/runner/session_workspace_prepare_commit.cpp:336-350 | the same for a deletion |
| WindowsHandlers.CommitMove | windows/runner/session_workspace_prepare_commit.cpp:351-373 | the same for a move |
| WindowsHandlers.CommitDirectory | windows/runner/session_workspace_prepare_commit.cpp:374-389 | the same for a directory |
| WindowsHandlers.HandleCommit | windows/runner/session_workspace_prepare_commit.cpp:253-401 | every durable state is a protocol step; from each phase, in terms of the entries, the finished state that success leaves, and when success comes |
| WindowsHandlers.NoteQuarantine | windows/runner/session_workspace_recovery.cpp:97-139 | reconcile first records a finished quarantine, exactly in the arrangement the code looks for, if no read fails; never without the original proved in .old |
| WindowsHandlers.HandleReconcile | windows/runner/session_workspace_recovery.cpp:80-194 | answers what the protocol says where it is answerable; what each answer says of the entries, for each kind |
| WindowsHandlers.AnswersAre | windows/runner/session_workspace_recovery.cpp:100-194 | committed and notCommitted said from the entries and the record alone |
| WindowsHandlers.SupportedIsTrue | windows/runner/session_workspace_recovery.cpp:138-183 | an answer that reconcile has proofs for is true of a reachable state whatever reads failed, but for a move to another name of the same file |
| WindowsHandlers.ReachableIsAnswerable | windows/runner/session_workspace_recovery.cpp:97-118 | the early refusal in targetQuarantining never happens to a reachable state |
| WindowsHandlers.ReconcileAnswersTheTruth | windows/runner/session_workspace_recovery.cpp:80-194 | in every state of every run reconcile can answer, and each answer is given exactly when it is the truth |
| WindowsHandlers.RemoveResult | windows/runner/session_workspace_recovery.cpp:231-263 | deletes an installed result and nothing else; the flush after it may fail |
| WindowsHandlers.RestoreOriginal | windows/runner/session_workspace_recovery.cpp:231-296 | puts the original back to a free path |
| WindowsHandlers.UndoVisible | windows/runner/session_workspace_recovery.cpp:231-306 | ends in the rolled back arrangement exactly when the protocol allows it; an undo that is due is left out if and only if a read failed, and never of an overwrite |
| WindowsHandlers.HandleRollback | windows/runner/session_workspace_recovery.cpp:196-315 | the whole new state, for each kind in terms of the entries; repeated, it changes nothing; the path is touched only if it holds the result of the operation |
| WindowsHandlers.RestoredExactlyWhenSeen | windows/runner/session_workspace_recovery.cpp:231-313 | a rollback that replied Done has restored the old tree if and only if no read failed while there was something to undo |
| WindowsHandlers.RemoveIfPresent | windows/runner/session_workspace_recovery.cpp:344-372 | removes one hidden entry and nothing else |
| WindowsHandlers.HandleCleanup | windows/runner/session_workspace_recovery.cpp:317-382 | never touches the visible tree; every durable state is one of the cleaning steps; if it can open what is there, removes the record last; reports success with something hidden left if and only if it failed to open it |
| WindowsHandlers.CleanupIsNeverBlocked | windows/runner/session_workspace_recovery.cpp:344-380 | no reachable state keeps cleanup from removing everything |
| WindowsHandlers.StepsStayGood | windows/runner/session_workspace_recovery.cpp:80-315 | the next call starts from the invariant wherever the last one stopped |
| WindowsHandlers.StageEntry | windows/runner/session_workspace_prepare_commit.cpp:156-215 | writes one hidden entry, or leaves nothing of a failed one if it can be deleted |
| WindowsHandlers.HandlePrepare | windows/runner/session_workspace_prepare_commit.cpp:91-251 | without failures succeeds exactly when, by the entries and the request alone, names are free and the target is what the caller expects; what is then staged, with which content, and what the record says of the request; nothing visible is touched |
| WindowsHandlers.PreparedStartsTheProtocol | windows/runner/session_workspace_prepare_commit.cpp:156-251 | the prepared state satisfies the invariant, and can commit unless the place is taken |
| SafProtocol.PreparedIsGood | android/app/src/main/kotlin/com/rslnmzhn/mobilka/SafWorkspaceMutations.kt:10-112 | what prepare leaves satisfies the invariant |
| SafProtocol.OverwriteKeeps | android/app/src/main/kotlin/com/rslnmzhn/mobilka/SafWorkspaceMutations.kt:163-206 | every announced and every taken step of an overwrite and of its rollback keeps the invariant |
| SafProtocol.CreateKeeps | android/app/src/main/kotlin/com/rslnmzhn/mobilka/SafWorkspaceMutations.kt:217-252 | the same for a creation |
| SafProtocol.DeleteKeeps | android/app/src/main/kotlin/com/rslnmzhn/mobilka/SafWorkspaceMutations.kt:254-284 | the same for a deletion |
| SafProtocol.MoveKeeps | android/app/src/main/kotlin/com/rslnmzhn/mobilka/SafWorkspaceMutations.kt:286-309 | the same for a move |
| SafProtocol.Inductive | android/app/src/main/kotlin/com/rslnmzhn/mobilka/SafWorkspaceRecovery.kt:11-344 | every effect in all 31 phases keeps the invariant |
| SafProtocol.WholeRun | android/app/src/main/kotlin/com/rslnmzhn/mobilka/SafWorkspaceRecovery.kt:179-308 | in every state of every run the original is at one of the listed places, under no name another document has, and not at its path together with the staged document; committed means complete, prepared and rolledBack mean untouched |
| SafProtocol.PreparedPhaseIsUntouched | android/app/src/main/kotlin/com/rslnmzhn/mobilka/SafWorkspaceMutations.kt:76-111 | while the phase is prepared, at most the staged document of a creation has gone |
| SafProtocol.PhaseTellsWhere | android/app/src/main/kotlin/com/rslnmzhn/mobilka/SafWorkspaceMutations.kt:163-309 | over whole runs the phase on record tells whether the original of an incomplete operation is in the hidden directory, but for the one move it announces |
| SafProtocol.AfterStays | android/app/src/main/kotlin/com/rslnmzhn/mobilka/SafWorkspaceRecovery.kt:179-197 | no step of commit, reconcile or rollback undoes a complete operation |
| SafProtocol.BlockedNeverMoves | android/app/src/main/kotlin/com/rslnmzhn/mobilka/SafWorkspaceMutations.kt:286-301 | with another document of the same name in the hidden directory or in the destination directory, or within one directory, no run of an overwrite, deletion or move moves anything or ends committed |
| SafProtocol.MoveCanBeBlocked | android/app/src/main/kotlin/com/rslnmzhn/mobilka/SafWorkspaceMutations.kt:34-36 | a/notes.md to b/todo.md while b has another notes.md: prepared, and never moved |
| SafProtocol.MoveInOneDirectoryIsBlocked | android/app/src/main/kotlin/com/rslnmzhn/mobilka/SafWorkspaceMutations.kt:286-297 | the same for a move to another name in one directory |
| SafProtocol.ReconcileIsExact | android/app/src/main/kotlin/com/rslnmzhn/mobilka/SafWorkspaceRecovery.kt:28-177 | wherever load accepts a reachable record, reconcile is never in doubt and answers committed exactly when the operation is complete |
| SafProtocol.LoadableExactlyWhen | android/app/src/main/kotlin/com/rslnmzhn/mobilka/SafWorkspaceMutations.kt:367-390 | exactly which reachable records load accepts, and that deleting the staged document makes one that it does not |
| SafProtocol.CreationCanGetStuck | android/app/src/main/kotlin/com/rslnmzhn/mobilka/SafWorkspaceRecovery.kt:310-344 | a concrete run to an undecided record that is refused for good |
| SafProtocol.RolledBackIsBefore | android/app/src/main/kotlin/com/rslnmzhn/mobilka/SafWorkspaceRecovery.kt:179-197 | where rollback ends, everything is as before and the record loads |
| SafHandlers.Session.Take | android/app/src/main/kotlin/com/rslnmzhn/mobilka/SafWorkspaceMutations.kt:406-420 | one durable effect, which may fail before or after it happened |
| SafHandlers.Session.Carry | android/app/src/main/kotlin/com/rslnmzhn/mobilka/SafWorkspaceMutations.kt:168-179 | announce, take and record one move or rename; what it leaves and when it succeeds |
| SafHandlers.ReconcileLoaded | android/app/src/main/kotlin/com/rslnmzhn/mobilka/SafWorkspaceRecovery.kt:11-26 | answers for the arrangement and records a completed operation |
| SafHandlers.CommitOverwrite | android/app/src/main/kotlin/com/rslnmzhn/mobilka/SafWorkspaceMutations.kt:163-206 | original to .old, staged document to the path, each step announced; goes through exactly when the hidden directory has no document of the same name, and otherwise moves nothing |
| SafHandlers.PublishStage | android/app/src/main/kotlin/com/rslnmzhn/mobilka/SafWorkspaceMutations.kt:182-199 | its second half |
| SafHandlers.CommitDelete | android/app/src/main/kotlin/com/rslnmzhn/mobilka/SafWorkspaceMutations.kt:254-284 | the original ends as .old in the hidden directory, exactly when no document of the same name is there; otherwise nothing moves |
| SafHandlers.CommitCreate | android/app/src/main/kotlin/com/rslnmzhn/mobilka/SafWorkspaceMutations.kt:217-252 | a creation is carried out, without failures, exactly when its staged document is hidden and no other document is in the way |
| SafHandlers.CommitMove | android/app/src/main/kotlin/com/rslnmzhn/mobilka/SafWorkspaceMutations.kt:286-309 | the document gets to its destination exactly when that is another directory without another document of its old name; otherwise it stays |
| SafHandlers.HandleCommit | android/app/src/main/kotlin/com/rslnmzhn/mobilka/SafWorkspaceMutations.kt:124-152 | without failures Done exactly when no other document is in the way, every creation included; where each document then is, for each kind |
| SafHandlers.RestoreQuarantined | android/app/src/main/kotlin/com/rslnmzhn/mobilka/SafWorkspaceRecovery.kt:244-282 | brings the original back to its path from everywhere a rollback can find it |
| SafHandlers.RollbackOverwrite | android/app/src/main/kotlin/com/rslnmzhn/mobilka/SafWorkspaceRecovery.kt:199-229 | from every incomplete arrangement back to the untouched one |
| SafHandlers.RollbackDelete | android/app/src/main/kotlin/com/rslnmzhn/mobilka/SafWorkspaceRecovery.kt:231-242 | the same for a deletion |
| SafHandlers.RollbackMove | android/app/src/main/kotlin/com/rslnmzhn/mobilka/SafWorkspaceRecovery.kt:284-308 | the same for a move |
| SafHandlers.RollbackCreate | android/app/src/main/kotlin/com/rslnmzhn/mobilka/SafWorkspaceRecovery.kt:310-344 | deletes the staged document wherever it is |
| SafHandlers.HandleRollback | android/app/src/main/kotlin/com/rslnmzhn/mobilka/SafWorkspaceRecovery.kt:179-197 | ends rolledBack with every document back in its place, or refuses exactly when the operation is complete |
| SafHandlers.StepsStayGood | android/app/src/main/kotlin/com/rslnmzhn/mobilka/SafWorkspaceRecovery.kt:179-344 | every durable state of a session satisfies the invariant |
| SafCleanup.Session.Take | android/app/src/main/kotlin/com/rslnmzhn/mobilka/SafWorkspaceRecovery.kt:419-427 | one provider call, which may fail before or after its effect |
| SafCleanup.DeleteByName | android/app/src/main/kotlin/com/rslnmzhn/mobilka/SafWorkspaceRecovery.kt:366-371 | the staged document and the backup go, nothing else |
| SafCleanup.DeleteQuarantined | android/app/src/main/kotlin/com/rslnmzhn/mobilka/SafWorkspaceRecovery.kt:372-400 | the quarantined original is renamed unless committed, and deleted |
| SafCleanup.DeleteSlots | android/app/src/main/kotlin/com/rslnmzhn/mobilka/SafWorkspaceRecovery.kt:401-404 | the record goes last, slot by slot |
| SafCleanup.ReachableIsSweepable | android/app/src/main/kotlin/com/rslnmzhn/mobilka/SafWorkspaceRecovery.kt:346-405 | cleanup can start from every reachable arrangement |
| SafCleanup.HandleCleanup | android/app/src/main/kotlin/com/rslnmzhn/mobilka/SafWorkspaceRecovery.kt:346-405 | never changes what is visible, never loses a slot of the record before the rest, can start again from every moment it stopped at, and without failures leaves nothing |
| SafCleanup.CleanupLosesTheOriginalExactlyWhen | android/app/src/main/kotlin/com/rslnmzhn/mobilka/SafWorkspaceRecovery.kt:372-400 | cleanup loses the original of an incomplete operation if and only if reconcile answers notCommitted for an overwrite or deletion and the original is no more in its directory; otherwise it keeps the original, or the new content of a complete operation |
| SafCleanup.CleanupByPhase | android/app/src/main/kotlin/com/rslnmzhn/mobilka/SafWorkspaceRecovery.kt:372-400 | the same by the phase on record: the phases in which cleanup is fatal for every incomplete operation, and those in which it is harmless |
| SafCleanup.CleanupCanLoseTheOriginal | android/app/src/main/kotlin/com/rslnmzhn/mobilka/SafWorkspaceRecovery.kt:372-400 | a concrete run whose cleanup leaves the file nowhere |
| SafLife.LifeIsSafe | android/app/src/main/kotlin/com/rslnmzhn/mobilka/SafWorkspaceRecovery.kt:179-405 | over all calls and permitted cleanups, each stopped anywhere: prepared and rolledBack mean the old tree, committed the new one, and the original is gone only once the new tree is there |
| SafLife.CommitIsFinal | android/app/src/main/kotlin/com/rslnmzhn/mobilka/SafWorkspaceRecovery.kt:346-405 | after a committed record the new tree stays, although a stopped cleanup may bring back the record before it |
| SafLife.RollbackIsFinalExactlyWhen | android/app/src/main/kotlin/com/rslnmzhn/mobilka/SafWorkspaceRecovery.kt:401-404 | rolledBack means the old tree for good if and only if the operation is no deletion or move that could be carried out |
| SafLife.RolledBackCanBeCommitted | android/app/src/main/kotlin/com/rslnmzhn/mobilka/SafWorkspaceRecovery.kt:401-404 | a concrete life: rolledBack, a cleanup that stops after the slot state.a, and then a commit that deletes the file |
| SafLife.DecisionIsReplaced | android/app/src/main/kotlin/com/rslnmzhn/mobilka/SafOperationStateStore.kt:33-37 | the other slot of a decided record holds an undecided record of the same arrangement |
| SafLife.CleanupIsSwept | android/app/src/main/kotlin/com/rslnmzhn/mobilka/SafWorkspaceRecovery.kt:346-405 | every durable moment of the cleanup handler is one of the steps these runs allow |
| SafSlotStore.TornWriteIsInvisible | android/app/src/main/kotlin/com/rslnmzhn/mobilka/SafOperationStateStore.kt:33-39 | a torn write of the next slot changes nothing that can be loaded |
| SafSlotStore.WholeWriteIsLoaded | android/app/src/main/kotlin/com/rslnmzhn/mobilka/SafOperationStateStore.kt:17-45 | a whole write is loaded, one generation up, with the old record still in the other slot |
| SafSlotStore.LoadedIsGreatest | android/app/src/main/kotlin/com/rslnmzhn/mobilka/SafOperationStateStore.kt:17-22 | what is loaded is in one of the slots, and no readable slot has a greater generation |
| SafSlotStore.SlotStore.Write | android/app/src/main/kotlin/com/rslnmzhn/mobilka/SafOperationStateStore.kt:35-39 | the slot is torn first and then filled; every state between |
| SafSlotStore.SlotStore.Persist | android/app/src/main/kotlin/com/rslnmzhn/mobilka/SafOperationStateStore.kt:23-45 | at every durable moment the old or the new record loads, generations stay distinct; on success the other slot holds the payload one generation up; a stale previous is refused with no slot touched, exactly then |
| SafSlotStore.HistoryMovesForward | android/app/src/main/kotlin/com/rslnmzhn/mobilka/SafOperationStateStore.kt:17-45 | over whole histories of torn and whole writes the record never disappears, never gets older and never changes within a generation |
| SafSlotStore.HistoryTakesTurns | android/app/src/main/kotlin/com/rslnmzhn/mobilka/SafOperationStateStore.kt:29-34 | records of odd generations are always in state.a, those of even ones in state.b |
| SafSlotText.EnvelopeTaken | android/app/src/main/kotlin/com/rslnmzhn/mobilka/SafOperationStateStore.kt:47-81 | a written envelope is read back with its checksum and payload, whatever follows it |
| SafSlotText.EnvelopeStable | android/app/src/main/kotlin/com/rslnmzhn/mobilka/SafOperationStateStore.kt:47-60 | what is read as an envelope stays read when more follows |
| SafSlotText.NoPrefixIsRead | android/app/src/main/kotlin/com/rslnmzhn/mobilka/SafOperationStateStore.kt:47-60 | no proper prefix of an envelope is read as one |
| SafSlotText.WholeIsWhole | android/app/src/main/kotlin/com/rslnmzhn/mobilka/SafOperationStateStore.kt:47-66 | a slot that was written whole is read as the record |
| SafSlotText.RecordExactlyWhen | android/app/src/main/kotlin/com/rslnmzhn/mobilka/SafOperationStateStore.kt:47-66 | a whole envelope is a record if and only if it has the checksum of its payload, schema 2 and a generation of at least 1; otherwise it is as good as torn |
| SafSlotText.CutIsTorn | android/app/src/main/kotlin/com/rslnmzhn/mobilka/SafOperationStateStore.kt:47-66 | a slot whose write was cut after any number of bytes is not |
| SafSlotText.PersistIsAtomic | android/app/src/main/kotlin/com/rslnmzhn/mobilka/SafOperationStateStore.kt:23-45 | persist is atomic to the byte: until the last byte of the text the old record loads, from then on the new one |
| SafSlotText.TextIsFaithful | android/app/src/main/kotlin/com/rslnmzhn/mobilka/SafOperationStateStore.kt:70-81 | payloads with the same canonical text, and so with the same checksum input, are the same |
| RecordBytes.NumberOfLittle | linux/runner/session_workspace_state.cc:18-43 | a number that fits its field reads back |
| RecordBytes.LittleOfNumber | linux/runner/session_workspace_state.cc:31-43 | the bytes of a number written again are the same bytes |
| RecordBytes.TakeWrittenString | linux/runner/session_workspace_state.cc:26-53 | a written string reads back exactly when it has at most 4096 bytes, and otherwise fails to read |
| RecordBytes.TakeWrittenStrings | linux/runner/session_workspace_state.cc:105-113 | so does a list of strings, whatever follows it |
| RecordBytes.WrittenStringsTaken | linux/runner/session_workspace_state.cc:185-192 | strings that were read, written again, are the bytes they were read from |
| RecordBytes.Output.AppendNumber | linux/runner/session_workspace_state.cc:18-24 | appends the little-endian bytes by shifting |
| RecordBytes.Output.AppendString | linux/runner/session_workspace_state.cc:26-29 | appends the length and the string |
| RecordBytes.Input.ReadNumber | linux/runner/session_workspace_state.cc:31-43 | the cursor loop reads the number the field stands for, or fails |
| RecordBytes.Input.ReadString | linux/runner/session_workspace_state.cc:45-53 | the cursor reader agrees with the format |
| RecordBytes.Input.ReadStrings | linux/runner/session_workspace_state.cc:185-192 | the loop over the strings agrees with the format |
| LinuxRecordCodec.DecodedExactlyWhenEncoded | linux/runner/session_workspace_state.cc:94-193 | bijection: a file decodes to a state if and only if it is the encoding of that state and the state fits, which is that its size has 64 bits and its thirteen strings at most 4096 bytes each |
| LinuxRecordCodec.HeaderLayout | linux/runner/session_workspace_state.cc:94-104 | the file begins with MWS2, version 1, the number of the phase and the three flags, byte by byte |
| LinuxRecordCodec.EncodingFits | linux/runner/session_workspace_state.cc:110-114 | every encoding has at most 53324 bytes, so the check against 64 KiB never fires |
| LinuxRecordCodec.Serialize | linux/runner/session_workspace_state.cc:94-114 | the appending loop writes the encoding, and refuses for an overlong string only |
| LinuxRecordCodec.Deserialize | linux/runner/session_workspace_state.cc:155-194 | the cursor loop accepts exactly encodings that carry the caller's token |
| Decimals.TextRoundTrip | windows/runner/session_workspace_state.cpp:151-218 | every 64-bit integer reads back from its decimal text |
| Decimals.TextIsShort | windows/runner/session_workspace_state.cpp:151-152 | and the text has at most 20 characters |
| WindowsRecordCodec.TakeWrittenValue | windows/runner/session_workspace_state.cpp:147-219 | each of the four tagged values reads back, an overlong text does not |
| WindowsRecordCodec.TakeWrittenEntries | windows/runner/session_workspace_state.cpp:143-220 | the entries read back as a map, in whatever order they were written |
| WindowsRecordCodec.SavedThenLoaded | windows/runner/session_workspace_state.cpp:128-223 | a saved state loads back as itself if and only if its strings have at most 4096 bytes and its proof at most 32 entries, and otherwise does not load |
| WindowsRecordCodec.HeaderLayout | windows/runner/session_workspace_state.cpp:128-135 | the file begins with MWS1, version 2 and the number of the phase, byte by byte |
| WindowsPrepared.PreparedWriteLoadsExactlyWhen | windows/runner/session_workspace_prepare_commit.cpp:152-171 | what prepare stores for a write loads back if and only if the expected identity and hash of the request have at most 4096 bytes |
| WindowsPrepared.PreparedDirectoryLoadsExactlyWhen | windows/runner/session_workspace_prepare_commit.cpp:206-217 | so does the record of a new directory |
| WindowsPrepared.PreparedAwayLoadsExactlyWhen | windows/runner/session_workspace_prepare_commit.cpp:172-204 | the record of a deletion or a move loads back if and only if its destination, which prepare does not look at, has at most 4096 bytes |
| WindowsPrepared.LongIdentityIsSavedAndLost | windows/runner/session_workspace_prepare_commit.cpp:152-171 | a creation with an expected identity of 5000 bytes is saved and cannot be loaded |
| WindowsPrepared.LongDestinationIsSavedAndLost | windows/runner/session_workspace_prepare_commit.cpp:172-204 | a move to a destination of 5000 bytes is saved and cannot be loaded |
| WindowsRecordCodec.Serialize | windows/runner/session_workspace_state.cpp:128-159 | the loop writes the encoding, and refuses only for other kinds of keys or values and for the total size |
| WindowsRecordCodec.Deserialize | windows/runner/session_workspace_state.cpp:177-224 | the reader agrees with the format and the token |
| WindowsRecordCodec.ReadValue | windows/runner/session_workspace_state.cpp:211-219 | one tagged value |
| WindowsRecordCodec.WriteEntries | windows/runner/session_workspace_state.cpp:143-158 | the loop over the map |
| RelativePaths.Part | linux/runner/session_workspace_common.cc:79-95 | the loop accepts exactly the safe names |
| RelativePaths.SafeExactlyWhen | linux/runner/session_workspace_common.cc:79-95 | a safe name said byte by byte, with the device names in capital or small letters, alone or before a dot |
| RelativePaths.CaseMakesNoDifference | linux/runner/session_workspace_common.cc:88-95 | names that differ only in the case of letters are both safe or both not |
| RelativePaths.JoinOfSplit | linux/runner/session_workspace_common.cc:104-116 | splitting at slashes loses nothing |
| RelativePaths.SplitOfJoin | linux/runner/session_workspace_common.cc:104-116 | names without slashes come back from their path |
| RelativePaths.PartsExactlyWhen | linux/runner/session_workspace_common.cc:96-118 | a path parses to a list of names if and only if it is those names with slashes between them, safe, at most 16 and at most 1024 bytes |
| RelativePaths.HiddenIsUnreachable | linux/runner/session_workspace_common.cc:79-118 | no parsed path has a part that starts with a dot, so none leads into the hidden directory |
| RelativePaths.RefusedAtOnce | linux/runner/session_workspace_common.cc:101-103 | the checks before the loop refuse nothing the loop would accept |
| RelativePaths.ParseRelative | linux/runner/session_workspace_common.cc:96-118 | the loop computes exactly this; what is accepted has at most 1024 bytes and 16 safe parts and is those parts with slashes between them, what is refused has too many, is too long or has an unsafe part |
| WorkspaceListing.ListedExactlyWhenReached | linux/runner/session_workspace_read.cc:70-129 | a path is listed if and only if a path of shown names leads there |
| WorkspaceListing.DirectlyListedExactlyWhen | linux/runner/session_workspace_read.cc:105-112 | without recursion exactly the paths of one name are listed |
| WorkspaceListing.AcceptableExactlyWhen | linux/runner/session_workspace_read.cc:78-118 | a tree may be listed if and only if every path of names without a leading dot ends in a safe name of a file or a directory |
| WorkspaceListing.ListingIsAscending | linux/runner/session_workspace_read.cc:104-127 | the listing is in preorder with sorted siblings |
| WorkspaceListing.NothingTwice | linux/runner/session_workspace_read.cc:104-127 | nothing is listed twice |
| WorkspaceListing.SortIsSorted | linux/runner/session_workspace_read.cc:104-104 | sorting keeps the names and orders them strictly |
| WorkspaceListing.SinglePart | linux/runner/session_workspace_read.cc:95-100 | a name parses as a path of one part exactly when it is a safe name |
| WorkspaceListing.ReadNames | linux/runner/session_workspace_read.cc:78-103 | the first pass: all shown names, all safe, at most 500, or a refusal with a reason |
| WorkspaceListing.ListOne | linux/runner/session_workspace_read.cc:105-127 | one entry and what is below it, if it still fits |
| WorkspaceListing.ListInto | linux/runner/session_workspace_read.cc:70-129 | succeeds if and only if every shown name is safe, everything is a file or a directory and there are at most 500 items, and then appends exactly the whole listing |
| Utf8.DecodedExactlyWhenEncoded | native/documents/document_pdf.cpp:31-51 | the strict decoder of section 4 of RFC 3629 accepts exactly what append_unicode writes and gives back the same characters |
| Utf8.BoundaryExactlyBetweenCharacters | linux/runner/session_workspace_read.cc:204-206 | the one-byte test finds exactly the places between two characters |
| Utf8.DecodeJoined | linux/runner/session_workspace_read.cc:204-221 | texts one after another decode to the characters one after another |
| WorkspacePaging.HandleRead | linux/runner/session_workspace_read.cc:169-225 | every refusal with its exact reason; a page ends within the request, both sides of its end are texts, and this is so at no later place within the request |
| WorkspacePaging.PageIsLongest | linux/runner/session_workspace_read.cc:211-213 | no later cut within the request leaves a text on both sides |
| WorkspacePaging.AdvancesExactlyWhenCharacterFits | linux/runner/session_workspace_read.cc:211-213 | a page makes progress if and only if the next character fits in it, so always with four bytes |
| WorkspacePaging.PagesRebuildTheFile | linux/runner/session_workspace_read.cc:200-221 | following nextOffset ends, and the pages are nonempty texts that concatenate to the file, byte for byte and character for character |
| WorkspacePaging.WrittenCharactersAreRead | native/documents/document_pdf.cpp:31-51 | characters written by append_unicode are read back page by page |
| DocumentEngine.Append | native/documents/document_engine.cpp:18-21 | grows the text exactly when it stays within the limit |
| DocumentEngine.AppendUnicode | native/documents/document_pdf.cpp:31-51 | refuses exactly what is no character or does not fit |
| DocumentEngine.CheckPixels | native/documents/document_engine.cpp:9-16 | exact check with no product, sum or difference that wraps in 32 bits |
| DocumentEngine.ReadCharacters | native/documents/document_pdf.cpp:78-83 | the loop succeeds exactly when all characters are ones and fit together, and then yields their encoding |
| DocumentEngine.PresentJoined | native/documents/document_pdf.cpp:78-83 | the characters of two runs are those of the first and then those of the second |
| DocumentEngine.OneCharacter | native/documents/document_pdf.cpp:78-83 | zero is no character, every other is itself |
| DocumentEngine.BoundedLength | native/documents/document_ocr.cpp:48-50 | counting stops one past what is left and never runs off the string |
| DocumentEngine.AppendSymbol | native/documents/document_ocr.cpp:44-56 | if it fits, the bytes of the symbol and then 10 where a line ends, 32 where only a word ends, and nothing else; otherwise refused |
| DocumentEngine.Recognize | native/documents/document_ocr.cpp:29-59 | the loop yields all symbols exactly when they fit; their bytes are given by the next two lemmas |
| DocumentEngine.SymbolsJoined | native/documents/document_ocr.cpp:36-57 | the symbols come one after the other |
| DocumentEngine.OneSymbol | native/documents/document_ocr.cpp:44-56 | a symbol is its bytes and then 10 where a line ends, 32 where only a word ends; a symbol without a text is nothing |
| DocumentEngine.MeasureRaster | native/documents/document_pdf.cpp:85-94 | exact raster size and budget check |
| DocumentEngine.ExtractPage | native/documents/document_pdf.cpp:66-111 | one page is delivered exactly when it is readable and fits what is left |
| DocumentEngine.BudgetLeft | native/documents/document_pdf.cpp:64-115 | pages within the budgets fit one by one into what the others left |
| DocumentEngine.ExtractPages | native/documents/document_pdf.cpp:64-115 | the page loop overdraws no budget and delivers exactly the requests that can be met |
| DocumentEngine.DeliverableExactlyWhen | native/documents/document_pdf.cpp:64-115 | a request can be met if and only if every page can be read, each is within the limits of a page, and the sums of text and pixels are within those of the request |
| DocumentEngine.TextIsDeliverableExactlyWhen | native/documents/document_pdf.cpp:66-84 | for text layers, in terms of what the library reports: every page has characters that are ones, no more than are left for it, and the texts fit |
| DocumentEngine.ScansAreDeliverableExactlyWhen | native/documents/document_pdf.cpp:85-111 | for scanned pages: every page can be drawn and recognized, rasters and texts fit page by page and together |
| DocumentEngine.ProcessPdf | native/documents/document_pdf.cpp:54-117 | success if and only if the selected pages exist, are readable and as they are stay within every budget, and then exactly those pages; otherwise nothing, with the reason for an unreadable document, a document with no or too many pages, and a range outside it |
| DocumentEngine.ProcessImage | native/documents/document_ocr.cpp:61-82 | the same for an image |
| DocumentEngine.Process | native/documents/document_engine.cpp:23-57 | accepted is exactly a request within all ceilings; an accepted PDF request succeeds if and only if its range is in the document and those pages can be delivered, with each page carrying its number, its own text and its own raster; an accepted image if and only if it is readable and within the limits, with its one page; every other request is refused |
| DocumentFrames.BigRoundTrip | android/app/src/main/cpp/document_worker_jni.cpp:18-21 | a 32-bit number reads back |
| DocumentFrames.FieldsOfBody | android/app/src/main/cpp/document_worker_jni.cpp:23-33 | every field of a frame is read back from its place |
| DocumentFrames.BodyOfFields | lib/features/documents/data/document_worker_protocol.dart:184-233 | a body whose fields are in order is the body of the frame that is read from it |
| DocumentFrames.FrameLayout | android/app/src/main/cpp/document_worker_jni.cpp:23-33 | the place of every field on the wire, numbers with the highest byte first |
| DocumentFrames.KindsOnTheWire | android/app/src/main/cpp/document_worker_jni.cpp:69-86 | page, last and error frames as they look on the wire |
| DocumentFrames.CodesOfRequests | android/app/src/main/cpp/document_worker_jni.cpp:80-86 | how the codes of a refused request are spelled |
| DocumentFrames.CodesOfDocuments | android/app/src/main/cpp/document_worker_jni.cpp:80-86 | how the codes of a document that failed are spelled |
| DocumentFrames.AppendFrame | android/app/src/main/cpp/document_worker_jni.cpp:23-33 | the pushes write the frame |
| DocumentFrames.OffsetFits | android/app/src/main/cpp/document_worker_jni.cpp:70-77 | offsets are prefix sums and stay below the output limit |
| DocumentFrames.ResponseFits | android/app/src/main/kotlin/com/rslnmzhn/mobilka/documents/DocumentWorkerService.kt:94-94 | a response is its text and 51 bytes a frame, so no size check of it ever fires |
| DocumentFrames.Respond | android/app/src/main/cpp/document_worker_jni.cpp:69-91 | the loop writes exactly the frames, its offset never wraps, and it always returns a response |
| DocumentDecoder.RasterAllowedExactlyWhenFits | lib/features/documents/domain/document_limits.dart:102-111 | the application's division and the engine's multiplication agree |
| DocumentDecoder.FeedJoined | lib/features/documents/data/document_worker_protocol.dart:144-182 | where a response is cut makes no difference |
| DocumentDecoder.ChunksAreOneStream | lib/features/documents/data/document_worker_protocol.dart:144-182 | nor do chunks, within the wire limits |
| DocumentDecoder.FeedFrame | lib/features/documents/data/document_worker_protocol.dart:156-181 | a frame is collected byte by byte and judged once, if its announced length is allowed |
| DocumentDecoder.PageIsConsumed | lib/features/documents/data/document_worker_protocol.dart:184-261 | a page frame that follows on is accepted exactly when its text is valid |
| DocumentDecoder.PagesAreReceived | lib/features/documents/data/document_worker_protocol.dart:184-261 | the page frames of a budgeted result all arrive, or the first text that is not one is refused |
| DocumentDecoder.ResponseIsReceived | lib/features/documents/data/document_worker_protocol.dart:144-261 | end to end: what the engine delivers within its budgets the application receives page for page, however it is cut into chunks, unless a text is not valid UTF-8 |
| DocumentDecoder.OnlyResponsesAreReceived | lib/features/documents/data/document_worker_protocol.dart:144-261 | the converse: bytes that are received to the end are the frames of exactly the pages asked for, numbered in order, with valid texts, within every limit, and what is handed out is those pages |
| DocumentDecoder.ReceivedExactlyWhenSent | lib/features/documents/data/document_worker_protocol.dart:135-268 | chunks are received to the end if and only if none is over 65536 bytes and together they are the response of such pages |
| DocumentDecoder.TextIsKeptExactlyWhen | lib/features/documents/data/document_worker_protocol.dart:234-261 | a text is read as it was written if and only if it is invalid anyway or does not start with the bytes EF BB BF |
| DocumentDecoder.ResponseArrivesAsSentExactlyWhen | lib/features/documents/data/document_worker_protocol.dart:144-261 | end to end: all pages arrive with the texts that were sent if and only if all are valid UTF-8 and none starts with the mark |
| DocumentDecoder.TextLayersArriveExactlyWhen | native/documents/document_pdf.cpp:64-115 | end to end for a PDF: a page arrives character for character if and only if its first character is not U+FEFF |
| DocumentDecoder.MarkedPageIsDelivered | native/documents/document_pdf.cpp:75-83 | a text layer of U+FEFF and a letter is extracted with both, within the budgets |
| DocumentDecoder.MarkIsLost | lib/features/documents/data/document_worker_protocol.dart:234-261 | and the application receives the letter alone |
| DocumentDecoder.TextLayersAreText | native/documents/document_pdf.cpp:75-83 | the text layer of a PDF always is |
| DocumentDecoder.ErrorIsReported | android/app/src/main/cpp/document_worker_jni.cpp:80-86 | a failure, that of an invalid request included, is reported with its code if and only if the code is within the output limits |
| DocumentDecoder.ErrorCanBeLost | lib/features/documents/data/document_worker_protocol.dart:156-170 | with one byte of output per page an unreadable document is reported as too much output |
| DocumentDecoder.WindowsResponseIsNeverReceived | windows/document_worker/protocol.cpp:68-137 | every response of the Windows worker, successful or not, is refused |
| DocumentDecoder.ResponseDecoder.AddByte | lib/features/documents/data/document_worker_protocol.dart:156-181 | one byte moves the decoder as specified |
| DocumentDecoder.ResponseDecoder.ConsumeFrame | lib/features/documents/data/document_worker_protocol.dart:184-233 | one frame is judged as specified |
| DocumentDecoder.ResponseDecoder.ConsumePageFrame | lib/features/documents/data/document_worker_protocol.dart:234-261 | one page frame is judged as specified |
| DocumentDecoder.ResponseDecoder.Add | lib/features/documents/data/document_worker_protocol.dart:135-182 | one chunk moves the decoder as specified, and after a refusal every chunk is refused |
| DocumentDecoder.ResponseDecoder.Finish | lib/features/documents/data/document_worker_protocol.dart:263-268 | pages only after a whole response |
| AaptXmlTree.Parse | android/buildSrc/src/main/kotlin/UpdaterProviderVerifier.kt:16-66 | the loops over lines and stack compute the folded parser, with the stack's indents strictly increasing |
| AaptXmlTree.StepKeepsIncreasing | android/buildSrc/src/main/kotlin/UpdaterProviderVerifier.kt:22-63 | no line breaks the order of the stack |
| AaptXmlTree.RunKeepsIncreasing | android/buildSrc/src/main/kotlin/UpdaterProviderVerifier.kt:22-63 | nor do any lines |
| AaptXmlTree.TreeIsRead | android/buildSrc/src/main/kotlin/UpdaterProviderVerifier.kt:22-58 | reading the lines of a tree anywhere in a dump and leaving it attaches exactly that tree |
| AaptXmlTree.NamespacesChangeNothing | android/buildSrc/src/main/kotlin/UpdaterProviderVerifier.kt:60-62 | namespace lines anywhere in a dump change nothing |
| AaptXmlTree.PrintedTreeIsParsed | android/buildSrc/src/main/kotlin/UpdaterProviderVerifier.kt:16-66 | every tree comes back from every way to print it with children further in than their parent and no further in than the sibling before, with namespace lines anywhere |
| AaptXmlTree.PrintingIsFaithful | android/buildSrc/src/main/kotlin/UpdaterProviderVerifier.kt:16-66 | two trees printed the same are the same |
| AaptXmlTree.AttributeGoesTo | android/buildSrc/src/main/kotlin/UpdaterProviderVerifier.kt:33-58 | an attribute is added to the innermost open element further out, also after children of it, and nothing else changes |
| AaptXmlTree.FirstFaultIsReported | android/buildSrc/src/main/kotlin/UpdaterProviderVerifier.kt:22-63 | the first faulty line decides what is reported |
| AaptXmlTree.TreeExactlyWhen | android/buildSrc/src/main/kotlin/UpdaterProviderVerifier.kt:16-66 | a dump is a tree if and only if every line is supported, every attribute has a value and an element further out before it, and one element comes before and further out than all others |

## Left out

- Operating system mechanics: handle flags, reparse points, sharing modes, permissions, the order in which flushes reach the disk. A rename, exchange, unlink or persist is one atomic step that may fail.
- LinuxHandlers.CommitOverwrite: another writer is modelled up to the rename, as any number of changes that end in one state of the path; a second writer between a failed proof and the swap back is not modelled.
- LinuxHandlers.CommitDelete: the same; a second writer between a failed proof and the move back is not modelled.
- LinuxHandlers.CommitMove: the same, and other writers at the destination are not modelled.
- LinuxHandlers.HandlePrepare: a creation that passes over an occupied path because a read failed does not start the protocol; `OccupiedPathIsKept` says what happens to the path.
- WindowsHandlers.HandleRollback: deleting the installed result frees its name at once. In the source the handle of the deleted file is still open while `.old` is renamed, so the first rollback of an installed overwrite may fail there, and a retry succeeds; the model has that failure only as one of the failures of the rename.
- SafLife.RollbackIsFinalExactlyWhen: a cleanup that is repeated after the replaced record came back finds nothing hidden and only deletes the last slot; that end of a life is not a step.
- LinuxInterleaving.EachStaysAtomic: paths are independent entries. An operation on a path below a directory that another operation makes or moves is excluded by assumption.
- HandleMetadata, HandleReadBinary and the Windows and Android readers: they add only easy members.
- SafProtocol.PreparedIsGood: the Android prepare is modelled by the state it leaves (`SafProtocol.PreparedView`), not step by step.
- SafSlotStore.SlotStore.Write: a slot is torn or whole; `SafSlotText` shows that the text of a slot is one or the other at every byte.
- SafSlotStore.SlotStore.Persist: the same. In `SafSlotText` a payload is flat, SHA-256 is any function of the text, and only canonical JSON is read; what a lenient parser takes besides is never written.
- The error codes of a refusal are modelled where a caller can act on them; some that the sources distinguish are merged.
- DocumentEngine.ProcessPdf: which of several reasons a request reports that fails at one of its pages is not stated, only that it delivers nothing.
- What PDFium, Tesseract and Leptonica compute: pages, symbols and images are arbitrary inputs. Page sizes are real numbers or not finite.
- WindowsRecordCodec.ReadValue: the same as for Deserialize.
- WindowsRecordCodec.Deserialize: where `std::stoll` throws, the model refuses the file; the exception itself is not modelled.
- WorkspaceListing.ListInto: paths are lists of names; the source joins them with slashes, which `RelativePaths.JoinConcat` relates. Size and identity of an entry are not listed.
- AaptXmlTree.Parse: nodes are values that are attached when their element is left, where the source appends to shared mutable lists at once; lines are taken as already matched by the regular expressions.
- The random token, the method channels, window shells, updater staging, the broker and service lifecycles: thin wrappers around foreign calls.
