# Verification of the file, software and security services

A Dafny model of the parts of this repository in which state, failure and interleaving are hardest to get right, with proofs of what they promise.

* **File operations** (`FileTree`, `MoveSequences`, `TargetNames`, `FileSystems`, `FileOperations`, `Trash`, `FileOperationsService`). The file system is a map from paths to nodes, and a rename rewrites a prefix. Any operation may be refused by the operating system; the model counts the refusals that the tree does not explain, so that a theorem can say exactly which failures are the system's doing.
* **Software tasks** (`SoftwareTasks`, `SoftwareProgress`, `SoftwareMachine`, `SoftwareSafety`, `SoftwareRuns`, `SoftwareOutcomes`, `SoftwareManager`, `SnapdProgress`). One transition per call, with backend, network and clock as arbitrary answers, and bookkeeping of the changes that are still live. A change that is reported completed, failed, interrupted or canceled is over, and a refused start created none. The manager class carries out the transitions on its store.
* **Backups** (`Backups`, `BackupRestores`, `BackupManagers`). Synchronizing records with snapshots, and the protocol of a restore.
* **Scanner** (`PatternSearch`, `ScanContracts`, `ScanScopes`, `Sorting`, `FileScanners`). The chunk loop with its overlap window, the detector sessions and the assembled result. The answers of clock, reads, final status and detectors are inputs, and the result is determined by them.
* **Campaigns** (`Candidates`, `CandidateFiles`, `VisitedDirectories`, `Campaigns`, `CleanContents`). The bounded walk of a directory tree, one campaign, jobs over several scopes, and what a campaign with the scanner above says about file contents. Deadline and cancellation are inputs.
* **Scan jobs** (`JobMachine`, `JobRuns`, `SecurityJobs`). One step for each block that holds the lock, and theorems about every interleaving of these steps.
* **Quarantine** (`Quarantine`, `QuarantineRuns`, `QuarantineManagers`). Every operation of a call has an answer that is an input. A call is the sequence of the states after each of its operations, and a call that is cut short leaves one of these behind. Theorems are about every sequence of calls, cuts, restarts and outside changes; the manager class carries out these sequences operation by operation.
* **Virtual mounts** (`VirtualMounts`). The deepest-mount resolver of the scenario lab.

Methods follow the control flow of the source and are proved against functions or relations on states; lemmas about those state the promises. Ghost fields and out-parameters hold what the program does not record: refusals, live changes, the stage of a thread, the states that a call went through.

Where the code does not do what is promised of it, the model follows the code, and a lemma gives the exact condition, a counterexample, or both:

* a selection with an item inside an item that is moved before it is planned without complaint, and then fails in the middle, although nothing was refused; the tree is restored (`FileOperations.MoveAll`, `MoveSequences.PlanSucceedsIff`);
* a move that fails without any refusal leaves a newly made container behind exactly when two items of one name were to keep it (`FileOperations.ExecuteMove`), and a metadata file whose write broke off stays in the trash (`Trash.ExecuteTrash`, `Trash.HalfWrittenInfoStaysBehind`);
* a plan stays `committing` exactly when the root of its destination's role is no longer a directory while its selection is unchanged, because `commit` does not translate that error (`FileOperationsService.Service.Commit`, `FileOperationsService.RootCanBeMissing`);
* numbering a name that ends in a dot does not keep its suffix (`TargetNames.NumberingKeepsSuffixIff`);
* the exclusion `.` hides every file from a campaign, which then scans nothing and still finds no threat exactly if it runs through and its root shows no link and no entry without status (`Campaigns.Campaign.ExcludedRootScansNothing`), and a campaign started at `./` has every file refused (`Campaigns.DotSlashCampaignScansNothing`);
* a campaign exceeds its byte bound exactly if the last file it scans measures more than there was room for, because that file grew after it was listed (`Campaigns.Campaign.OverTheByteBoundIff`, `Campaigns.BytesBoundNeedsStableSizes`);
* a failed database write at the start of a job blocks all later jobs until the process restarts (`JobRuns.LostJobBlocksForever`);
* a quarantine record is stuck, or says `quarantined` without having its object, after exactly these events: a call cut between claiming its record and settling it, a commit whose undo is refused, and a restore that slips (`QuarantineRuns.StepIsCleanIff`, `QuarantineRuns.RestoreSlipsIff`); it stays so for good (`QuarantineRuns.BrokenIsForever`);
* a virtual path does not come back from its physical path exactly when the first listed volume that contains its file shows it elsewhere, as nested storage can make it (`VirtualMounts.RoundTripIff`, `VirtualMounts.NestedStorageBreaksRoundTrip`).

`dafny verify dfyconfig.toml` checks the whole project.

## Model

| member | source | states |
|---|---|---|
| FileTree.RenameInverse | modules/file-operations/src/ai_native_file_operations/service.py:640-651 | Renaming an item, with everything below it, to a free name and renaming it back is possible and gives exactly the tree before |
| FileTree.RenamedKeepsWellFormed | modules/file-operations/src/ai_native_file_operations/service.py:630-637 | After a permitted `os.replace` every node still lies in a directory |
| FileTree.RenamedKeys | modules/file-operations/src/ai_native_file_operations/service.py:630-637 | A path exists after a rename exactly when it lies at or below the target and its origin existed, or was outside both source and target before |
| MoveSequences.RollbackRestores | modules/file-operations/src/ai_native_file_operations/service.py:640-651 | For every sequence of renames to free names, nested items included, undoing them in reverse order restores the tree exactly |
| MoveSequences.UndoStep | modules/file-operations/src/ai_native_file_operations/service.py:642-647 | After the later moves were undone, each undo finds its original path free and gives the tree before that move |
| MoveSequences.FreeMovesLoseNothing | modules/file-operations/src/ai_native_file_operations/service.py:328-330 | After any number of such renames, the nodes before and after correspond one to one: none lost, copied, overwritten or added |
| MoveSequences.RunLands | modules/file-operations/src/ai_native_file_operations/service.py:328-330 | A completed plan puts every node at its landing path: the first selected item containing it takes it along |
| MoveSequences.SourceOutsideTargets | modules/file-operations/src/ai_native_file_operations/service.py:321-325 | Comparing only target i with source i already keeps every target outside every source |
| MoveSequences.TargetStaysFree | modules/file-operations/src/ai_native_file_operations/service.py:597-632 | A planned target is still free when its turn comes: no later absence check can fail |
| MoveSequences.StaysIff | modules/file-operations/src/ai_native_file_operations/service.py:328-330 | During a plan an original path still holds its node until a selected item that contains it is moved, and not afterwards |
| MoveSequences.NextMove | modules/file-operations/src/ai_native_file_operations/service.py:328-330 | The next rename of a plan is possible exactly when its source did not move away with an earlier item |
| MoveSequences.PlanSucceedsIff | modules/file-operations/src/ai_native_file_operations/service.py:328-330 | A whole plan can go through exactly when no item lies inside an item that is moved before it |
| TargetNames.AvailableTarget | modules/file-operations/src/ai_native_file_operations/service.py:597-608 | The path itself if free; else an error under `fail`; else the first free numbered name, or an error after 1000 taken ones, which never happens in a directory with at most 1000 entries |
| TargetNames.UnreservedTarget | modules/file-operations/src/ai_native_file_operations/service.py:617-624 | The retry loop ends with the one answer that naming calls for: the first free form of the name, numbered again for as long as that form is claimed, up to the first unclaimed one |
| TargetNames.UnreservedIsUnique | modules/file-operations/src/ai_native_file_operations/service.py:617-624 | Naming one item has exactly one answer |
| TargetNames.UnreservedIsGood | modules/file-operations/src/ai_native_file_operations/service.py:617-624 | The target is free, unclaimed and beside the candidate, and differs from it exactly when the candidate is taken or claimed; under `rename` naming fails only if some name of the directory and its 1000 numbered forms are taken |
| TargetNames.TargetsForSources | modules/file-operations/src/ai_native_file_operations/service.py:611-627 | Every item gets the target that naming calls for, in order, or the error at which naming stops is reported; it succeeds exactly unless naming fails on this input |
| TargetNames.NamedAreGood | modules/file-operations/src/ai_native_file_operations/service.py:611-627 | Planned targets are pairwise distinct, free and directly in the container; an item is renamed exactly when its name is taken on disk or by an earlier item |
| TargetNames.NamedOrFails | modules/file-operations/src/ai_native_file_operations/service.py:611-627 | Either every item gets a target or naming fails, never both |
| TargetNames.NamingFailsIff | modules/file-operations/src/ai_native_file_operations/service.py:611-627 | Under `fail` naming fails exactly when some name is taken or shared by two items |
| TargetNames.RenamingFindsNames | modules/file-operations/src/ai_native_file_operations/service.py:611-627 | Under `rename` naming never fails in a container with at most 1000 entries |
| TargetNames.NamingInEmptyDirectory | modules/file-operations/src/ai_native_file_operations/service.py:611-627 | Where nothing is in the container, naming fails exactly under `fail` with two items of one name |
| TargetNames.NamingFailsAgrees | modules/file-operations/src/ai_native_file_operations/service.py:611-627 | Naming depends only on what is directly in the container |
| TargetNames.NumberedPath | modules/file-operations/src/ai_native_file_operations/service.py:605 | A numbered name stays in its directory and is strictly longer; which name it is, is said by the next three rows |
| TargetNames.NumberedSpells | modules/file-operations/src/ai_native_file_operations/service.py:602-605 | Numbering puts a space and, in parentheses, the decimal numeral of the ordinal, without leading zeros, between stem and suffix |
| TargetNames.NumberedDiffer | modules/file-operations/src/ai_native_file_operations/service.py:604-607 | Different ordinals give different names |
| TargetNames.SuffixIff | modules/file-operations/src/ai_native_file_operations/service.py:602-603 | Stem and suffix make up the name; the suffix starts at the last dot unless that is the first or the last character |
| TargetNames.DecimalReads | modules/file-operations/src/ai_native_file_operations/service.py:605 | The digits of an ordinal read as that number and have no leading zero |
| TargetNames.ExhaustedIsCrowded | modules/file-operations/src/ai_native_file_operations/service.py:604-608 | A name and all its numbered forms are taken only in a directory with more than 1000 entries |
| TargetNames.NumberingKeepsSuffixIff | modules/file-operations/src/ai_native_file_operations/service.py:602-605 | Numbering keeps the suffix of a name exactly unless the name ends in a dot |
| FileOperations.AtomicMove | modules/file-operations/src/ai_native_file_operations/service.py:630-637 | Succeeds only onto a free name and then is that rename; otherwise nothing changes; `destination_exists` exactly when the target exists |
| FileOperations.RollbackMoves | modules/file-operations/src/ai_native_file_operations/service.py:640-651 | Either the tree before the moves is back, or a rename was refused, the failure is reported, and no node is lost |
| FileOperations.MoveUntilError | modules/file-operations/src/ai_native_file_operations/service.py:328-331 | The moves done so far are free moves from the start; which error ends the loop, and that without a refusal the move at which it stops was not a free one |
| FileOperations.RecoverFrom | modules/file-operations/src/ai_native_file_operations/service.py:331-337 | Reports the first error exactly when no rename was refused during the rollback, and then the tree before the loop is back; otherwise `rollback_failed` with nothing lost |
| FileOperations.MoveAll | modules/file-operations/src/ai_native_file_operations/service.py:326-337 | All items reach their targets, or the tree is restored, or `rollback_failed` is reported and nothing is lost; without refusals it succeeds exactly when no item lies in an earlier one |
| FileOperations.WhereAPlanStops | modules/file-operations/src/ai_native_file_operations/service.py:326-332 | A plan stops before its end, without a refusal, only at an item inside an earlier item |
| FileOperations.FirstTargetInsideSource | modules/file-operations/src/ai_native_file_operations/service.py:321-325 | Detects exactly the selections in which an item would be moved into itself |
| FileOperations.OpenContainer | modules/file-operations/src/ai_native_file_operations/service.py:309-317 | The container is a directory afterwards; it is created exactly when it was missing, and an error changes nothing |
| FileOperations.SafeDestination | modules/file-operations/src/ai_native_file_operations/service.py:477-495 | Accepts exactly existing directories; the error for a missing role root is given exactly for those, and differs from that of an unsafe trusted directory |
| FileOperations.PlanMoves | modules/file-operations/src/ai_native_file_operations/service.py:318-325 | A plan moves exactly the selected items in order, to the targets that naming calls for, outside their sources; a naming error exactly if naming fails, and else `destination_inside_source` exactly if an item contains the container |
| FileOperations.MoveInto | modules/file-operations/src/ai_native_file_operations/service.py:318-337 | Filling an open container: a naming error exactly if naming fails; without a refusal it succeeds exactly if naming does and no item contains the container or lies in an earlier item; and what each kind of failure leaves behind |
| FileOperations.ExecuteMove | modules/file-operations/src/ai_native_file_operations/service.py:306-342 | A move completes as planned and named, without a refusal exactly if the container can be opened, naming succeeds there and no item contains it or lies in an earlier item; a failed move to which nothing was refused leaves a directory behind exactly when its container was new and two items of one name were to keep it; or `rollback_failed`, after a refused rename, with nothing lost |
| FileOperations.CompletedMoveLands | modules/file-operations/src/ai_native_file_operations/service.py:306-342 | After a completed move every node is at its landing path, and no item lay inside an earlier one |
| FileOperations.ExecuteRename | modules/file-operations/src/ai_native_file_operations/service.py:344-351 | Moves the whole item to the first free name beside it or changes nothing; a naming error exactly if the name is taken and, under `rename`, all its numbered forms are, and so never in a directory with at most 1000 entries; without a refusal it succeeds in all other cases; `rename_is_noop` never occurs |
| FileOperations.RequireSafeDirectory | modules/file-operations/src/ai_native_file_operations/service.py:572-589 | Accepts exactly existing directories; the error tells whether the path goes through a link |
| FileOperations.ExecuteCreateDirectory | modules/file-operations/src/ai_native_file_operations/service.py:290-296 | Adds exactly one empty directory or changes nothing; without a refusal it succeeds exactly when the parent is a directory and the name is free |
| Trash.RunBesideFile | modules/file-operations/src/ai_native_file_operations/service.py:363-368 | A metadata file beside the moves may be added before or after them with the same result |
| Trash.AddInfoFile | modules/file-operations/src/ai_native_file_operations/service.py:366-368 | Writing metadata after a move leads to the state of running the same moves with that file present from the start |
| Trash.RemoveInfoFile | modules/file-operations/src/ai_native_file_operations/service.py:370-371 | Removing a written metadata file leads to the state of the same moves without it |
| Trash.OneMoreTrashed | modules/file-operations/src/ai_native_file_operations/service.py:363-368 | One more item: its metadata is listed, left over half-written, or was not created, and nothing else changed |
| Trash.NextItemGoesThrough | modules/file-operations/src/ai_native_file_operations/service.py:363-368 | The next item can be moved and its metadata created exactly when it has not moved with an earlier item and its metadata name is free |
| Trash.TrashOne | modules/file-operations/src/ai_native_file_operations/service.py:364-367 | One item with its metadata: which of the two happened for every error |
| Trash.TrashUntilError | modules/file-operations/src/ai_native_file_operations/service.py:363-369 | The loop up to its first error: which items moved and which metadata files exist, listed or left over |
| Trash.RemoveInfoFiles | modules/file-operations/src/ai_native_file_operations/service.py:370-371 | Afterwards only left-over metadata remains, unless a removal was refused |
| Trash.ExecuteTrash | modules/file-operations/src/ai_native_file_operations/service.py:353-376 | Completed trash holds every item in `files/` at the target that naming calls for, with one new metadata file named after it and describing its original path; a failure without a refused removal restores everything but at most one new, half-written metadata file, which is there exactly if a write broke off; `rollback_failed` only after a refused rename, with nothing lost or overwritten; without refusals it succeeds exactly when the trash can be opened, naming succeeds, no item contains it or lies in an earlier item, and no metadata name is taken |
| Trash.TrashedIsStored | modules/file-operations/src/ai_native_file_operations/service.py:353-368 | A trashed item lies directly in `files/`, and `info/` has a file of its new name plus `.trashinfo` that describes its original path |
| Trash.MetadataFreeIff | modules/file-operations/src/ai_native_file_operations/service.py:353-368 | Whether a metadata name is taken can be told from the tree before the trash is opened |
| Trash.UndoBesideFile | modules/file-operations/src/ai_native_file_operations/service.py:366-372 | Rolling back past an unlisted metadata file gives the tree before, plus that file |
| Trash.HalfWrittenInfoStaysBehind | modules/file-operations/src/ai_native_file_operations/service.py:366-372 | Counterexample to a complete cleanup: a metadata file that was created but not fully written is never removed |
| FileOperationsService.Service.Selection | modules/file-operations/src/ai_native_file_operations/service.py:378-420 | Accepted exactly if it has 1 to max items, no duplicates, and every path lies in exactly one root, exists, and goes through no link; which refusal is given for which first path |
| FileOperationsService.IsAllowedIff | modules/file-operations/src/ai_native_file_operations/service.py:449-457 | A path is allowed exactly if one root is at or above it and no other |
| FileOperationsService.Service.RefusalIff | modules/file-operations/src/ai_native_file_operations/service.py:398-411 | Which refusal a path meets, in terms of the prefix order of paths, links and the tree |
| FileOperationsService.Service.Prepare | modules/file-operations/src/ai_native_file_operations/service.py:194-252 | A role destination is accepted exactly if its root is a directory, a trusted one exactly if it lies in one root, is a directory and is reached without a link, with an exact condition for each error; success stores one fresh prepared plan with its deadline and changes no other plan |
| FileOperationsService.Service.DestinationRefusalIff | modules/file-operations/src/ai_native_file_operations/service.py:460-487 | Which destination is refused with which error, in terms of the prefix order of paths, links and the tree |
| FileOperationsService.AllowedItemsAreApartIff | modules/file-operations/src/ai_native_file_operations/service.py:108-123 | With roots that do not contain one another or the trash, every item a selection may hold is apart from the metadata of the trash exactly when no root lies in there |
| FileOperationsService.Service.Cancel | modules/file-operations/src/ai_native_file_operations/service.py:254-260 | Cancels exactly prepared plans |
| FileOperationsService.Service.Execute | modules/file-operations/src/ai_native_file_operations/service.py:289-304 | A changed selection is refused untouched; a missing role root is reported exactly when there is one; without a refusal it succeeds exactly for the inputs of its kind; otherwise it failed with everything restored but what the failures of its kind leave behind |
| FileOperationsService.Service.Commit | modules/file-operations/src/ai_native_file_operations/service.py:262-283 | A plan is executed at most once, before its deadline, and only while its selection is unchanged; without a refusal it is committed exactly for the inputs of its operation; every outcome and final state; it stays committing exactly if its role root is missing while its selection is unchanged |
| FileOperationsService.RootCanBeMissing | modules/file-operations/src/ai_native_file_operations/service.py:271-283 | Counterexample: a plan that makes a directory on a desktop that has disappeared stays committing |
| SoftwareSafety.StepKeepsInv | modules/software-manager/src/ai_native_software/manager.py:99-264 | Every user call, poll and reconciliation, whatever backend, network and clock answer, keeps: the only live change is the recorded one and only in running, recovering, pausing or canceling; retry bounds; confirmation order |
| SoftwareRuns.NeverTwoLiveChanges | modules/software-manager/src/ai_native_software/manager.py:99-264 | In every run a task never has two live backend changes, and one only while running, recovering, pausing or canceling |
| SoftwareRuns.StartsWithNoneLive | modules/software-manager/src/ai_native_software/manager.py:325-364 | A change is requested only when no earlier change of the task is live |
| SoftwareRuns.SystemKeepsUserPause | modules/software-manager/src/ai_native_software/manager.py:404-452 | Polling never starts a task paused by its user; it stays so or its change completes |
| SoftwareRuns.UserPauseIsNeverLifted | modules/software-manager/src/ai_native_software/manager.py:208-258 | The same over every sequence of polls and reconciliations, even when losing the backend sets `auto_resume` |
| SoftwareRuns.TerminalIsFinal | modules/software-manager/src/ai_native_software/manager.py:26-27 | Completed, failed and canceled tasks never change state and are never started |
| SoftwareRuns.CancelIsNeverLost | modules/software-manager/src/ai_native_software/manager.py:182-206 | Over every run, a canceling task stays canceling or becomes canceled or completed |
| SoftwareRuns.RemovalStartsOnceAfterBothConfirmations | modules/software-manager/src/ai_native_software/manager.py:99-127 | Over every run, a removal is requested at most once, and only after both confirmations in order |
| SoftwareRuns.RetriesAreBounded | modules/software-manager/src/ai_native_software/manager.py:548-575 | Over every run, 0 <= retry_count <= 8, and at most 8 automatic starts leave `retry_wait` between two observed advances |
| SoftwareRuns.RetriesWaitForTheirDelay | modules/software-manager/src/ai_native_software/manager.py:239-256 | No automatic retry happens before the delay scheduled for it has passed |
| SoftwareRuns.PercentNeverFalls | modules/software-manager/src/ai_native_software/manager.py:601-612 | From step to step the shown percentage never falls, except from a 100 shown before the end |
| SoftwareRuns.ActionNeverChanges | modules/software-manager/src/ai_native_software/manager.py:647-654 | No event turns an installation into a removal or back |
| SoftwareOutcomes.StepMakes | modules/software-manager/src/ai_native_software/manager.py:99-264 | For each call and each state, the task that results, given apart from the transition functions: state, phase, reason, retry time, shown numbers and error |
| SoftwareOutcomes.RefreshOutcome | modules/software-manager/src/ai_native_software/manager.py:404-530 | A reported end makes a canceling task canceled, or completed; a pausing one paused, waiting for the network or retried, by its reason; any other ends in the same way, waits for the network or is retried, each with its condition; a running change stalled for 300 seconds before installing is stopped to be retried |
| SoftwareOutcomes.EndReleases | modules/software-manager/src/ai_native_software/manager.py:404-530 | After a reported end no task is in a state that owns a change |
| SoftwareOutcomes.ReconcileOutcome | modules/software-manager/src/ai_native_software/manager.py:232-258 | A waiting installation is started exactly when the network is back, or when its retry is due and the network is not known to be away |
| SoftwareOutcomes.StartIsOutcome | modules/software-manager/src/ai_native_software/manager.py:325-364 | A granted request makes the task run the new change; a refused one fails it, or has an installation try again after 5, 15, 30, 60, 120, 300, 300 and 300 seconds |
| SoftwareOutcomes.PauseOutcome | modules/software-manager/src/ai_native_software/manager.py:129-161 | In which states a pause is accepted, and what it makes of the task in each |
| SoftwareOutcomes.CancelOutcome | modules/software-manager/src/ai_native_software/manager.py:182-206 | Every task that has not ended can be canceled: at once, or by stopping the change it owns |
| SoftwareOutcomes.LedgerCountsCalls | modules/software-manager/src/ai_native_software/manager.py:99-206 | The bookkeeping behind the theorems about runs counts every request and every confirmation, and adds exactly the granted changes |
| SoftwareOutcomes.LedgerCountsPolls | modules/software-manager/src/ai_native_software/manager.py:208-230 | It takes a change off exactly when its end is reported |
| SoftwareOutcomes.LedgerCountsReconciling | modules/software-manager/src/ai_native_software/manager.py:232-258 | Reconciling adds the automatic start that may follow, counted as a retry exactly if it left the wait for one |
| SoftwareOutcomes.RetriesCountedAnew | modules/software-manager/src/ai_native_software/manager.py:496-505 | Retries are counted anew only after the percentage or the bytes have risen |
| SoftwareOutcomes.NewTaskIsUntouched | modules/software-manager/src/ai_native_software/manager.py:289-324 | A new task awaits confirmation, with nothing known, requested or counted |
| SoftwareProgress.MonotonicPercentNeverFalls | modules/software-manager/src/ai_native_software/manager.py:601-612 | The merged percentage never falls, except from a premature 100, and stays in 0..100 |
| SoftwareProgress.MonotonicPercentIs | modules/software-manager/src/ai_native_software/manager.py:601-612 | The merged percentage is the higher of the two, and the reported one in place of a 100 shown before the end |
| SoftwareProgress.RoundIsNearest | modules/software-manager/src/ai_native_software/manager.py:594-595 | Rounding gives the nearest integer, the even one on a tie |
| SoftwareProgress.SmoothedSpeedIsBetween | modules/software-manager/src/ai_native_software/manager.py:595 | The smoothed speed lies between the old and the instant speed and is at least 1 |
| SoftwareProgress.RemainingSecondsIsLeast | modules/software-manager/src/ai_native_software/manager.py:596-599 | The estimate is the least whole number of seconds that covers the remaining bytes |
| SoftwareProgress.MetricsDescribeDownload | modules/software-manager/src/ai_native_software/manager.py:577-599 | The shown speed changes only when bytes arrived, and then lies between the old speed and that of the interval; the shown estimate is the least one at the shown speed |
| SoftwareProgress.MetricsShown | modules/software-manager/src/ai_native_software/manager.py:577-599 | Speed and remaining time are shown exactly while bytes are downloaded and both numbers known; the speed is taken anew exactly when more bytes and some time have come in |
| SoftwareProgress.SpeedsAreRounded | modules/software-manager/src/ai_native_software/manager.py:594-595 | Speeds are the nearest whole numbers of bytes a second, at least 1: of an interval, and of two parts old to one part new |
| SoftwareManager.Manager.Confirm | modules/software-manager/src/ai_native_software/manager.py:99-120 | Fails exactly outside `awaiting_confirmation`; otherwise only this task changes, as the transition system says, and a change is requested only when no earlier one is live; the resulting task is that of `SoftwareOutcomes.Makes` |
| SoftwareManager.Manager.ConfirmRemoval | modules/software-manager/src/ai_native_software/manager.py:122-127 | Fails exactly unless a removal awaits its final confirmation; otherwise only this task changes, as the transition system says, and a change is requested only when no earlier one is live; the resulting task is that of `SoftwareOutcomes.Makes` |
| SoftwareManager.Manager.Pause | modules/software-manager/src/ai_native_software/manager.py:129-161 | Succeeds with a task paused, or about to pause, at the user's wish; only this task changes, and no change is requested or forgotten |
| SoftwareManager.Manager.Resume | modules/software-manager/src/ai_native_software/manager.py:163-180 | Only this task changes, as the transition system says, and a change is requested only when no earlier one is live; the resulting task is that of `SoftwareOutcomes.Makes` |
| SoftwareManager.Manager.Cancel | modules/software-manager/src/ai_native_software/manager.py:182-206 | Fails exactly for ended tasks; otherwise the task is canceled or canceling, and no change is requested or forgotten |
| SoftwareManager.Manager.Start | modules/software-manager/src/ai_native_software/manager.py:325-364 | Saving after the answer of the backend ends in the state of the transition system |
| SoftwareManager.Manager.RequestStop | modules/software-manager/src/ai_native_software/manager.py:366-394 | Two saves around the abort end in the stop request of the transition system |
| SoftwareManager.Manager.ApplyProgress | modules/software-manager/src/ai_native_software/manager.py:454-530 | Saving, stalling and notifying end in the state of the transition system |
| SoftwareManager.Manager.Refresh | modules/software-manager/src/ai_native_software/manager.py:208-230 | Polling one task changes only that task, settles it as `SoftwareOutcomes.PollOutcome` says, starts nothing, never lowers its percentage unless from a premature 100, and never leaves an end state |
| SoftwareManager.Manager.ReconcileAll | modules/software-manager/src/ai_native_software/manager.py:232-258 | The loop over the store reconciles every task exactly once; each change it requests is the task's only live one, and no task paused by its user is started |
| SoftwareManager.Manager.AcknowledgeNotification | modules/software-manager/src/ai_native_software/manager.py:260-264 | Only the pending notification of this record is cleared |
| SnapdProgress.ParseProgress | modules/software-manager/src/ai_native_software/snapd.py:184-267 | Percent in 0..100, 100 only for a ready change; completed exactly for ready and done, failed and interrupted exactly for their words; the phase of a running change follows the words in the kind in force; bytes reported exactly while downloading with an active counter |
| SnapdProgress.ShownPercentIs | modules/software-manager/src/ai_native_software/snapd.py:189-227 | The percentage is the nearest one of the active counter, else of all usable counters together, 99 in place of 100 before the change is ready, and none without counters |
| SnapdProgress.ActiveCounterIsLast | modules/software-manager/src/ai_native_software/snapd.py:211-214 | The active counter is that of the last entry being done that has a usable one |
| SnapdProgress.ActiveKindIsInForce | modules/software-manager/src/ai_native_software/snapd.py:199-200 | The kind in force is that of the last entry being done, or, if it has none, of the first waiting entry after it that has one |
| SnapdProgress.KindsOfWork | modules/software-manager/src/ai_native_software/snapd.py:235-252 | Which words in a kind stand for downloading, removing and installing |
| SnapdProgress.SumsOverAll | modules/software-manager/src/ai_native_software/snapd.py:201-212 | The sums run over exactly the usable counters |
| SnapdProgress.PercentageNeedsNoClamp | modules/software-manager/src/ai_native_software/snapd.py:223-227 | The clamped percentage is the nearest whole per cent: clamping never changes it |
| Backups.Context.SyncIsIdempotent | modules/software-manager/src/ai_native_software/backups.py:144-200 | Synchronizing again with the same snapshots at the same time changes nothing |
| Backups.Context.SyncKeepsRestores | modules/software-manager/src/ai_native_software/backups.py:163-198 | Synchronizing drops no record and leaves the state of in-flight and restored records, and all restore fields, untouched |
| Backups.Context.SyncShowsListed | modules/software-manager/src/ai_native_software/backups.py:144-189 | A listed backup shows its last snapshot: times, size, expiry exactly for automatic ones, available unless its restore is under way or done |
| Backups.Context.SyncMarksMissing | modules/software-manager/src/ai_native_software/backups.py:190-199 | An unlisted record that the call concerns is expired exactly if less than a second of its time is left, else unavailable, unless its restore is under way or done; nothing else about it changes |
| BackupRestores.OneRestorePerPreparation | modules/software-manager/src/ai_native_software/backups.py:202-277 | Over every run the daemon is asked to restore at most once per preparation |
| BackupRestores.CalledOnlyWhenCleared | modules/software-manager/src/ai_native_software/backups.py:210-277 | The daemon is asked only on confirmation of a preparation or when its reinstallation is complete, and not again before the next preparation |
| BackupRestores.RestoringIsNeverStuck | modules/software-manager/src/ai_native_software/backups.py:279-306 | A restore under way always knows its change, so refreshing settles it as soon as the daemon says how it ended |
| BackupRestores.RestoredIsFinal | modules/software-manager/src/ai_native_software/backups.py:175-186 | A restored backup stays restored under every later call and synchronization |
| BackupRestores.StepMakes | modules/software-manager/src/ai_native_software/backups.py:202-306 | What each call makes of a record in each state, field by field |
| BackupRestores.LedgerCounts | modules/software-manager/src/ai_native_software/backups.py:202-277 | The bookkeeping counts every preparation and every request to the daemon, no more and no less |
| BackupManagers.BackupManager.Sync | modules/software-manager/src/ai_native_software/backups.py:144-200 | The two loops compute the synchronized store; an unreadable time ends the call early, with no restore touched |
| BackupManagers.BackupManager.SweepMissing | modules/software-manager/src/ai_native_software/backups.py:190-199 | Exactly the concerned, unlisted, not in-flight records become expired or unavailable |
| BackupManagers.BackupManager.PrepareRestore | modules/software-manager/src/ai_native_software/backups.py:202-208 | Succeeds exactly for an available backup; every other backup is untouched |
| BackupManagers.BackupManager.ConfirmRestore | modules/software-manager/src/ai_native_software/backups.py:210-220 | Succeeds exactly for a prepared backup; the daemon's answer decides its state |
| BackupManagers.BackupManager.BeginReinstall | modules/software-manager/src/ai_native_software/backups.py:222-234 | Succeeds exactly for a prepared backup |
| BackupManagers.BackupManager.CancelRestorePreparation | modules/software-manager/src/ai_native_software/backups.py:236-242 | Touches only a prepared backup |
| BackupManagers.BackupManager.ContinueReinstall | modules/software-manager/src/ai_native_software/backups.py:244-277 | Asks the daemon only after a complete reinstallation |
| BackupManagers.BackupManager.RefreshRestore | modules/software-manager/src/ai_native_software/backups.py:279-306 | Follows the change of a restore and nothing else |
| PatternSearch.WindowSuffices | modules/security-center/src/ai_native_security/scanner.py:236-240 | A pattern occurs in the stream extended by a block exactly when it occurred before or occurs in the overlap followed by the block |
| PatternSearch.TailOfWindow | modules/security-center/src/ai_native_security/scanner.py:240 | The overlap cut from the window is the overlap of the whole stream |
| PatternSearch.ShorterOverlapMisses | modules/security-center/src/ai_native_security/scanner.py:240 | An overlap one byte shorter misses a pattern split between two reads |
| FileScanners.MatchWindow | modules/security-center/src/ai_native_security/scanner.py:236-239 | After each block the recorded rules are exactly those whose pattern occurs in the content so far |
| FileScanners.BeginSessions | modules/security-center/src/ai_native_security/scanner.py:190-203 | Each detector either has an open session or exactly one failure status |
| FileScanners.FeedSessions | modules/security-center/src/ai_native_security/scanner.py:218-235 | A refused block closes that session with its failure status and touches no other detector |
| FileScanners.FinishSessions | modules/security-center/src/ai_native_security/scanner.py:245-266 | Every detector ends with exactly one status, the one its behaviour calls for, and all reports of completed detectors are collected in order |
| FileScanners.FinalStatusIs | modules/security-center/src/ai_native_security/scanner.py:190-266 | A detector is completed exactly if it began, accepted every block and reported; else its status gives the first thing that went wrong, unavailable or failed with its reason, or failed with a protocol error |
| FileScanners.LocalObservations | modules/security-center/src/ai_native_security/scanner.py:308-319 | The local matches, sorted by detector and rule, cut to eight |
| FileScanners.Scanner.Report | modules/security-center/src/ai_native_security/scanner.py:267-299 | The assembled result meets every condition of its constructor and covers the whole content |
| FileScanners.Scanner.ScanOpenFile | modules/security-center/src/ai_native_security/scanner.py:170-306 | For every content, every answer of clock, reads and final status, and every detector behaviour: at most max_file_bytes + 1 bytes are read, the loop ends at the one read that these answers call for, and the result is exactly the failure, the refusal or the coverage that belongs to that end; a covered file had its identity and size unchanged in the end |
| FileScanners.Scanner.LastReadIsUnique | modules/security-center/src/ai_native_security/scanner.py:205-216 | The read at which a scan ends is determined by content, clock and answers |
| FileScanners.Scanner.FailsIff | modules/security-center/src/ai_native_security/scanner.py:170-306 | A scan fails exactly if the file cannot be opened, or the deadline has passed or a read fails before the end is found, or the final status cannot be read or shows another file |
| FileScanners.Scanner.FailuresIff | modules/security-center/src/ai_native_security/scanner.py:170-300 | A timeout exactly if the deadline had passed at the last read; a change exactly if all was read but identity or size differ in the end; an I/O error exactly if opening, a read or the final status failed; a result with a digest exactly if nothing of this happened and the size is within the bound |
| FileScanners.Scanner.BytesReadInTheEnd | modules/security-center/src/ai_native_security/scanner.py:209-216 | Without such trouble the whole content has been read exactly if it is within the bound, in at most one read per byte |
| FileScanners.Scanner.UndisturbedScanCovers | modules/security-center/src/ai_native_security/scanner.py:170-306 | An undisturbed scan of a regular file within the bound always covers it |
| FileScanners.Scanner.Scan | modules/security-center/src/ai_native_security/scanner.py:146-168 | Every refusal and every failure is given exactly when, in terms of path, exclusions, deadline, reads, identity and size; every other result covers the file, which was unchanged in the end |
| FileScanners.Scanner.CoverageDecidesVerdict | modules/security-center/src/ai_native_security/scanner.py:282-299 | Malware exactly when some detector matched; completed exactly when every external detector completed |
| FileScanners.Scanner.NoThreatIff | modules/security-center/src/ai_native_security/scanner.py:282-299 | No threat exactly when no signature hash equals the digest, no pattern occurs anywhere, and every external detector completed and found nothing |
| FileScanners.NoLocalMatchIff | modules/security-center/src/ai_native_security/scanner.py:308-319 | There is no local match exactly when no hash and no pattern matches |
| FileScanners.LocalMatchesIff | modules/security-center/src/ai_native_security/scanner.py:308-330 | An observation is a local match exactly if it is that of a hash signature with this digest or of a byte signature whose pattern occurs |
| FileScanners.ResourceIdIff | modules/security-center/src/ai_native_security/scanner.py:26 | Exactly which texts name a resource |
| Sorting.EarlyCutIsHarmless | modules/security-center/src/ai_native_security/scanner.py:268-273 | Sorting and cutting the local matches before merging, sorting and cutting again gives the cut of the full sorted list |
| Sorting.SortSorts | modules/security-center/src/ai_native_security/scanner.py:318 | Sorting orders the list and keeps its elements |
| Sorting.SortIsStable | modules/security-center/src/ai_native_security/scanner.py:318 | Elements that compare equal keep their order |
| ScanContracts.InOrderIsOrder | modules/security-center/src/ai_native_security/scanner.py:271 | Detector and rule name together order the observations totally |
| ScanContracts.RankIsByName | modules/security-center/src/ai_native_security/scanner.py:271 | Detectors are ordered by the names they have in a result |
| ScanContracts.RejectedResult | modules/security-center/src/ai_native_security/scanner.py:149-166 | Every rejection meets the conditions of the result's constructor |
| ScanContracts.FailedResult | modules/security-center/src/ai_native_security/scanner.py:210-244 | Every failure meets the conditions of the result's constructor |
| ScanScopes.NormalizedIsItself | modules/security-center/src/ai_native_security/scanner.py:349-359 | Exactly the acceptable paths are accepted, unchanged |
| ScanScopes.AcceptedExclusionHasNames | modules/security-center/src/ai_native_security/scope.py:23-31 | An accepted exclusion consists of proper names |
| ScanScopes.AcceptedExclusionIff | modules/security-center/src/ai_native_security/scope.py:23-31 | An exclusion is accepted exactly if it has 1 to 1024 characters, does not start with a slash and does not go up |
| ScanScopes.PrefixByText | modules/security-center/src/ai_native_security/scope.py:36-42 | The string test for one exclusion holds exactly when its components are a prefix of those of the path |
| ScanScopes.ExclusionTestsAgreeIff | modules/security-center/src/ai_native_security/scope.py:36-42 | The scanner's string test and the walk's ancestor test agree except when the root itself is excluded and nothing else covers the path; the string test never excludes more |
| ScanScopes.ExcludingTheRootHidesEverything | modules/security-center/src/ai_native_security/scope.py:26-31 | Counterexample: the accepted exclusion `.` hides every file from the walk, while the scanner protects none |
| Candidates.Walk.Enumerate | modules/security-center/src/ai_native_security/campaigns.py:206-261 | The stack walk yields exactly the recursive walk, files of a directory in name order, then its subdirectories, up to the first directory in which the entry bound or the deadline ends it, and then one limit mark |
| Candidates.Walk.WalkStaysWithinBounds | modules/security-center/src/ai_native_security/campaigns.py:213-232 | The directories a walk finishes hold no more entries than its bound allows, none begun and none seen after the deadline, and only these cut a walk short |
| Candidates.Walk.ProducesOnce | modules/security-center/src/ai_native_security/campaigns.py:206-261 | What a walk yields is determined by the tree and the clock |
| Candidates.Walk.VisitEntries | modules/security-center/src/ai_native_security/campaigns.py:237-261 | One directory: what its entries yield and which subdirectories follow, in order |
| Candidates.Walk.CountEntries | modules/security-center/src/ai_native_security/campaigns.py:221-232 | A directory is listed to its end exactly if neither bound nor deadline is met at one of its entries |
| Candidates.Walk.PushedInReverse | modules/security-center/src/ai_native_security/campaigns.py:260-261 | Pushing subdirectories in reverse makes the stack visit them in name order before everything older |
| CandidateFiles.EnumeratesExactlyCandidates | modules/security-center/src/ai_native_security/campaigns.py:206-261 | A file is enumerated exactly when it is a regular file within the depth bound, outside the exclusions, and reachable through listable directories |
| CandidateFiles.EnumeratesEachOnce | modules/security-center/src/ai_native_security/campaigns.py:206-261 | No file is enumerated twice |
| CandidateFiles.EnumeratedIsNeverProtected | modules/security-center/src/ai_native_security/campaigns.py:244-252 | No enumerated file is later refused as protected |
| CandidateFiles.EnumeratedIsInvalidIff | modules/security-center/src/ai_native_security/scanner.py:349-359 | An enumerated file is refused as an invalid path exactly for a backslash, a NUL, a colon in its first component, or more than 1024 characters |
| CandidateFiles.ExcludedRootYieldsNoFile | modules/security-center/src/ai_native_security/campaigns.py:237-261 | With its root excluded a walk yields no file, and nothing at all exactly if the root can be listed and shows no link and no entry without status |
| VisitedDirectories.VisitsExactlySubdirectories | modules/security-center/src/ai_native_security/campaigns.py:213-261 | Exactly the directories within the depth bound, outside the exclusions and reachable through listable directories are visited |
| VisitedDirectories.SkipsIff | modules/security-center/src/ai_native_security/campaigns.py:232-256 | Something is marked as passed over exactly if a visited directory breaks off or holds a link, a junction outside the exclusions or an entry without status |
| Campaigns.Campaign.Run | modules/security-center/src/ai_native_security/campaigns.py:109-204 | The candidates dealt with, and the reason for the end, are exactly those that tree, clock, cancellation and bounds call for; the counters are the numbers of files scanned, found to be malware, left unknown and not scanned, counted by position, with at most max_files files; no threat exactly when the whole walk was dealt with and every yield was a file scanned clean; malware exactly when a scan found it; reported counters never fall |
| Campaigns.Campaign.TallyCounts | modules/security-center/src/ai_native_security/campaigns.py:146-166 | Each counter is the number of candidates with its property, and the bytes are the sum of what the scans measured |
| Campaigns.Campaign.DealsOnce | modules/security-center/src/ai_native_security/campaigns.py:109-166 | Which candidates are dealt with, and why a campaign ends, is determined by tree and clock |
| Campaigns.Campaign.VerdictMeans | modules/security-center/src/ai_native_security/campaigns.py:168-204 | No threat means that the whole walk was scanned clean, malware that some scan found it |
| Campaigns.Campaign.LimitedByBoundsOnly | modules/security-center/src/ai_native_security/campaigns.py:130-140 | A campaign that is neither late nor cancelled, with a walk within its entry bound, is limited exactly by a file for which there is no room |
| Campaigns.Campaign.ExcludedRootScansNothing | modules/security-center/src/ai_native_security/campaigns.py:109-204 | With its root excluded a campaign scans nothing, and finds no threat exactly if it runs through and its root can be listed and shows no link and no entry without status |
| Campaigns.Conclude | modules/security-center/src/ai_native_security/campaigns.py:168-204 | How counters, cancellation and limit decide status, verdict and error, each exactly; no threat exactly for a complete run without a threat or an unknown file |
| Campaigns.Campaign.NoThreatCoversEveryCandidate | modules/security-center/src/ai_native_security/campaigns.py:116-204 | After an answer of no threat every file that had to be enumerated was scanned clean |
| Campaigns.Campaign.NoThreatPassesOverNothing | modules/security-center/src/ai_native_security/campaigns.py:116-204 | After an answer of no threat every directory to be visited was listed to its end and held no link, no junction outside the exclusions and no entry without status |
| Campaigns.Campaign.BytesStayBounded | modules/security-center/src/ai_native_security/campaigns.py:136-147 | The byte bound holds when no scan measures more than the listing announced |
| Campaigns.Campaign.OverTheByteBoundIff | modules/security-center/src/ai_native_security/campaigns.py:136-147 | The byte bound is exceeded exactly if the last file scanned measured more than there was room for, and then by at most what it had grown since it was listed |
| Campaigns.BytesBoundNeedsStableSizes | modules/security-center/src/ai_native_security/campaigns.py:136-147 | Counterexample: a file that grows after its listing takes a campaign over its byte bound |
| Campaigns.CandidatePathIsBelowRootIff | modules/security-center/src/ai_native_security/campaigns.py:143 | The scanner gets the path below the resource root exactly unless the campaign was started at a text like `./` |
| Campaigns.StartOfIff | modules/security-center/src/ai_native_security/campaigns.py:263-286 | The path of a request is acceptable exactly if it has at most 1024 characters, is relative and does not go up; its components are proper names |
| Campaigns.DotSlashCampaignScansNothing | modules/security-center/src/ai_native_security/campaigns.py:263-286 | Counterexample: a campaign started at `./` names every file in a way the scanner refuses |
| Campaigns.CampaignScanner.Start | modules/security-center/src/ai_native_security/campaigns.py:85-118 | The answer is exactly the refusal or the result of the campaign that the request describes; no threat only if every file of the scope was scanned clean; malware exactly if the campaign scans a file as malware |
| Campaigns.CampaignScanner.NoThreatIsClean | modules/security-center/src/ai_native_security/campaigns.py:85-204 | A request answered with no threat means that every file to be enumerated in its scope was scanned clean |
| Campaigns.CampaignScanner.RunJob | modules/security-center/src/ai_native_security/__init__.py:319-370 | One result per scope, each that of its own request, up to the first that was cancelled; totals are their sums and reported totals never fall; malware exactly if some of these campaigns scans a file as malware; no threat exactly when every scope ran and answered no threat, and then every file in every scope is clean; the error is that of the last incomplete scope |
| CleanContents.CleanScanMeansCleanContent | modules/security-center/src/ai_native_security/scanner.py:146-299 | A file scanned free of threats is a regular file whose content matches no signature, and it was unchanged when the scan ended |
| CleanContents.NoThreatMeansCleanContents | modules/security-center/src/ai_native_security/campaigns.py:85-204 | After a campaign by the bounded scanner that found no threat, every file that had to be enumerated is a regular file in whose content no pattern occurs and whose digest no hash signature has |
| JobRuns.StepKeepsInv | modules/security-center/src/ai_native_security/jobs.py:56-243 | Every block under the lock keeps: an unfinished job is the active one and has its cancel event; a finished job shows what its runner returned; stored final rows agree with their jobs |
| JobRuns.AtMostOneUnfinished | modules/security-center/src/ai_native_security/jobs.py:56-103 | Under every interleaving at most one job is not final, and it is the active one |
| JobRuns.RefusedIffUnfinished | modules/security-center/src/ai_native_security/jobs.py:65-69 | A new job is refused exactly while some job is not final |
| JobRuns.CleanupSparesNewerJob | modules/security-center/src/ai_native_security/jobs.py:230-242 | Cleaning up after an old job never clears the slot, the state or the cancel event of a newer one |
| JobRuns.FinalIsForever | modules/security-center/src/ai_native_security/jobs.py:177-242 | Final states are absorbing, with verdict, counters and error |
| JobRuns.StoredResultIsForever | modules/security-center/src/ai_native_security/jobs.py:271-282 | A stored final result survives everything, restarts included |
| JobRuns.RestartFinishesEveryRow | modules/security-center/src/ai_native_security/jobs.py:314-328 | After a restart every stored job is final; the unfinished ones are failed as interrupted, the others untouched |
| JobRuns.AcceptedCancelIsHonoured | modules/security-center/src/ai_native_security/jobs.py:123-134 | After an accepted cancellation a job ends cancelled, completed if its runner said so, or failed if its runner raised; never partial, although beginning may overwrite `cancelling` |
| JobRuns.ResultIsTheRunners | modules/security-center/src/ai_native_security/jobs.py:206-229 | A completed job was reported completed by its runner, with that verdict and those counters |
| JobRuns.LostByFailedWrite | modules/security-center/src/ai_native_security/jobs.py:93-103 | A job loses its thread only through a failed write of its own |
| JobRuns.LostJobBlocksForever | modules/security-center/src/ai_native_security/jobs.py:65-103 | A job whose first or second write fails never ends, and no other job can be started until a restart |
| JobRuns.WrittenJobsAreNotLost | modules/security-center/src/ai_native_security/jobs.py:97-184 | Without failed writes every unfinished job has a thread that will move it on |
| JobRuns.StepMakes | modules/security-center/src/ai_native_security/jobs.py:105-243 | What its own block makes of a job; a job whose event is set ends cancelled by its user unless completed, any other as its runner said, with that error |
| JobRuns.StartMakes | modules/security-center/src/ai_native_security/jobs.py:71-103 | A new job is queued with nothing counted, holds the slot, and its row says the same if it could be written |
| JobRuns.RowsAfterStep | modules/security-center/src/ai_native_security/jobs.py:271-282 | A written row is the job as it is; nothing else touches the rows |
| JobRuns.SignalsAfterStep | modules/security-center/src/ai_native_security/jobs.py:123-175 | A cancel event is set exactly by a cancellation of its unfinished job or by closing, and removed exactly by a written cleanup |
| JobRuns.SlotAfterStep | modules/security-center/src/ai_native_security/jobs.py:230-242 | The slot is given up exactly by a written cleanup of the job that holds it |
| JobRuns.RestartMakes | modules/security-center/src/ai_native_security/jobs.py:314-328 | After a restart final rows are as they were and all others failed as interrupted, with their counters |
| SecurityJobs.SecurityJobManager.constructor | modules/security-center/src/ai_native_security/jobs.py:298-331 | Opening a database gives a manager without jobs whose rows are all final |
| SecurityJobs.SecurityJobManager.Start | modules/security-center/src/ai_native_security/jobs.py:65-103 | Refused, with nothing changed, exactly while some job is unfinished; otherwise the new job is queued and holds the slot, without a thread if its row could not be written |
| SecurityJobs.SecurityJobManager.Begin | modules/security-center/src/ai_native_security/jobs.py:178-184 | The job is running, even if it was cancelling, and its cancel event stays as it was; one atomic step of the protocol with a write that may fail |
| SecurityJobs.SecurityJobManager.Progress | modules/security-center/src/ai_native_security/jobs.py:186-196 | Only the counters of the job change, and it is still unfinished |
| SecurityJobs.SecurityJobManager.Cancel | modules/security-center/src/ai_native_security/jobs.py:123-134 | One atomic step of the protocol; an unfinished job is cancelling afterwards with its event set |
| SecurityJobs.SecurityJobManager.Finish | modules/security-center/src/ai_native_security/jobs.py:206-229 | The job is final, shows what its runner came back with and honours an accepted cancellation; no job is unfinished afterwards |
| SecurityJobs.SecurityJobManager.Cleanup | modules/security-center/src/ai_native_security/jobs.py:230-242 | The slot is free of this job and its row is the finished job, unless the write fails; a newer job keeps slot, state and cancel event |
| SecurityJobs.SecurityJobManager.Close | modules/security-center/src/ai_native_security/jobs.py:170-175 | Sets every cancel event and nothing else, so that every unfinished job is asked to stop |
| QuarantineRuns.StepKeepsInv | modules/security-center/src/ai_native_security/quarantine.py:95-219 | Every call, whatever is answered to its operations and wherever it is cut, every reopening and every outside change of originals and findings keeps: objects belong to records; a settled record other than a quarantined one has no object; the object of a quarantined record has its hash |
| QuarantineRuns.OutsideMakes | modules/security-center/src/ai_native_security/quarantine.py:95-99 | Reopening cancels exactly what awaited confirmation and touches no file; the outside changes original places and findings only |
| QuarantineRuns.CommitPoints | modules/security-center/src/ai_native_security/quarantine.py:136-166 | After each operation of a commit: the file is in place or in its object, in the object if the record says quarantined, in place if it says failed, and nothing else has changed |
| QuarantineRuns.RestorePoints | modules/security-center/src/ai_native_security/quarantine.py:193-219 | After each operation of a restore: the file is in its object or in place, in place if the record says restored, and nothing else has changed |
| QuarantineRuns.QuarantinedIffObject | modules/security-center/src/ai_native_security/quarantine.py:136-219 | After every run in which nothing was refused, misread or cut short, each record is settled and says quarantined exactly when its object exists, which then has the recorded hash |
| QuarantineRuns.RunIsCleanIff | modules/security-center/src/ai_native_security/quarantine.py:136-219 | After every run whatever, all records are settled and agree with their objects exactly if no event met the condition, in terms of its answers and cut, under which it breaks its record |
| QuarantineRuns.StepIsCleanIff | modules/security-center/src/ai_native_security/quarantine.py:136-219 | One event breaks a record exactly under that condition: a cut between claiming and settling, a commit whose undo was refused, a restore that slips |
| QuarantineRuns.RestoreSlipsIff | modules/security-center/src/ai_native_security/quarantine.py:204-218 | A restore that is not cut leaves a quarantined record without its object exactly if the file moved back and its mode could not be set, or it could not be read again, or it read differently and moving it once more was refused |
| QuarantineRuns.RefusedModeChangeSlips | modules/security-center/src/ai_native_security/quarantine.py:208-218 | Counterexample: a restore to which only the mode change is refused leaves a quarantined record without an object |
| QuarantineRuns.BrokenIsForever | modules/security-center/src/ai_native_security/quarantine.py:193-218 | A broken record, cut short or slipped, is broken after every later run and is never restored |
| QuarantineRuns.FilesStayInOnePlace | modules/security-center/src/ai_native_security/quarantine.py:136-219 | Whatever a call does and wherever it stops, a file that was in exactly one place is in exactly one place, with the same bytes: nothing lost, doubled or overwritten |
| QuarantineRuns.RoundTrip | modules/security-center/src/ai_native_security/quarantine.py:102-219 | A prepared, committed and later restored file is back at its place with the bytes it had when committed and the mode it had when prepared, and its finding is active unless the restore was cut exactly before activating it |
| QuarantineRuns.PreparesIff | modules/security-center/src/ai_native_security/quarantine.py:102-134 | A preparation makes a record exactly for an active finding whose file is there, unchanged, and found to be malware again |
| QuarantineRuns.ClaimedOnce | modules/security-center/src/ai_native_security/quarantine.py:260-270 | A record is claimed for its commit at most once; place, hash, mode and finding never change, and neither does the file in its object |
| QuarantineRuns.EndStatesAreForever | modules/security-center/src/ai_native_security/quarantine.py:25-35 | Cancelled, failed and restored records never change, and neither do records whose call was cut short |
| QuarantineManagers.CommitEnds | modules/security-center/src/ai_native_security/quarantine.py:136-166 | A commit that is not cut ends quarantined, with the finding resolved, exactly if the file was there unchanged and every operation was granted; stuck exactly if its undo was refused; else failed with the file in place |
| QuarantineManagers.RestoreEnds | modules/security-center/src/ai_native_security/quarantine.py:193-219 | A restore that is not cut ends restored, with the finding active, exactly if the place was free and every operation was granted; else quarantined, and then with its object exactly unless it slipped |
| QuarantineManagers.QuarantineManager.constructor | modules/security-center/src/ai_native_security/quarantine.py:95-99 | Opening a store cancels exactly the records that awaited confirmation |
| QuarantineManagers.QuarantineManager.Prepare | modules/security-center/src/ai_native_security/quarantine.py:102-134 | Adds exactly one record, which describes the finding's file with its hash and mode, exactly if the finding is active and its file is there, unchanged and found to be malware again; otherwise nothing changes |
| QuarantineManagers.QuarantineManager.Commit | modules/security-center/src/ai_native_security/quarantine.py:136-166 | Goes through exactly the states of the specification, one per operation, refused exactly unless awaiting confirmation, and ends as `CommitEnds` says |
| QuarantineManagers.QuarantineManager.WhyNotMovedOut | modules/security-center/src/ai_native_security/quarantine.py:138-152 | The file moves into its object exactly if it is there unchanged, no object is in the way and nothing was refused; else which error, with an exact condition for each |
| QuarantineManagers.QuarantineManager.VerifyAndSecure | modules/security-center/src/ai_native_security/quarantine.py:153-166 | After the move: the states up to quarantined, failed, or the end of the exception handler |
| QuarantineManagers.QuarantineManager.GiveUp | modules/security-center/src/ai_native_security/quarantine.py:161-165 | The exception handler, which ends the call with an error if one of its own operations is refused |
| QuarantineManagers.QuarantineManager.Cancel | modules/security-center/src/ai_native_security/quarantine.py:168-172 | Cancels exactly records that await confirmation |
| QuarantineManagers.QuarantineManager.Restore | modules/security-center/src/ai_native_security/quarantine.py:193-219 | Goes through exactly the states of the specification, one per operation, refused exactly unless quarantined, and ends as `RestoreEnds` says |
| QuarantineManagers.QuarantineManager.WhyNotMovedBack | modules/security-center/src/ai_native_security/quarantine.py:195-208 | The file moves back exactly if its place is free, its object is there unchanged and nothing was refused; else which error, with an exact condition for each |
| QuarantineManagers.QuarantineManager.VerifyAndRelease | modules/security-center/src/ai_native_security/quarantine.py:209-218 | After the move back: the states up to restored, back in its object, or slipped |
| VirtualMounts.DeepestMountWins | labs/ai-scenario-lab/src/ai_scenario_lab/virtual_pc.py:115-135 | A path resolves exactly when some volume is mounted at or above it, in the volume with the deepest such mount point |
| VirtualMounts.RoundTrip | labs/ai-scenario-lab/src/ai_scenario_lab/virtual_pc.py:107-135 | With disjoint storage, the virtual path of what a virtual path resolves to is that path |
| VirtualMounts.RoundTripIff | labs/ai-scenario-lab/src/ai_scenario_lab/virtual_pc.py:107-135 | For every table: a virtual path comes back exactly when the first listed volume that contains its file shows the storage of the resolving volume where that one is mounted |
| VirtualMounts.ReverseTripIff | labs/ai-scenario-lab/src/ai_scenario_lab/virtual_pc.py:107-135 | For every table: a physical path comes back exactly when the volume in which its virtual path resolves is stored in the owner at the place that its mount point says |
| VirtualMounts.ReverseTripUnlessHidden | labs/ai-scenario-lab/src/ai_scenario_lab/virtual_pc.py:107-135 | With disjoint storage and distinct mounts, what does not come back is exactly what a deeper mount hides |
| VirtualMounts.NestedStorageBreaksRoundTrip | labs/ai-scenario-lab/src/ai_scenario_lab/virtual_pc.py:75-76 | Counterexample: with storage of one volume inside another's the round trip fails |
| VirtualMounts.PhysicalPath | labs/ai-scenario-lab/src/ai_scenario_lab/virtual_pc.py:121-135 | The loop over volumes sorted by depth finds the volume of the specification |
| VirtualMounts.VirtualPath | labs/ai-scenario-lab/src/ai_scenario_lab/virtual_pc.py:107-113 | The loop over volumes in their order finds the volume of the specification |

## Left out

- Windows: junction probing, reparse points and missing `chmod` appear only as kinds of entries or not at all; paths are those of POSIX, without the special meaning of two leading slashes.
- Names: length limits, Unicode normalization and case folding of file names; the checks of a new name in `_safe_name` are assumed to have passed.
- Trash metadata: percent-encoding and the deletion date are one function of the original path.
- Trash.ExecuteTrash: the guarantees are stated for selections of which no item contains or lies in the metadata directory of the trash, because such an item takes that directory along; the service accepts no other selection (`FileOperationsService.AllowedItemsAreApartIff`).
- FileOperationsService.Service.constructor: the program rejects roots that contain one another and a trash inside a root; that no root lies in the metadata directory of the trash is assumed of its configuration.
- FileOperations.AtomicMove: two names for the same file and `os.replace` onto itself do not occur in the tree model.
- FileOperationsService.Service.Prepare: a role is given by the path of its root; the choice of that root by its name, and the refusal of any other name, are not modelled.
- FileOperations.RequireSafeDirectory: links are looked for on the whole path, while the program starts at the root of the role, which it resolved before.
- File races: other programs change the tree only between calls; status calls inside a move or trash are assumed to succeed.
- FileOperationsService.Service.Selection: the selection resolver, which turns an opaque identifier into paths, and the check that an item's destination role is unchanged are not modelled.
- Software tasks: the catalogue, preferences, the callback after a removal, the second delivery attempt within one reconciliation (both attempts get one answer), and the repeated abort of a stopping change, whose answer is ignored by the program, are not modelled; each call reads the clock once; the stall timeout is the default of 300 seconds.
- SoftwareProgress.MetricsDescribeDownload: quotients are exact; the rounding error of floating-point division is not modelled.
- SnapdProgress.ParseProgress: case folding is assumed done; quotients are exact; whether an error is worth a retry is an input, because a classifier of the backend decides it.
- Backups: identifiers are pairs of set and package instead of text; the order in which records are listed does not matter and is not modelled.
- FileScanners.Scanner.ScanOpenFile: the digest is an arbitrary function of the bytes, so the format of a digest is not checked; at most one external detector exists, because the constructor accepts only distinct detectors of one name.
- FileScanners.Scanner.Scan: reaching the file without passing a link is one answer of the operating system.
- Signature databases: limits on label lengths and on the number of signatures.
- ScanScopes.AcceptedExclusionHasNames: removing duplicates, sorting and the limit of 32 exclusions do not change which paths are excluded and are not modelled.
- Candidates.Walk.Enumerate: the generator is run to its end before its results are used; nothing it does depends on its consumer but the time, and the answers of the clock need not be monotone.
- Campaigns.CampaignScanner.RunJob: jobs for a single file, which relabel one scan result, and the bound of 32 scopes.
- Scan jobs: the scheduler, settings, history and elapsed times; errors that are not subclasses of `Exception`; rows that are not valid JSON; a progress report after the runner has returned.
- Quarantine: listing, limits on the size of hashed files beyond an unreadable answer, and validation of stored rows; a misread file never has the recorded hash.
- QuarantineRuns.FilesStayInOnePlace: during one call no other program touches the files; between calls the original places may change arbitrarily.
- VirtualMounts.RoundTrip: links below a physical root; provisioning and fixtures.
- Storage: SQLite, JSON and file permissions other than the quarantined mode; stores are maps with atomic updates.
- Everything else of the repository: panels and presenters, sockets and daemons, posture collection, model stores, and the running of lab campaigns.
