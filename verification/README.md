# Teatro: verification model

Teatro is a self-hosted game library server. This project models the parts of it whose correctness
spans several steps: the journal that makes file replacements and deletions recoverable after a
crash, the bounded in-memory protocols around it, and a few algorithms and round trips of the
server and its web pages. `dafny verify dfyconfig.toml` checks everything.

## How it is organised

| Modules | What they model |
|---|---|
| `Basics`, `Numerals` | what several parts share |
| `Storage` | files, journal rows and ROM rows as one world that changes by primitive steps; a fault schedule decides before each step whether it proceeds, fails or never happens because the process dies |
| `Covers`, `CoverSafety`, `CoverOutcomes`, `CoverRuns`, `CoverPlans` | cover replacement, rollback, cleanup and recovery: the procedures, what one critical section keeps, how it ends, whole runs of several processes, and how a replacement is planned |
| `Deletes`, `DeleteSafety`, `DeleteOutcomes`, `DeleteRuns`, `OverlappingDeletes` | the same layers for managed deletes, for one delete and for any number of overlapping ones |
| `Ordering`, `Locks` | lexicographic order; root locks taken in one global order |
| `EditDistance`, `Titles` | the title distance and the normalisation loop before it |
| `RateLimiter`, `UploadStaging`, `Transfers`, `Jobs`, `Passwords` | the authentication limiter, the disk-space reservation, the transfer leases, the job registry, the two password semaphores |
| `CatalogPages` | the two-stage page query |
| `Splitting`, `InputPaths` | the incremental path-collision map |
| `CoverCache`, `Utf8Coding`, `UrlCoding`, `Routes` | the browser's cover cache, UTF-8 and percent-encoding, the hash routes |
| `EventLog`, `DisplayText`, `JobLog`, `Transcript`, `JobPolling` | the trimmed event log of a server job with its cut texts, the transcript of the admin page, and both of them run together |

Code that works step by step is a method of a class or a method with loops. It is proved equal to a
function of the old state, and the theorems are about those functions. A protocol is a state machine
over its lock sections, critical sections or script events: an `Enabled` predicate, a `Next`
function, and `After` for whole runs, so a theorem about `After` holds in every interleaving.

A crash can fall before any primitive of a procedure, and inside the removal of a directory tree.
What follows a crash is simply the next event of a run.

Where the code and what it suggests disagree, the model follows the code, says exactly when the two
agree, and gives a run in which they do not:

- The transfer registry has a capacity of 64 terminal records, but a cancellation prunes before it adds
  its own record. `Transfers.WhenTerminalsExceed` says exactly when 65 are present, and
  `Transfers.SixtyFiveTerminals` is a run that gets there.
- Two clients can own one transfer key if a cancelled record is pruned while its lease is held
  (`Transfers.SlowLeaseOwnsTwice`). `Transfers.TimelyIsExact` gives the exact bound on time and number
  of records that a caller has to keep.
- A recovery that reports an error after the commit of a cover rewrites its state to `failed`, and the
  next one rolls back (`CoverRuns.LostCover`). `CoverRuns.WhenCommittedCoverSurvives` and
  `CoverRuns.WhenCommittedFilesStay` say exactly which operations are still completed, and which keep
  their files.
- A committed delete that lists no ROM can come back (`DeleteRuns.SidecarComesBack`);
  `DeleteRuns.WhenSidecarsStayDeleted` says exactly when it does not.
- The server drops its oldest output lines, so a page can miss some: `JobPolling.MissedLine` is a run.
  `JobPolling.PageFollowsTheServer` says exactly when a page shows the last lines of the log again and
  that it is marked when it lacks one; `JobPolling.WhenReloadingShowsAll` does so for a page that is
  loaded again.

## Model

| member | source | states |
|---|---|---|
| Storage.Host.FileExists | src/storage/file_store.rs:277-287 | under any fault, looking at a path changes nothing and tells whether it is occupied |
| Storage.Host.MoveFile | src/storage/file_store.rs:243-305 | a move needs a regular source and a free target, and then changes exactly these two paths; any fault leaves the files alone |
| Storage.Host.MoveDirectory | src/storage/file_store.rs:260-305 | the same for a directory tree |
| Storage.Host.RemoveFile | src/storage/file_store.rs:319-335 | removing a missing path succeeds without effect; otherwise exactly that regular file goes |
| Storage.Host.RemoveTree | src/storage/file_store.rs:337-357 | a complete removal takes the whole tree; one cut short leaves the tree with any part of its children |
| Storage.Host.WriteNew | src/storage/file_store.rs:307-317 | a new file never replaces an existing one and appears completely or not at all |
| Storage.Host.InsertRow | src/repositories/file_operations.rs:21-39 | a journal row starts as prepared and never replaces another row |
| Storage.Host.WriteState | src/repositories/file_operations.rs:41-62 | completed is sticky, and writing the state of a missing row is no error |
| Storage.Host.ReadState | src/repositories/file_operations.rs:64-76 | reading a state tells a missing row from every state |
| Storage.Host.HasRom | src/repositories/roms/read.rs:162-168 | whether a ROM row exists |
| Storage.Host.SaveCover | src/repositories/roms/write.rs:385-455 | the cover rows and the journal state change together, or neither does and the row was missing |
| Storage.Host.DeleteRows | src/services/library/delete.rs:639-674 | all listed rows go together with the journal state, or none does |
| Storage.NothingIsOverwritten | src/storage/file_store.rs:243-335 | no primitive, under any fault, puts anything in the place of a file or directory |
| Storage.RemovalOnlyRemoves | src/storage/file_store.rs:337-357 | a directory removal cut short leaves some of its files, each whole, and never touches a file in its place |
| Storage.MovingBackUndoes | src/storage/file_store.rs:243-305 | an undisturbed move goes through exactly for a source of its kind and a free target, and moving back restores the file map |
| Storage.CompletedIsSticky | src/repositories/file_operations.rs:41-62 | a completed row stays completed, a missing one stays missing, any other takes the state, and no other row changes |
| Storage.RowsGoTogether | src/services/library/delete.rs:639-674 | an undisturbed deletion of rows takes all of them, and none if one is missing |
| Covers.RollbackCoverFile | src/services/file_operations.rs:626-661 | undoing one slot follows the four cases of present backup and present file, for replacements and obsolete covers, under any fault |
| Covers.RollbackCoverFiles | src/services/file_operations.rs:621-689 | replacements are undone before obsolete covers, each list backwards, stopping at the first failure |
| Covers.CleanupCoverFiles | src/services/file_operations.rs:692-716 | no backup is dropped before every replacement file has been found |
| Covers.DiscardCoverFiles | src/services/file_operations.rs:718-733 | for a ROM that is gone, files and backups of every slot are removed in order |
| Covers.ReconcileCoverOperationLocked | src/services/file_operations.rs:537-584 | recovery acts on the state read under the lock: nothing for completed, otherwise discard, rollback or cleanup, and completion only after success |
| Covers.StageCoverFile | src/services/igdb/covers.rs:243-275 | an overwritten file is in its backup before the new one is written |
| Covers.PrepareCoverFiles | src/services/igdb/covers.rs:221-275 | obsolete covers go to their backups first, then each replacement is staged, stopping at the first failure |
| Covers.RollbackAndRecordCoverFailure | src/services/igdb/covers.rs:288-315 | a failure before the commit is rolled back and recorded as completed or failed; the caller sees its own error |
| Covers.ReplaceCover | src/services/igdb/covers.rs:50-133 | the whole replacement, from journal row over staging and commit to cleanup or rollback, under any fault schedule |
| CoverSafety.RollbackSlotSafe | src/services/file_operations.rs:626-661 | one slot, interrupted anywhere, stays recoverable; undone completely it is original again; nothing else is touched; it fails only on a fault |
| CoverSafety.RollbackSafe | src/services/file_operations.rs:621-689 | any rollback of a recoverable replacement leaves it recoverable, and a complete one restores every slot |
| CoverSafety.RollbackIsCrashSafe | src/services/file_operations.rs:617-689 | any number of interrupted or failing rollbacks followed by an undisturbed one succeed with exactly the old files |
| CoverSafety.StageSafe | src/services/igdb/covers.rs:221-275 | wherever staging stops, rollback can undo it; complete staging has all new files in place and all backups kept |
| CoverSafety.CleanupSafe | src/services/file_operations.rs:692-716 | cleanup of committed files never loses a new file, can be repeated after any interruption, and when it ends no backup is left |
| CoverSafety.DiscardSafe | src/services/file_operations.rs:718-733 | a discard only removes files of its own slots, and when it ends none is left |
| CoverOutcomes.UndisturbedReplace | src/services/igdb/covers.rs:317-342 | an undisturbed replacement for a ROM that exists succeeds: row completed, committed, all new files in place, no obsolete cover and no backup left, nothing else changed |
| CoverOutcomes.ReplaceWithoutRom | src/services/igdb/covers.rs:120-133 | an undisturbed replacement for a ROM that is gone fails with that error, every file as before and the row completed |
| CoverOutcomes.SuccessMeansReplaced | src/services/igdb/covers.rs:120-133 | under any fault schedule success is reported only after the commit, with all new files in place and the row completed or waiting for its cleanup |
| CoverOutcomes.ReplaceWithOneError | src/services/igdb/covers.rs:221-342 | one I/O error at any step leaves either all files as before with a failure, or a commit with all new files in place; the failure is that error |
| CoverOutcomes.RecoveryDiscards | src/services/file_operations.rs:553-578 | one undisturbed recovery of an operation whose ROM is gone removes all its files and completes it |
| CoverOutcomes.RollbackRefuses | src/services/file_operations.rs:626-661 | a slot with neither file, or an obsolete cover with both, is refused and left as it is |
| CoverOutcomes.MissingRowIsRefused | src/services/file_operations.rs:546-551 | recovery of a row that has disappeared is an error that touches nothing |
| CoverOutcomes.CleanupNeedsEveryFile | src/services/file_operations.rs:692-716 | while a replacement file is missing no cleanup succeeds or drops a backup, under any faults |
| CoverOutcomes.StagingGoesInOrder | src/services/igdb/covers.rs:221-275 | wherever staging stops, up to some slot all are staged and after it all are as before, obsolete covers first |
| CoverOutcomes.RollbackGoesBackwards | src/services/file_operations.rs:621-689 | wherever a rollback stops, after some slot all are undone and before it none has been touched |
| CoverRuns.RollbackAndRecordSafe | src/services/igdb/covers.rs:288-315 | after a failed replacement the journal state still matches the files |
| CoverRuns.FinishSafe | src/services/igdb/covers.rs:317-342 | after a committed replacement the journal state still matches the files, wherever cleanup stops |
| CoverRuns.ReplaceSafe | src/services/igdb/covers.rs:50-133 | wherever a replacement stops, its row and its files agree and no other row or file has changed |
| CoverRuns.SettleSafe | src/services/file_operations.rs:557-578 | the branch recovery takes keeps what the state promises and, when it ends, establishes what completed promises |
| CoverRuns.ReconcileSafe | src/services/file_operations.rs:537-584 | an interrupted or failed recovery leaves row and files in agreement, changes the state only to completed, and cannot fail without an I/O error |
| CoverRuns.CompletedIsNotReplayed | src/services/file_operations.rs:546-553 | recovering a completed or pruned operation changes nothing |
| CoverRuns.StepKeepsInv | src/services/file_operations.rs:177-236 | every event of every process keeps the agreement of rows and files and at most one unfinished operation |
| CoverRuns.CoversAreAtomic | src/services/file_operations.rs:495-584 | in every run with crashes, restarts, stale lists and late reports, a completed operation whose ROM existed had exactly the new files and no backups if it committed, exactly the old files if not |
| CoverRuns.CompletedIsNeverReplayed | src/services/file_operations.rs:580-583 | in every reachable state, recovering a settled operation again changes no file, row or ROM |
| CoverRuns.RecoveryCompletes | src/services/file_operations.rs:537-584 | in every reachable state one undisturbed recovery completes an unfinished operation whose ROM exists, with the new files if it committed and the old ones if not |
| CoverRuns.WhenCommittedCoverSurvives | src/services/file_operations.rs:557-568 | exactly when a committed operation is still completed with its new files by an undisturbed recovery: its state is a committed one, or rolling every slot back would leave the new content anyway |
| CoverRuns.WhenCommittedFilesStay | src/services/file_operations.rs:537-584 | exactly when its new files are all in place after an undisturbed recovery, whether that completes it or gets stuck on an obsolete cover without backup |
| CoverRuns.LostCover | src/services/file_operations.rs:165-175 | a concrete run in which a recovery error after the commit is recorded as failed and the next recovery removes the committed cover |
| CoverPlans.PlanCover | src/services/igdb/covers.rs:160-206 | the two loops look at the new paths and at the former covers in order, under any fault, and plan a backup for what is there |
| CoverPlans.PlanIsSound | src/services/igdb/covers.rs:156-206 | whatever faults it meets, planning changes no file or row, and what it plans has one slot per path, backups that are free and pairwise distinct, and a backup exactly for what exists |
| CoverPlans.PlanIsComplete | src/services/igdb/covers.rs:160-206 | a finished plan writes every download to its path in order, and moves away exactly the former covers that are there and are not written anew |
| CoverPlans.PlannedMayStart | src/services/igdb/covers.rs:151-206 | under the lock, after recovery and with a fresh id, a planned replacement meets every hypothesis of the runs |
| CoverPlans.NamesDiffer | src/services/igdb/covers.rs:160-206 | numbered backup names of one operation are different, within each kind and across |
| Deletes.RestoreDeleteEntries | src/services/library/delete.rs:703-734 | restoring is best effort, last moved first, and never reports an error |
| Deletes.MoveDeleteEntries | src/services/library/delete.rs:568-600 | the first failing move restores what was moved before it and marks the operation failed |
| Deletes.FinishDeleteCleanup | src/services/library/delete.rs:602-637 | every trash entry is tried; the row is completed only if all went, else cleanup stays pending |
| Deletes.DeleteRomRecords | src/services/library/delete.rs:208-276 | the whole delete, from journal row over the moves and the transaction to the cleanup, under any fault schedule |
| Deletes.CleanupDeleteEntries | src/services/file_operations.rs:458-476 | recovery's cleanup stops at the first entry it cannot drop |
| Deletes.PutArtifactBack | src/services/file_operations.rs:346-391 | one artifact follows the four cases of trash and original present |
| Deletes.ReconcilePreparedDelete | src/services/file_operations.rs:321-394 | the surviving rows decide between dropping the trash, refusing a partial set, and putting everything back; without listed rows everything is put back |
| Deletes.ReconcileDelete | src/services/file_operations.rs:192-203 | the listed state decides which recovery runs |
| DeleteSafety.MoveSafe | src/services/library/delete.rs:573-593 | a move to trash or back leaves its artifact in exactly one of the two places |
| DeleteSafety.MoveEntriesSafe | src/services/library/delete.rs:568-600 | wherever moving stops, every artifact is whole in one of its places and the row is pending; complete moving has all in trash |
| DeleteSafety.DropAllSafe | src/services/library/delete.rs:602-637 | cleanup past the commit never brings an original back, and its success means that nothing is left |
| DeleteSafety.PutAllBackSafe | src/services/file_operations.rs:346-393 | putting back, interrupted anywhere, loses no artifact and takes none from another delete; complete, it leaves originals only |
| DeleteSafety.CountRowsMeans | src/services/file_operations.rs:331-344 | the count is zero exactly when no listed row is left and full exactly when all are |
| DeleteSafety.RecoverIdle | src/services/file_operations.rs:321-416 | without trash no recovery, however dispatched, changes a file or row |
| DeleteOutcomes.UndisturbedDelete | src/services/library/delete.rs:208-276 | an undisturbed delete whose listed rows exist succeeds: row completed, listed rows gone and no others, all originals and all trash gone and no other file |
| DeleteOutcomes.DeleteWithoutRow | src/services/library/delete.rs:639-674 | an undisturbed delete that lists a missing row fails with that error, every file and row as before and its row failed |
| DeleteOutcomes.DeleteRefused | src/services/library/delete.rs:568-600 | an undisturbed delete fails at the first entry it cannot move, with every file as before and its row failed |
| DeleteOutcomes.DeleteWithOneError | src/services/library/delete.rs:208-276 | one I/O error at any step up to the commit makes a delete fail with every file and row as before and its row failed, or not written |
| DeleteOutcomes.DeleteWithLateError | src/services/library/delete.rs:602-637 | one I/O error in the cleanup leaves the delete done, with only that trash entry left and the row waiting for its cleanup |
| DeleteOutcomes.RestoreSkips | src/services/library/delete.rs:703-734 | restoring is best effort: an entry that meets an I/O error stays in trash and all others come back |
| DeleteRuns.DeleteSafe | src/services/library/delete.rs:208-276 | wherever a delete stops, everything can be put back while a row is left, only trash remains otherwise, and completed means that nothing remains |
| DeleteRuns.RecoverSafe | src/services/file_operations.rs:321-416 | a recovery that ends leaves either all rows and originals or none; one that stops keeps what recovery needs |
| DeleteRuns.StepKeepsInv | src/services/file_operations.rs:177-236 | every event of every process keeps the delete recoverable, and a settled one free of trash |
| DeleteRuns.DeletesAreAllOrNothing | src/services/file_operations.rs:177-476 | in every run with crashes, failed attempts, stale lists and late reports, a completed delete with ROMs settled all-or-nothing, and no later recovery changes its files |
| DeleteRuns.RecoveryCompletes | src/services/file_operations.rs:321-416 | in every reachable unsettled state an undisturbed recovery ends, all-or-nothing, exactly when the rows that are left are not a partial set |
| DeleteRuns.WhenSidecarsStayDeleted | src/services/file_operations.rs:346-393 | a committed delete without ROM ids that is recovered as prepared or failed stays deleted exactly when its first trash entry is already gone |
| DeleteRuns.SidecarComesBack | src/services/library/delete.rs:131-206 | a concrete delete without ROM ids that commits and dies, and comes back in a recovery listed before the commit |
| OverlappingDeletes.DeleteOutcome | src/services/library/delete.rs:208-276 | wherever a delete stops, either its rows are untouched and each artifact is whole in one of its places, or all its rows and originals are gone |
| OverlappingDeletes.RecoverOutcome | src/services/file_operations.rs:321-416 | whatever other deletes have taken, a recovery puts back what it has, refuses a partial set without touching a file, or drops its trash |
| OverlappingDeletes.StepKeepsInv | src/services/file_operations.rs:177-236 | every event of any number of deletes keeps each file in one place, and every settled delete free of trash |
| OverlappingDeletes.OverlappingDeletesAreAllOrNothing | src/services/file_operations.rs:177-476 | in every run of retried, repeated and overlapping deletes and their recoveries, a completed one settled all-or-nothing, its files back as they were before it or all gone, and no later recovery of it changes a file |
| OverlappingDeletes.NoFileIsLost | src/services/file_operations.rs:321-476 | in every such run a file whose ROM row is there is in place or in the trash of one pending delete, with the content it had before the delete, and in no other trash |
| OverlappingDeletes.BeforeIsTheStart | src/services/library/delete.rs:208-276 | what a delete's record calls before is the file map at the moment it started |
| Locks.ResolveDeleteRoots | src/services/file_operations.rs:432-445 | the canonical roots of entries and root ids, each once; an error exactly when a root id has no root |
| Locks.LockOrder | src/services/file_operations.rs:447-456 | the locking order is the one strictly ascending list of the roots, each once |
| Locks.StepMeans | src/storage/file_store.rs:106-132 | a process plans its roots, takes one after the other, and frees all it held when it ends; no step touches another process |
| Locks.DoneHoldsAll | src/services/file_operations.rs:447-456 | a process that waits for nothing holds exactly the roots it planned |
| Locks.StepKeepsExclusion | src/storage/file_store.rs:106-132 | a root never has two holders |
| Locks.NeverAsksTwice | src/services/file_operations.rs:447-456 | no process requests a root it holds |
| Locks.NoCircle | src/services/file_operations.rs:447-456 | among any processes that wait, one waits for a root that none of them holds |
| Locks.SomebodyCanLock | src/services/file_operations.rs:447-456 | among processes that all still wait, one can take its next lock |
| Locks.NeverDeadlocked | src/services/file_operations.rs:418-456 | in every run of processes that lock the roots of a delete or a single root, there is one holder per root, no self-request, and no set of processes that wait only on each other |
| EditDistance.LevenshteinDistance | src/services/igdb/normalization.rs:141-157 | the two swapped rows compute the distance recurrence, with the equal-text shortcut agreeing |
| EditDistance.FillRow | src/services/igdb/normalization.rs:148-153 | one turn of the outer loop turns a row of the distance table into the next row |
| EditDistance.DistanceIsShortest | src/services/igdb/normalization.rs:141-157 | an insert, delete and substitute script of exactly that length turns one text into the other, and no script is shorter |
| EditDistance.NoScriptIsShorter | src/services/igdb/normalization.rs:141-157 | every edit script that turns one text into the other has at least that length |
| EditDistance.ShortestScript | src/services/igdb/normalization.rs:141-157 | a script of that length, constructed |
| EditDistance.DistanceSymmetric | src/services/igdb/normalization.rs:141-157 | the distance does not depend on the order of its arguments |
| EditDistance.ZeroMeansEqual | src/services/igdb/normalization.rs:142-144 | only equal texts are at distance zero, so the shortcut misses none |
| EditDistance.Triangle | src/services/igdb/normalization.rs:141-157 | the triangle inequality |
| Titles.NormalizeTitle | src/services/igdb/normalization.rs:106-139 | the loop over decomposed characters computes the fold of its step function |
| Titles.NormalizingTwice | src/services/igdb/normalization.rs:113-138 | the result is words separated by single spaces with none at the ends, and normalising it again changes nothing |
| Titles.BracketsDoNotMatter | src/services/igdb/normalization.rs:113-129 | a bracketed part can be taken out of a title without changing the result |
| Titles.NormalizedMeans | src/services/igdb/normalization.rs:113-138 | the result is the text outside brackets, cut into its runs of letters and digits, with one space in between |
| Titles.WithoutBrackets | src/services/igdb/normalization.rs:118-138 | a title without an opening parenthesis, bracket or brace is just cut into its words |
| RateLimiter.AuthRateLimiter.Check | src/services/auth_rate_limit.rs:35-66 | a rejection exactly for an unexpired lockout, with its remaining time; only the key's own entry changes |
| RateLimiter.AuthRateLimiter.OldestUnlocked | src/services/auth_rate_limit.rs:85-97 | the scan finds the least recently seen unlocked key, ties by key, and nothing exactly when all are locked |
| RateLimiter.AuthRateLimiter.EarliestLockout | src/services/auth_rate_limit.rs:101-105 | a full table of locked entries has an earliest lockout, so the expectation cannot fail |
| RateLimiter.AuthRateLimiter.RecordFailure | src/services/auth_rate_limit.rs:68-142 | the table and the answer after a failure, with expiry, eviction, refusal and lockout |
| RateLimiter.LazyExpiryIsUnobservable | src/services/auth_rate_limit.rs:35-161 | for times that never go back every call of every run is answered as by a table without expired entries, evictions included |
| RateLimiter.CapacityHolds | src/services/auth_rate_limit.rs:80-113 | the table never outgrows its bound in any run |
| RateLimiter.LockedExactlyAfterMaxFailures | src/services/auth_rate_limit.rs:113-132 | among calls of any keys that neither succeed for a key nor evict it, the key is locked within its window exactly when its own failures reach the configured number |
| RateLimiter.OthersCannotEvict | src/services/auth_rate_limit.rs:80-113 | a failure of another key neither removes nor changes an entry whose lockout and window are in force |
| RateLimiter.LockoutHolds | src/services/auth_rate_limit.rs:35-155 | a lockout holds through every run of calls until it or its window runs out, unless the key itself succeeds |
| RateLimiter.CheckMeans | src/services/auth_rate_limit.rs:35-66 | a check rejects exactly while the window is not over and the lockout has not ended, and forgets a key exactly when its window is over |
| RateLimiter.LimiterOff | src/services/auth_rate_limit.rs:41-78 | without a limit nothing is counted or rejected, and without room nothing is counted |
| RateLimiter.FailureCounts | src/services/auth_rate_limit.rs:113-142 | a failure within its window is one more, and at the limit it locks until now and the lockout |
| RateLimiter.FailureStartsAWindow | src/services/auth_rate_limit.rs:68-142 | a failure of an unknown key, or one whose window is over, is the first of a window that starts now; exactly the keys within their windows stay, unchanged |
| RateLimiter.FailureEvictsTheOldest | src/services/auth_rate_limit.rs:80-113 | on a full table it takes the place of the unlocked key seen least recently, the lesser of two, and of no other |
| RateLimiter.FailureOnAFullTable | src/services/auth_rate_limit.rs:98-112 | on a table full of locked keys it is told the earliest end of a lockout and changes none |
| RateLimiter.RetryIsSecondsLeft | src/services/auth_rate_limit.rs:163-165 | a rejection names the whole seconds left, at least one |
| UploadStaging.BoundedDiskReservation | src/api/admin/multipart.rs:687-696 | a reservation exists exactly if the chunk fits above the margin; it covers the chunk, respects the interval and stays above the margin |
| UploadStaging.StageFileField | src/api/admin/multipart.rs:608-673 | the loop over the chunks gives the answer of the first chunk that does not pass, whatever the disk reports |
| UploadStaging.AcceptedIsExact | src/api/admin/multipart.rs:618-638 | an accepted upload is within its limit and is reported with its length; a refusal for size means that the limit is exceeded |
| UploadStaging.StagingAnswers | src/api/admin/multipart.rs:608-673 | the answer is given by the first chunk that is over the limit, or for which the disk is due to be looked at and lacks room; without one the upload is accepted |
| UploadStaging.WritesFitTheCheck | src/api/admin/multipart.rs:640-670 | the chunks written since the last look at the disk leave the margin free in what it reported, and are at most the interval or the first of them |
| UploadStaging.TurnIsThreeEvents | src/api/admin/multipart.rs:644-670 | one turn of the chunk loop is a reservation, a write and the end of a chunk of the run below, with the same reservation |
| UploadStaging.StepKeepsFloor | src/api/admin/multipart.rs:644-670 | every reservation, write, end of a chunk and end of an upload keeps the bound on free space less outstanding writes |
| UploadStaging.FreeSpaceHasAFloor | src/api/admin/multipart.rs:557-723 | in every interleaving of the uploads that are admitted at once, free space stays above the smaller of its start and the margin less one largest reservation for each other upload less one write buffer for each, and no reservation is smaller than its chunk |
| Transfers.BackgroundTransferRegistry.Prune | src/services/background_transfers.rs:195-223 | outdated terminal entries go, then the oldest beyond the capacity; running ones stay |
| Transfers.BackgroundTransferRegistry.Claim | src/services/background_transfers.rs:67-96 | an owner only for a valid key without an entry, otherwise the answer its entry demands |
| Transfers.BackgroundTransferRegistry.Cancel | src/services/background_transfers.rs:98-114 | only a running entry becomes cancelled; the answer tells missing, complete and cancelled apart |
| Transfers.BackgroundTransferRegistry.CompleteLease | src/services/background_transfers.rs:116-129 | a response is stored only while the entry still runs |
| Transfers.BackgroundTransferRegistry.DropLease | src/services/background_transfers.rs:131-169 | an uncompleted lease releases its key for a retry unless it was cancelled |
| Transfers.WhenIdsAreValid | src/services/background_transfers.rs:184-193 | an id is valid exactly with one of the two prefixes and then letters, digits and underscores, at most 128 in all |
| Transfers.InvalidIdsAreRefused | src/services/background_transfers.rs:67-75 | an invalid id is refused and changes nothing |
| Transfers.ClaimsInTurn | src/services/background_transfers.rs:67-96 | a claim on a free key owns it with a new lease, and a second one is told that it runs |
| Transfers.RetryAfterDrop | src/services/background_transfers.rs:131-169 | after a lease is dropped without a response the next claim owns the key |
| Transfers.RetryAfterCompletion | src/services/background_transfers.rs:116-129 | after a lease completes, claims get its response and a cancellation comes too late |
| Transfers.CancelledStaysCancelled | src/services/background_transfers.rs:98-169 | after a cancellation claims are refused, and the lease can neither complete nor free the key |
| Transfers.PruningTakes | src/services/background_transfers.rs:195-223 | a pruning takes no running entry, every terminal one of an hour or more, and of the others only those older than 64 that stay |
| Transfers.StepKeepsInv | src/services/background_transfers.rs:67-169 | every event whose pruning spares held records keeps one lease per running entry and different keys for different leases |
| Transfers.PromptIsExact | src/services/background_transfers.rs:67-169 | an event keeps one owner per key, and the invariant, exactly when its pruning takes no cancelled record of a held lease |
| Transfers.WhenRecordsAreSafe | src/services/background_transfers.rs:195-223 | no pruning can take a terminal record exactly while it is within the retention and fewer than 64 others in force are as recent |
| Transfers.TimelyIsExact | src/services/background_transfers.rs:67-223 | whatever a pruning removes, an event keeps one owner per key exactly when every held cancelled record is within that bound on time and number |
| Transfers.WhenOwnersAreSingle | src/services/background_transfers.rs:67-223 | every key has one owner at every moment of a run exactly when no pruning of the run takes the cancelled record of a held lease |
| Transfers.OneOwnerPerKey | src/services/background_transfers.rs:67-169 | in every run that keeps the bound on time and number there is one owner per key throughout, a running entry has its lease, and a claim becomes an owner only of a key without a lease |
| Transfers.FirstResponseStays | src/services/background_transfers.rs:67-129 | until it is pruned, every later claim on a completed key returns the first response |
| Transfers.WhenTerminalsExceed | src/services/background_transfers.rs:98-223 | a step leaves 65 terminal entries exactly when it cancels a running entry after a pruning that left 64, or when 65 were there and it does not prune |
| Transfers.TerminalsAreBounded | src/services/background_transfers.rs:67-223 | no run holds more than 65 terminal entries |
| Transfers.SixtyFiveTerminals | src/services/background_transfers.rs:98-114 | a concrete run from the empty registry that holds 65 |
| Transfers.SlowLeaseOwnsTwice | src/services/background_transfers.rs:195-223 | a concrete run of four possible events in which a lease outlives its cancelled record, the key is owned twice, and the old lease completes the new entry |
| Jobs.JobRegistry.Prune | src/services/job_registry.rs:390-409 | outdated finished jobs go, then the earliest finished beyond the capacity, ties by id |
| Jobs.JobRegistry.Reserve | src/services/job_registry.rs:93-113 | a new queued job after one pruning; an id in use is refused and the caller draws another |
| Jobs.JobRegistry.StartJob | src/services/job_registry.rs:126-138 | only a queued job starts; a finished one is left alone without an error |
| Jobs.JobRegistry.ReportPhase | src/services/job_registry.rs:140-156 | a phase never goes back, and a new one clears the progress |
| Jobs.JobRegistry.ReportProgress | src/services/job_registry.rs:158-186 | progress never falls and its total never changes within a phase |
| Jobs.PercentNeverFalls | src/services/job_registry.rs:158-170 | within a phase the percentage lies between 0 and 100, never falls, and is 100 exactly when all is done |
| Jobs.JobRegistry.SucceedJob | src/services/job_registry.rs:188-209 | only a running job succeeds, in the final phase, and finishing prunes |
| Jobs.JobRegistry.FailJob | src/services/job_registry.rs:211-227 | any unfinished job can fail; a finished one is left alone |
| Jobs.JobRegistry.CancelJob | src/services/job_registry.rs:229-254 | the first lock section of a cancellation, and whether a second one follows |
| Jobs.ChangeEvolves | src/services/job_registry.rs:126-227 | one request moves a record only along the allowed transitions |
| Jobs.PruningIsSafe | src/services/job_registry.rs:390-409 | pruning removes finished jobs only, changes none, and leaves at most the capacity |
| Jobs.StepKeepsInv | src/services/job_registry.rs:93-254 | every event moves records forward only and removes no unfinished one |
| Jobs.JobsOnlyMoveForward | src/services/job_registry.rs:126-270 | along every run a job only moves forward, a finished one not at all, and finished jobs exceed the capacity by at most the cancellations between their lock sections |
| Jobs.UnfinishedStay | src/services/job_registry.rs:390-409 | a job that nothing finishes stays registered and unfinished through every run |
| Jobs.WhenRefused | src/services/job_registry.rs:126-227 | exactly when a request is refused, and with which error |
| Jobs.WhenAnswered | src/services/job_registry.rs:126-227 | progress beyond its total is refused first, then an unknown job, then the request itself |
| Jobs.ReportsShow | src/services/job_registry.rs:140-186 | an accepted phase or progress is what the job shows next; a new phase clears the progress and the same one changes nothing |
| Jobs.EndingTells | src/services/job_registry.rs:188-254 | a job that succeeds tells its result and is complete, one that fails tells its error, a cancelled one neither, and none shows progress |
| Jobs.GoodLife | src/services/job_registry.rs:93-209 | start, phase, progress and success of a new job are all accepted |
| Jobs.WhenForgotten | src/services/job_registry.rs:390-409 | a pruning forgets a job only if it finished an hour ago or more, or 64 that finished later stay |
| Jobs.OldOnesAreForgotten | src/services/job_registry.rs:390-409 | a job that finished an hour ago or more does not survive a pruning |
| Passwords.PasswordService.constructor | src/services/password.rs:51-63 | the two capacities: at least one worker, and workers plus queue slots |
| Passwords.PasswordService.Admit | src/services/password.rs:75-81 | a slot without waiting exactly if one is free |
| Passwords.PasswordService.Acquire | src/services/password.rs:84-106 | a worker permit in time, or the slot is returned |
| Passwords.PasswordService.Cancel | src/services/password.rs:123-142 | cancelling a request returns its own permits and leaves those of a running worker |
| Passwords.PasswordService.FinishWork | src/services/password.rs:123-142 | a worker returns both permits when its work ends |
| Passwords.PermitsAreConserved | src/services/password.rs:50-142 | in every run free plus held permits are the capacities, at most c workers run, at most q requests wait while they do, and a refusal means that all slots are held |
| Passwords.EveryPermitIsUsable | src/services/password.rs:50-142 | in every run a request is admitted exactly while fewer than c + q slots are held, can get a worker exactly while fewer than c work, and gives back what it held |
| Ordering.OrderIsUnique | src/repositories/roms/read.rs:39-53 | two lists of the same rows in this order are equal, so every sorting gives the same page |
| CatalogPages.KeyMeansPrecedes | src/repositories/roms/read.rs:39-53 | by name and date: by value and then id in the asked direction; by year, rating and size: known values first, by value in the asked direction, then by name ascending, then by id in the asked direction |
| CatalogPages.FileKeyMeansPrecedes | src/repositories/roms/rows.rs:47-68 | preferred files: main content, manifests, discs, other launchable files, the rest, parts last; then primary ones, and then by index, disc, track, name and id |
| CatalogPages.PagesAreInOrder | src/repositories/roms/read.rs:39-72 | catalogue and page stand in that order |
| CatalogPages.FilesAreInOrder | src/repositories/roms/read.rs:222-276 | a ROM's file list is complete and stands in that order |
| CatalogPages.SelectionIsOrdered | src/repositories/roms/read.rs:19-53 | the filtered catalogue is strictly ordered, holds exactly the matching ROMs, and has the counted length |
| CatalogPages.RejoiningKeepsThePage | src/repositories/roms/read.rs:54-72 | joining the selected ids again gives exactly the slice of the filtered and sorted catalogue |
| CatalogPages.SliceMeans | src/repositories/roms/read.rs:61-66 | a page holds the rows from its offset on, as many as its limit; a negative offset or limit is none |
| CatalogPages.FilesForRomIds | src/repositories/roms/read.rs:222-276 | each ROM's group is its rows in the order of the query, and there is a group exactly for ROMs with rows |
| CatalogPages.GroupsAreFiles | src/repositories/roms/read.rs:222-276 | a group of the one query is the ROM's complete file list in preferred order |
| CatalogPages.AttachFiles | src/repositories/roms/read.rs:79-84 | every ROM of the page takes its own files out of the map |
| CatalogPages.List | src/repositories/roms/read.rs:14-92 | the page is filter, sort and slice; its ROMs stand in the asked order and carry their complete files in preferred order, the total is the number of matching ROMs, and the file name is that of the first file |
| CatalogPages.CatalogueIgnoresPaging | src/repositories/roms/read.rs:39-72 | what is selected and how it is ordered does not depend on limit and offset |
| CatalogPages.PagesCoverTheCatalogue | src/repositories/roms/read.rs:14-92 | the requests at offsets 0, L, 2L, ... return together the whole filtered and sorted catalogue with its files, each matching ROM once and in order |
| Splitting.SplitUndoesJoin | src/api/admin/conversion.rs:130-132 | splitting at the separator gives the joined parts back |
| InputPaths.KeysCompareParts | src/api/admin/conversion.rs:132-133 | keys agree exactly when the parts agree ignoring ASCII case, spellings exactly when the parts are equal |
| InputPaths.FoldingIgnoresCase | src/api/admin/conversion.rs:132-133 | keys ignore the case of ASCII letters and nothing else |
| InputPaths.CollidesMeansClash | src/api/admin/conversion.rs:135-143 | a prefix is refused exactly when it clashes with a prefix of an accepted path |
| InputPaths.AddPath | src/api/admin/conversion.rs:130-144 | a path is accepted exactly if it fits every accepted path, and the map then stands for one more path |
| InputPaths.AcceptPaths | src/api/admin/conversion.rs:130-144 | the files are accepted exactly when no two paths are equal ignoring case, none is a directory of another, and shared directories are spelt alike |
| CoverCache.CoverImages.SyncCoverImages | web/public/shared.js:61-74 | a new generation with an empty queue, in which exactly the URLs of covers off screen are revoked |
| CoverCache.CoverImages.ClearCoverImages | web/public/shared.js:114-122 | clearing revokes every cached URL |
| CoverCache.CoverImages.PumpQueue | web/public/shared.js:124-141 | queued tasks start in order while a place is free; stale ones are dropped |
| CoverCache.CoverImages.FetchResponded | web/public/shared.js:147-172 | a response is cached only if its generation and path are still wanted, and is revoked otherwise |
| CoverCache.CoverImages.LoadFinished | web/public/shared.js:135-139 | the end of a load frees its place and starts the next |
| CoverCache.StepKeepsInv | web/public/shared.js:48-173 | every script event keeps URLs, loads and pending fetches consistent |
| CoverCache.UrlsNeverLeak | web/public/shared.js:48-173 | in every interleaving the live URLs are exactly the cached ones, each of a different active path, and the counter is the running loads, at most four |
| CoverCache.RevokedOnlyOnce | web/public/shared.js:61-173 | in every run there are exactly as many revocations as revoked URLs, so none is revoked twice, and a revoked one stays revoked |
| CoverCache.SyncKeepsWanted | web/public/shared.js:61-74 | showing other covers keeps the URL of every cover that is still wanted, and of no other |
| CoverCache.ResponseIsShown | web/public/shared.js:147-172 | a successful fetch for the current generation and a wanted cover is shown with a live URL; no response takes a cover away |
| CoverCache.PumpMeans | web/public/shared.js:124-141 | the wanted tasks of the queue start in order, and afterwards the queue is empty or all places are taken |
| CoverCache.QueueNeverRepeats | web/public/shared.js:83-93 | in every run no cover of one generation is queued twice |
| Transcript.ImportJob.Append | web/admin/state.js:638-651 | the loop appends each new number once, to the list of its kind |
| Transcript.ImportJob.ApplySnapshot | web/admin/state.js:625-694 | the merged lists, their cuts, the cursor and the truncation mark after a snapshot |
| Transcript.NewsMeans | web/admin/state.js:634-640 | what a snapshot adds is strictly increasing, new, and misses no new number |
| Transcript.TranscriptIsTheLastOfHistory | web/admin/state.js:625-694 | over any honest snapshots, repeated, overlapping or late, accepted events strictly increase and the transcript is the last 512 of them |
| Transcript.WhenRepeatingIsHarmless | web/admin/state.js:634-676 | a repeated snapshot adds nothing exactly when it carries nothing beyond the new cursor |
| Transcript.WhenMarked | web/admin/state.js:655-676 | over any honest snapshots the cursor is the furthest number among them, and the page is marked exactly when one of them was or more lines came than it keeps |
| Transcript.PhasesFollowTheLog | web/admin/state.js:625-694 | merging a snapshot of a trimmed log keeps the phases the last 64 of the log up to the cursor, whatever was dropped, repeated or reordered |
| Transcript.WhenTranscriptFollows | web/admin/state.js:625-694 | merging a snapshot of a trimmed log leaves the last 512 output lines of the log up to the cursor exactly when no line was dropped unseen or 512 later ones come with it |
| Transcript.PiecesReconstructTheLog | web/admin/state.js:625-694 | from the start, any snapshots of a log that the server trims as it goes give its last phases, and its last 512 output lines exactly when no line was dropped unseen or 512 have come since the last time one was, that snapshot included |
| DisplayText.BoundedText | src/services/mod.rs:21-35 | the loop replaces control characters and returns the cut, and whether anything was cut off |
| DisplayText.CutMeans | src/services/mod.rs:21-35 | the cut is the one longest beginning within the size, and the whole text exactly if that fits |
| DisplayText.CleanedMeans | src/services/mod.rs:21-35 | exactly the control characters are replaced, one by one |
| JobLog.JobRecord.Append | src/services/gog_import/jobs.rs:1115-1162 | the record after an event of any text, the trimming loop included |
| JobLog.AppendedMeans | src/services/gog_import/jobs.rs:1115-1162 | the event gets the next number and the cut text; every phase and the output lines above a floor that only rises are kept; a limit is exceeded only by phases; and the mark is set exactly when something was cut, dropped or refused |
| JobLog.TrimmedIsKept | src/services/gog_import/jobs.rs:1138-1160 | dropping the oldest output lines one by one keeps exactly the phases and the lines above some number |
| JobLog.TrimmedIsEnough | src/services/gog_import/jobs.rs:1138-1160 | trimming stops as soon as it may: with the last line it drops there was too much |
| JobLog.WithinTheLimits | src/services/gog_import/jobs.rs:1127-1160 | within 512 events and 256 KiB of text nothing is dropped, and these are exceeded only by phases; an entry has at most 4 KiB |
| JobLog.JobRecord.SnapshotAfter | src/services/gog_import/jobs.rs:563-571 | a number beyond the log is refused; otherwise the answer is what is kept of the log after that number |
| JobPolling.SnapshotIsPiece | src/services/gog_import/jobs.rs:1164-1183 | an answer is a piece of the log for every page that is at its number or further |
| JobPolling.StepKeepsInv | web/admin/state.js:625-694 | every append, answer, delivery and reload keeps all answers on their way pieces of the log, and the page the result of those received |
| JobPolling.PageFollowsTheServer | web/admin/state.js:625-694 | in every run of server and page, answers overlapping, repeated, late, out of order or lost: the phases are the last 64 of the server's log up to the cursor, the output lines are its last 512 exactly when none was missed or 512 have come since, a page that lacks a line is marked, and the server never refuses its cursor |
| JobPolling.WhenReloadingShowsAll | web/admin/state.js:614-694 | in every reachable state a page that is loaded again and polls once has all phases, and the last 512 output lines of the whole log exactly when the server has dropped none or keeps 512 |
| JobPolling.MissedLine | src/services/gog_import/jobs.rs:1138-1160 | a concrete run: a phase and 512 lines before the first poll leave the page out of step |
| UrlCoding.CodingRoundTrip | web/public/catalog.js:208-251 | decoding undoes percent-encoding and form encoding for every string of scalar values |
| UrlCoding.CharactersPrint | web/public/catalog.js:208-251 | unreserved characters print as themselves, a space in a form as a plus sign, and all others as their UTF-8 bytes in upper-case percent escapes |
| UrlCoding.StrayPercent | web/public/catalog.js:208-220 | a percent sign that starts no escape stands for itself in a query, and makes a path an error |
| UrlCoding.CutWithoutEquals | web/public/catalog.js:212-214 | a parameter without an equals sign has an empty value |
| UrlCoding.ParamsRoundTrip | web/public/catalog.js:212-250 | parsing a printed query gives the parameters back in order |
| Routes.RouteParamsRoundTrip | web/public/catalog.js:212-250 | query, page and filters come back from the printed parameters |
| Routes.EncodedIsNoDot | web/public/catalog.js:205-208 | only the slugs "." and ".." print as dot segments |
| Routes.PlatformRoundTrip | web/public/catalog.js:203-252 | a printed platform route parses to itself exactly when its slug is neither "." nor ".." |
| Routes.SearchRoundTrip | web/public/catalog.js:203-267 | a printed search route parses to itself |
| Routes.GameRoundTrip | web/public/catalog.js:235-256 | a printed game route parses to itself |
| Routes.WhichPartsParse | web/public/catalog.js:208-242 | exactly which path parts mean the start page, a search, a platform or a game; all others are not found |
| Routes.HashesMayBeShort | web/public/catalog.js:203-208 | the number sign and the slash in front of a hash may be missing |
| Routes.PageRoundTrip | web/public/catalog.js:312-315 | every page from 1 to 10000 comes back from its digits |
| Routes.PagesAreBounded | web/public/catalog.js:312-315 | for every number: page 1 if it is none or not safe, the last page if it is beyond; never outside 1 to 10000 |
| Routes.WhichFiltersCount | web/public/catalog.js:8-15 | exactly the known keys with a value that is not blank are filters, each with its cleaned value |
| Routes.ShorthandsMean | web/public/catalog.js:215-216 | a single year or rating stands for both ends of its range, and nothing else changes |
| Routes.TrimMeans | web/public/catalog.js:212-232 | trimming takes white space off both ends and nothing else |
| Routes.WhiteSpaceIs | web/public/catalog.js:212-232 | white space is the 25 code points that the script trims |
| Routes.HashesLook | web/public/catalog.js:222-267 | the printed hashes are a path, with a query only if there is something to say |

## Left out

- Recovery of uploads and the forward upload path: it decides from rows and re-removes files by the same argument as deletes.
- Covers.ReconcileCoverOperationLocked: the branch for legacy operations without transactional state, which only older versions wrote, is not modelled.
- Covers.ReplaceCover: the operation is a parameter, planned by `CoverPlans.PlanCover`; the download, the check of the image format, the merge of the metadata and the re-read of the ROM row at the end are not modelled.
- CoverPlans.PlanCover: the former covers are a parameter, without the query for them; rejecting unclean paths and creating parent directories are not modelled.
- CoverPlans.PlanIsSound: the new paths are pairwise distinct, name regular files if anything, and lie outside the trash directory of the fresh operation id, which is empty.
- IGDB metadata transactions that carry covers: they use the same preparation, commit and rollback as an uploaded cover.
- Storage.Host.SaveCover: the cover and metadata rows are not modelled one by one; one mark per operation stands for them. A commit that takes effect but reports an error is not modelled.
- Storage.Host.WriteNew: the temporary sibling of an atomic write, and its removal, are not part of the file map.
- Storage.Host.MoveFile: symbolic links, canonical paths and the parent directories a move creates are not modelled; different relative paths under one root are different files.
- CoverRuns.CoversAreAtomic: assumes that recovery of a committed operation meets no I/O error (`WhenCommittedCoverSurvives` says exactly what happens otherwise), that the paths of one operation are pairwise distinct regular files (`CoverPlans.PlanIsSound` derives it for planned operations), that other work under the asset lock stays off the files of an unfinished operation, and that ROM ids are not reused while it is pending.
- DeleteRuns.DeletesAreAllOrNothing: follows one delete; until it has settled nobody else touches its files, adds one of its rows back or takes the last of them (`OverlappingDeletes` is about deletes that do). A critical section is one event, since its locks are held throughout; only reports made after the locks are released come late.
- OverlappingDeletes.OverlappingDeletesAreAllOrNothing: every file belongs to one ROM, overlapping deletes name it by the same path, ROM ids are not reused, and work that is no delete takes a row only after the files a pending delete concerns. A new delete looks up, under its locks, all files of its ROMs that are in place.
- Locks.NeverDeadlocked: root paths are compared as strings; starvation and failing lock calls are not modelled.
- Deletes.DeleteRomRecords: the choice of files to delete (package folders, shared folders, missing files) and the audit row are not modelled.
- EditDistance.LevenshteinDistance: numbers are unbounded; lengths of titles are far below the machine's range.
- Titles.NormalizeTitle: lowercasing, decomposition and the removal of combining marks are an opaque first pass.
- Candidate ranking: a stable library sort by platform match and distance.
- RateLimiter.AuthRateLimiter.RecordFailure: times are integers and do not overflow; the hash map's order does not matter to the result.
- UploadStaging.FreeSpaceHasAFloor: reading the free space and deciding on the reservation is one event, and only uploads consume space. Aggregate batch limits and the conversion upload's own check are not modelled.
- Transfers.OneOwnerPerKey: holds for runs within the bound on time and number of records (`TimelyIsExact`); how long a cancelled transfer takes to drop its lease is not modelled. Cancellation tokens are the numbers of leases.
- Jobs.JobRegistry.ReportProgress: the percentage is an exact quotient, without the rounding of floating point; abort handles and the check of the shape of an id are not modelled.
- Passwords.PermitsAreConserved: capacities add up without overflow; fairness of the semaphores and the hashing itself are not modelled.
- CatalogPages.List: the filter is any predicate on ROMs and the whole request sees one state of the database. Collation and JSON numbers are ranks in a total preorder; the joins to platforms and library roots lose no row because of their foreign keys.
- CoverCache.CoverImages.SyncCoverImages: enqueuing the new paths is an event of its own, since the observer does it later.
- CoverCache.UrlsNeverLeak: the observer, the images of the page and the requests themselves are not modelled; a late observer may enqueue for an old generation.
- JobLog.JobRecord.Append: progress, states and times of the job are not modelled; the byte count does not overflow.
- JobPolling.PageFollowsTheServer: the log stays below 2^53 events, the numbers a page can represent; restarts of the server, which lose the log, and polling intervals are not modelled. A page starts at number 0, for a new job as when it is loaded again.
- Transcript.ImportJob.ApplySnapshot: sequence numbers are integers; missing or fractional numbers and the other progress fields are not modelled.
- UrlCoding.ParamsRoundTrip: malformed UTF-8 in a query is an error here, where the platform would repair it.
- Routes.PlatformRoundTrip: the URL parser's treatment of characters the printers never produce is not modelled, and clipping to 200 units never cuts a surrogate pair in two. The defaults `catalogSortFilters` adds are not modelled.
- HTTP routing, request extraction, audit rows, logging, configuration, authentication tokens, foreign clients and tools, and page rendering.
