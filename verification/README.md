# OrbitCloud model

A Dafny model of the stateful core of OrbitCloud, a multi-tenant file store with a web API, background tasks and an
SMB gateway, and proofs about it. Rows of the database are maps, the object store is a map from key to bytes, and code
that updates state in place is a class whose methods are proved against specification functions.

`dafny verify dfyconfig.toml` checks everything.

| files | what they model |
|---|---|
| `Segments`, `FlushImage`, `ReadImage`, `FileRuns`, `SmbHandle`, `SmbRecord` | the SMB write-back cache: interval table, object assembly, reads, runs of one handle against a plain byte array, the file record |
| `DeletePlan`, `DeleteStack`, `DeleteProgress`, `DeleteTask`, `Batches` | the delete-directory task: what it must do, its explicit stack, its loops, stops and resumptions |
| `Lease` | the database lease that keeps instances apart |
| `CopyPlan`, `CopyTask`, `MovePlan`, `Verdicts` | the folder-copy task and the cross-bucket file move, and the answers of the environment they depend on |
| `Names`, `FolderForest`, `FolderTree`, `TaskSoundness` | names and paths, mkdir -p, path and id, creating and moving folders; what the tasks get from the forest |
| `Accounts`, `Books` | used space of buckets and users, quotas, uploads with compensation, recycle bin, write-back accounting |
| `ShareRegistry` | the gateway's share registry, its access lists and their ledger |
| `Paging`, `DirectoryTree`, `Enumerator` | keyset pages and the breadth-first download enumeration |
| `Rows`, `Visibility`, `Wrappers` | table rows and who may see them, bytes and optional values |
| `RateLimit`, `AdmissionPool`, `Frames`, `Turns` | token bucket and refusal ring, admission pool, wire format, remainders |

Where the code and its own comments disagree, the model follows the code:

- A cached write does not always win over an older one (`Segments.LaterWriteWinsExactly`, `FileRuns.ContainedWriteIsLost`),
  although the merge is commented as "later covers earlier".
- `copyFromObject` can fill a gap too long or too short (`FlushImage.UnsafeGap`, `FileRuns.UnsafeFlushIsTooLong`).
- Truncating does not trim the cache (`FileRuns.TruncateExactly`).
- The segment guard of `ResolveDirPath` is commented as unreachable. That is right for normal paths, the only ones its
  callers pass (`FolderTree.NormalPathPassesGuard`), and wrong only for a direct call with repeated slashes
  (`FolderTree.SegmentGuardExactly`, `FolderTree.SegmentGuardIsReachable`).
- The list of refusals, commented as newest first, is so only at times (`RateLimit.NewestFirstExactly`).
- `CopyFolder` accepts a target below its source (`TaskSoundness.CopyIntoItselfIsAccepted`), and that copy never ends
  (`CopyPlan.NoCopyIntoItself`, `CopyPlan.StackNeverEmpties`).
- The admission pool, commented as refusing when tokens and queue are both exhausted, can refuse while a token is free
  (`AdmissionPool.RefusedWithFreeToken`) in every pool with a queue and in no other (`AdmissionPool.RefusesInVainExactly`).
- An early flush stores bytes without telling the record, and a later close over quota deletes them or leaves a record of
  another length (`SmbRecord.RefusedCloseLosesExactly`, `SmbRecord.EarlyFlushIsLost`).
- A write that is refused when it overfills the cache is answered with an error and still stored by the next flush
  (`FileRuns.RefusedWriteIsKept`).
- A file created over SMB has no object until its first flush, and one such file keeps a folder copy or a move of it
  retrying for ever (`CopyPlan.MissingObjectBlocks`, `CopyPlan.EmptyFileBlocksCopy`, `CopyTask.Copier.MoveFile`).
- A failed rebuild of a share is commented as left for the next reconciliation. That tries the new definition again; if the
  definition goes back to the old one, no snapshot or upsert mends the shortened access list
  (`ShareRegistry.ShortListStaysShort`).
- The final delete of a task row ignores the lease (`Lease.OverrunBreaksExclusion`, `Lease.FinishRemovesOthersExactly`).
- A cross-bucket move deletes its source whenever the target name is taken (`MovePlan.MoveKeepsBytesExactly`).

Guards are stated as preconditions and, where they are needed, proved exact or shown necessary by a witness.

## Model

| member | source | states |
|---|---|---|
| `Segments.MergeStepMeaning` | smb_server/go/write_cache.go:228-245 | one round of the merge loop drops a segment lying inside the last one and otherwise lays its bytes over what was merged, leaving a sorted, separated table |
| `Segments.MergeAllOfTable` | smb_server/go/write_cache.go:216-247 | merging a table that is already merged changes nothing |
| `Segments.MergeKeepsTable` | smb_server/go/write_cache.go:216-247 | whatever order the offset sort picks, an applied write leaves sorted, strictly separated segments that cover exactly the old and the new positions and keep every old byte outside the new range |
| `Segments.LaterWriteWins` | smb_server/go/write_cache.go:216-247 | if no cached segment outlasts the new range, the merged table is the old bytes with the new ones over them |
| `Segments.LaterWriteWinsExactly` | smb_server/go/write_cache.go:221-241 | the new bytes win for every content and every tie order exactly when no cached segment outlasts the new range |
| `Segments.OlderByteSurvives` | smb_server/go/write_cache.go:231-241 | where the guard fails, a concrete write and sort order after which an older byte hides a newer one |
| `FlushImage.SafeGap` | smb_server/go/write_cache.go:185-213 | a safe gap is filled with exactly its length of object bytes and zeros behind the truncation point |
| `FlushImage.UnsafeGap` | smb_server/go/write_cache.go:189-211 | an unsafe gap is filled too short or too long, by exactly this much |
| `FlushImage.SafeFlush` | smb_server/go/write_cache.go:128-179 | when all gaps are safe the uploaded object is the file the handle shows, byte for byte and `size` long |
| `FlushImage.FlushExactly` | smb_server/go/write_cache.go:128-213 | without empty cached writes the upload is the file shown exactly when every gap is safe |
| `FileRuns.EmptyWriteHidesUnsafeGaps` | smb_server/go/write_cache.go:128-213 | why empty writes are excluded above: two wrong gaps around one can cancel out |
| `ReadImage.ReadIsRaw` | smb_server/go/file_io.go:43-139 | a read is complete exactly when the object backs every uncached position, and then shows cached bytes over object bytes, pending truncation or not |
| `ReadImage.ReadExactly` | smb_server/go/file_io.go:43-139 | a read returns bytes [offset, end) of the file shown exactly when each uncached position it crosses is inside the object and either not hidden by a pending truncation or zero there anyway |
| `FileRuns.WriteShows` | smb_server/go/file_io.go:145-183 | a write under the merge guard does to the file shown what it does to a byte array, and keeps the handle's invariant |
| `FileRuns.TruncateShows` | smb_server/go/file_io.go:367-390 | a truncation that cuts no cached segment resizes the file shown, new bytes zero |
| `FileRuns.TruncateExactly` | smb_server/go/file_io.go:377-384 | cutting and growing again shows zeros in every case exactly when no nonzero byte is cached at or past the cut |
| `FileRuns.FlushShows` | smb_server/go/file_io.go:186-217 | a safe flush stores the file as shown and shows it unchanged |
| `FileRuns.FlushStepExactly` | smb_server/go/file_io.go:186-217 | a flush with nothing to store does nothing, one that stores leaves nothing to store |
| `FileRuns.RunShows` | smb_server/go/file_io.go:145-217 | over every guarded run of writes, truncations and flushes, early flushes and refusals included, the handle shows the plain byte array |
| `FileRuns.FlushedRunIsPlain` | smb_server/go/write_cache.go:128-213 | open, any guarded run, flush: the stored object is the byte array the same operations make, of length exactly `size` |
| `FileRuns.CacheSizeIsPositions` | smb_server/go/write_cache.go:249-256 | the size of a merged cache is the number of positions it caches |
| `FileRuns.EarlyFlushExactly` | smb_server/go/file_io.go:164-178 | a write that is let through is stored at once exactly when at least four mebibytes of positions are cached after it |
| `FileRuns.RefusedWriteIsKept` | smb_server/go/file_io.go:164-178 | a write refused at the early flush is shown like any other and stored by the next flush |
| `FileRuns.ContainedWriteIsLost` | smb_server/go/write_cache.go:231-233 | a write inside an older segment has no effect |
| `FileRuns.TruncationShowsStaleBytes` | smb_server/go/file_io.go:377-384 | a cached byte shows through after cutting the file and growing it again |
| `FileRuns.UnsafeFlushIsTooLong` | smb_server/go/write_cache.go:189-211 | a truncated object with a hole past the cut uploads six bytes for a four-byte file |
| `SmbHandle.WriteBackCache.MergeLocked` | smb_server/go/write_cache.go:217-247 | the in-place merge computes the specified merge of some ordered permutation |
| `SmbHandle.WriteBackCache.ApplyWrite` | smb_server/go/write_cache.go:69-78 | appends and merges; the new table is the specified one, and the total reported is the number of positions cached before or covered by the write |
| `SmbHandle.WriteBackCache.ReadRange` | smb_server/go/write_cache.go:90-115 | a range is answered exactly when it is fully cached, and then with the table's bytes |
| `SmbHandle.WriteBackCache.CopyFromObject` | smb_server/go/write_cache.go:185-213 | appends exactly the specified gap bytes; it fails exactly when a needed range read fails, with nothing appended |
| `SmbHandle.WriteBackCache.AssembleObject` | smb_server/go/write_cache.go:135-172 | puts the specified bytes together, and needs the old object exactly when some position below the truncation point and the end of file is not cached |
| `SmbHandle.WriteBackCache.FlushToStorage` | smb_server/go/write_cache.go:128-179 | succeeds exactly when nothing is dirty or the upload is let through and the old object is read, missing or not needed; then it has uploaded the specified bytes and cleared table and dirty mark, otherwise it changes nothing |
| `SmbHandle.RemoteHandle.FlushSpec` | smb_server/go/file_ops.go:197-209 | the snapshot a flush works on: logical size, truncation point and segments of one moment |
| `SmbHandle.RemoteHandle.Write` | smb_server/go/file_io.go:145-183 | one write is one step of the run model; exactly when at least four mebibytes of positions are cached after it, it ends as a flush of the file with the write in it: over quota exactly when the quota check says so, done exactly when the bytes can be had and stored |
| `SmbHandle.RemoteHandle.Flush` | smb_server/go/file_io.go:186-217 | one flush is one step of the run model; with something to store it is refused exactly when the quota check says so and done exactly when the bytes can be had and stored; otherwise it changes nothing |
| `SmbHandle.RemoteHandle.Truncate` | smb_server/go/file_io.go:367-390 | one truncation is one step of the run model: the lowest pending cut is kept |
| `SmbHandle.RemoteHandle.Read` | smb_server/go/file_io.go:28-139 | a read computes the specified read of the cached table over the object, cut at the end of file |
| `SmbRecord.ClosedRecordIsLength` | smb_server/go/file_dir.go:122-155 | after any guarded run and a successful close the record has the length of the object, which is the byte array the same operations make |
| `SmbRecord.RecordFollowsExactly` | smb_server/go/file_io.go:164-217 | the record follows exactly the flushes on request that store something; an early flush leaves it behind |
| `SmbRecord.RefusedCloseLosesExactly` | smb_server/go/file_dir.go:129-147 | over any guarded run, a close over quota deletes stored bytes exactly when the record is still at zero and an early flush, with no flush on request since, stored some; otherwise it leaves a record of another length exactly when that flush changed the length |
| `SmbRecord.EarlyFlushIsLost` | smb_server/go/file_io.go:168-178 | one write filling the cache, one more byte, a close over quota: the stored bytes of a new or empty file are gone, any other keeps its old record size beside the new object |
| `SmbRecord.ClosesAgree` | smb_server/go/file_dir.go:122-155 | what closing an open file leaves of record and object is what the books' close leaves of its row and object: refused, not stored or closed |
| `DeletePlan.DirtyByChildren` | server/bucket_task.go:315-389 | something invisible stays below a folder exactly when it stays in it or below one of its visible children: the residue rule |
| `DeletePlan.FinalRows` | server/bucket_task.go:301-393 | a completed task deletes exactly the visible files of reachable folders and exactly the reachable folders with nothing invisible below, marks those unusable, makes a surviving root usable again, and changes no other row or field |
| `DeletePlan.SurvivorsKeepParents` | server/bucket_task.go:364-393 | no interrupted or completed task leaves a live row in a folder it recycled |
| `DeletePlan.ReachNow` | server/bucket_task.go:329-352 | in an interrupted state, whatever is still there is reached the same way as before |
| `DeletePlan.ResumeSameEnd` | server/bucket_task.go:251-260 | restarting an interrupted task whose root is still there leads to the same final rows |
| `DeletePlan.GoneRootIsFinal` | server/bucket_task.go:251-260 | if the root is already recycled nothing is left to do |
| `DeletePlan.PartialAgain` | server/bucket_task.go:264-298 | an interruption after a resumption is an interruption of the original task |
| `DeletePlan.AnyNumberOfAttempts` | server/bucket_task.go:212-400 | however often the task is attempted and wherever it stops, rows stay within the plan and the first attempt that finishes leaves what one uninterrupted run would |
| `DeletePlan.RestrictedSurvives` | server/bucket_task.go:312-352 | over any number of attempts by a plain user no file and, but for the root, no folder whose groups are all other people's is touched |
| `DeletePlan.RestrictedIsKept` | server/bucket_task.go:364-390 | and no folder the task reached above such a file is deleted, wherever it stops |
| `DeletePlan.DeletedByRule` | server/bucket_task.go:312-327 | a completed task of a plain user deletes of a reached folder exactly the open files and those of the user's groups |
| `DeletePlan.OtherRowsUntouched` | server/bucket_task.go:406-430 | over any number of attempts no row of another bucket changes, nor one deleted before |
| `Visibility.ParseVisibleGroups` | server/visibility.go:115-133 | the loop gives each listed group once and never 0 |
| `Visibility.ItemVisibleRule` | server/visibility.go:139-165 | the nested loops compute the rule the delete task and all access checks are specified with |
| `Visibility.CheckItemAccessTree` | server/visibility.go:70-85 | the tree check lets administrators through before it looks at the list |
| `Visibility.VisibleExactly` | server/visibility.go:139-165 | a plain user sees a restricted item exactly if one of its groups is the user's, an administrator exactly if there is a group, an unknown operator never; an unreadable list nobody |
| `Visibility.AccessExactly` | server/visibility.go:70-85 | on the way through a tree an administrator gets everywhere and everyone else where they see |
| `DeleteStack.FinishedIsTop` | server/bucket_task.go:358-392 | the frame without pending children is always the top of the stack, so cutting the top removes the finished frame |
| `DeleteStack.FreshIsTop` | server/bucket_task.go:264-266 | a frame met for the first time is the top of the stack |
| `DeleteStack.DescendShape` | server/bucket_task.go:358-362 | going to the top with children pending reaches a frame not expanded yet |
| `DeleteStack.ExpandShape` | server/bucket_task.go:341-356 | pushing a frame's children keeps the stack discipline: pending counts equal the frames pointing here, parents below, expanded frames on one chain |
| `DeleteStack.PopShape` | server/bucket_task.go:382-392 | popping and telling the parent keeps it too |
| `DeleteProgress.FinishedResidue` | server/bucket_task.go:364-390 | when a frame is finished its residue flag says whether anything invisible stays below its folder |
| `DeleteProgress.ExpandData` | server/bucket_task.go:301-356 | after a frame is expanded everything reachable below finished and expanded folders is finished or waits on the stack |
| `DeleteProgress.PopData` | server/bucket_task.go:364-392 | no folder is finished before every visible child is, and finishing keeps the bookkeeping |
| `DeleteProgress.RootFinished` | server/bucket_task.go:382-393 | when the root frame is popped, exactly the reachable folders were expanded and finished |
| `DeleteProgress.MidBatchIsPartial` | server/bucket_task.go:301-327 | a stop between any two batches leaves rows a later attempt can finish from |
| `DeleteTask.Runner.LoadFilesBatch` | server/bucket_task.go:406-416 | the smallest live file ids past the cursor, at most a batch, in order |
| `DeleteTask.Runner.LoadSubfoldersBatch` | server/bucket_task.go:420-430 | the same for subfolders |
| `DeleteTask.Runner.DeleteBatch` | server/bucket_task.go:313-325 | one batch marks exactly its visible files deleted and reports whether any was invisible |
| `DeleteTask.Runner.ProcessFiles` | server/bucket_task.go:301-327 | all batches of a folder: exactly the visible files up to the cursor are deleted, nothing live lies past it |
| `DeleteTask.Runner.ProcessSubfolders` | server/bucket_task.go:329-352 | all batches of subfolders: exactly the visible ones past the cursor, each once, in order |
| `DeleteTask.Runner.VisitFrame` | server/bucket_task.go:301-356 | one pass over a frame: a first visit expands it, a revisit finds nothing new |
| `DeleteTask.Runner.FinishFrame` | server/bucket_task.go:364-392 | a clean folder is recycled, a dirty one kept, a dirty root restored, and the parent frame told |
| `DeleteTask.Runner.Traverse` | server/bucket_task.go:262-393 | the revisiting loop ends; it stops early only when the process does, leaving a legal interruption, and completed it leaves exactly the final rows; a step for each live file and three for each folder are enough |
| `DeleteTask.Runner.Run` | server/bucket_task.go:212-400 | the whole task: an attempt in the sense above, finished whenever the process lives long enough, with the task row removed exactly on completion |
| `Lease.RunKeepsInv` | server/bucket_task.go:226-249 | in every interleaving a worker that owns the row holds exactly the lease it took, and no lease runs further than five minutes ahead |
| `Lease.NothingOutOfTurn` | server/bucket_task.go:226-276 | an idle instance only acquires, one at work neither acquires nor releases, one on its way out only releases |
| `Lease.DisplacedStaysOut` | server/bucket_task.go:266-276 | a displaced instance never passes another renewal and its release never clears the new owner, whatever the others do |
| `Lease.FiveMinutesToOneself` | server/bucket_task.go:267-276 | for five minutes after an instance takes or renews the lease nobody else owns the row, whatever the others do, unless the instance gives it back |
| `Lease.TakenAfterFiveMinutesExactly` | server/bucket_task.go:229-241 | neither renewed nor given back, the lease can be another's exactly when more than five minutes have gone by since it was taken or renewed |
| `Lease.NoOtherWayIn` | server/bucket_task.go:229-276 | the row changes to an instance's only by taking a free or expired one or by renewing its own |
| `Lease.ReleaseMakesRoom` | server/bucket_task.go:243-250 | an owner that leaves makes room at once for any idle instance |
| `Lease.NoTwoWorkers` | server/copy_task.go:150-174 | if every frame ends within its lease, whoever works owns the row, so no two instances work at once |
| `Lease.TakeoverExactly` | server/bucket_task.go:229-241 | a task is taken from an instance at work exactly when its frame has outlived its lease |
| `Lease.NeverStuck` | server/bucket_task.go:226-249 | one lease after any crash any idle instance can take the task |
| `Lease.OverrunBreaksExclusion` | server/bucket_task.go:395-398 | an overrunning frame leaves two workers, and the final delete of the task row ignores the owner |
| `Lease.FinishRemovesOthersExactly` | server/bucket_task.go:395-398 | the final delete can remove a row another instance holds exactly when the row is still there and the frame has outlived its lease |
| `CopyPlan.SourceUnchanged` | server/copy_task.go:309-370 | while the target lies outside, the source tree the engine lists stays the one it started with |
| `CopyPlan.FolderFound` | server/copy_task.go:269-301 | looking up a subfolder's name under the copy of its parent finds its own copy or nothing |
| `CopyPlan.FileFound` | server/copy_task.go:321-336 | a file's name is taken in the copied folder exactly when the file is copied already, so a conflict is safe to skip |
| `CopyPlan.SourcePathCopied` | server/copy_task.go:196-370 | nothing is lost: every way down the visible source tree is there in a completed copy, with the same names |
| `CopyPlan.TargetPathIsCopy` | server/copy_task.go:196-370 | nothing is added: every way down below the target is the copy of a way down the visible source tree |
| `CopyPlan.FilesAreCopied` | server/copy_task.go:303-355 | a copied folder holds exactly the accessible files of its source, with their rows and bytes |
| `CopyPlan.CopiedFileFields` | server/file_copy_move.go:138-147 | in every state a copied file has name, size, rule and bytes of its source, lies live in the target bucket in the copy of its folder and is the task user's: it is visible to exactly those who may see the source |
| `CopyPlan.CopiedFolderFields` | server/copy_task.go:284-300 | the same for a copied folder, which is usable |
| `CopyPlan.CopiedByRule` | server/copy_task.go:316-323 | of a folder it enters a plain user's copy takes exactly the live files that are open or of the user's groups |
| `CopyPlan.CopiedFoldersByRule` | server/copy_task.go:357-369 | and it enters exactly the live subfolders that are not unusable, by the same rule |
| `CopyPlan.NoDuplicates` | server/copy_task.go:269-336 | through any number of runs names stay unique in every copied folder |
| `CopyPlan.CompleteIsStable` | server/copy_task.go:196-378 | running a completed copy again adds nothing |
| `CopyPlan.NoCopyIntoItself` | server/copy_task.go:196-370 | a copy whose target it enters itself never ends: whatever it has copied, it enters a folder not copied yet |
| `CopyPlan.ImageInsideIsIncomplete` | server/copy_task.go:196-370 | so no state of such a task is complete |
| `CopyPlan.StackNeverEmpties` | server/copy_task.go:196-370 | no sequence of rounds of the copy loop empties its stack when the target is entered, whatever the order of the rounds |
| `CopyPlan.StartImage` | server/copy_task.go:196-200 | a task that has not run has copied nothing: the image the first run starts from |
| `CopyPlan.AnyNumberOfRuns` | server/copy_task.go:138-378 | however often the task runs and wherever each run stops, the store is the old one with ever more of an exact image beside it, all of it once a run has finished and the same from then on |
| `CopyPlan.MissingObjectBlocks` | server/copy_task.go:321-351 | while one file the copy takes has no object, no run of any sequence of runs finishes |
| `CopyPlan.EmptyFileBlocksCopy` | smb_server/go/file_lookup.go:127-140 | one empty file with a row and no object, as SMB creates it, is such a source in a task that is ready |
| `CopyTask.Copier.CopyFileNoRename` | server/file_copy_move.go:45-213 | a taken name is a conflict, otherwise a fresh row with the source's size and rule for the task's user, and its object; it fails only for an answer of the environment or a missing object, and then takes back every step |
| `CopyTask.Copier.FindFolder` | server/file.go:124-136 | the live usable folder of that name, if there is one |
| `CopyTask.Copier.OpenFolder` | server/copy_task.go:256-301 | the prepared top folder, the copy an earlier run created, or a new row; the image of the source grows by this folder or not at all |
| `CopyTask.Copier.CopyFiles` | server/copy_task.go:303-355 | batch by batch every accessible file of the folder has its one copy; it ends undone only for an answer of the environment or a missing object |
| `CopyTask.Copier.Children` | server/copy_task.go:357-369 | exactly the accessible subfolders, each once, in order |
| `CopyTask.Copier.Traverse` | server/copy_task.go:196-370 | the copy loop ends; stopped, always for a reason, the store is the old one plus an exact partial image, completed it holds all of it |
| `CopyTask.Copier.Run` | server/copy_task.go:138-378 | any run, first or resumed, extends the image it finds; with enough checks that say go it completes exactly when no object is missing and is tried again otherwise, and it never completes without two checks for each folder it enters; the task row goes exactly when there is nothing to retry |
| `Verdicts.AnsweredExactly` | server/copy_task.go:205-351 | what an outcome says of the answers: all used are to go on when done, the last one is an abort when abandoned, and otherwise the last is not to go on, they ran out, or an object is missing |
| `MovePlan.MoveKeepsBytesExactly` | server/copy_task.go:93-134 | a completed cross-bucket move keeps the bytes exactly when the target name was free or held by the same bytes |
| `MovePlan.MovedFields` | server/file_copy_move.go:138-147 | a file moved by copying keeps size, rule and bytes and is live in the target under the target name: whoever might see it may see it there, and nobody else |
| `MovePlan.TakenNameLosesFile` | server/copy_task.go:106-124 | another file under the target name makes the task delete the only copy |
| `CopyTask.Copier.MoveFile` | server/copy_task.go:57-134 | wherever the move stops, bytes that could be had can still be had at the source or under the target name unless another file has that name; with seven checks that say go it completes exactly when the source is not a live file without an object and with a free name, which is tried again |
| `FolderForest.CreateKeepsForest` | common/path.go:66-79 | creating a folder below an existing one keeps every parent chain ending at the root |
| `FolderForest.MoveKeepsForestExactly` | server/file_copy_move.go:590-613 | a move keeps the forest exactly when the destination is not the folder or below it |
| `FolderForest.MkdirKeepsTable` | common/path.go:40-84 | mkdir -p only adds rows and keeps the forest and unique names |
| `FolderForest.MkdirThenResolve` | common/path.go:29-122 | after mkdir -p strict resolution of the same path finds the folder it returned |
| `FolderForest.MkdirOfExisting` | common/path.go:40-64 | mkdir -p creates nothing where strict resolution succeeds |
| `FolderForest.MkdirCreatesMissing` | common/path.go:40-84 | a successful mkdir -p creates exactly as many rows as segments were missing |
| `FolderForest.MkdirIsIdempotent` | common/path.go:29-84 | mkdir -p twice is mkdir -p once |
| `FolderForest.MkdirRows` | common/path.go:66-79 | what mkdir -p makes are live, usable, unrestricted folders of the bucket and the user, with valid names from the path |
| `FolderForest.MkdirForbiddenExactly` | common/path.go:53-64 | mkdir -p is forbidden exactly when the path leads through or to a folder being deleted |
| `Rows.NameTakenExactly` | server/file.go:104-117 | a name is taken by any live file or folder there of that name, whatever its case |
| `FolderForest.SpelledResolves` | common/path.go:91-122 | a folder's own names resolve to it exactly when the resolver accepts every one of them |
| `FolderForest.SpellingIsUnique` | server/batch.go:266-279 | a folder of a forest has exactly one sequence of names |
| `FolderTree.PathBackToIdExactly` | server/batch.go:260-282 | strict resolution of a folder's path returns the folder exactly when the path has at most 512 characters and every name on it is valid |
| `FolderTree.IdBackToPath` | common/path.go:91-122 | the names of what a path resolves to are the path's own segments, up to case |
| `FolderTree.SegmentGuardExactly` | common/path.go:30-39 | both resolutions refuse a path for its segments exactly when it is within the length limit and has as many slashes as segments are allowed |
| `FolderTree.NormalPathPassesGuard` | common/path.go:35-39 | no path in normal form, which is what every caller passes, is refused for its segments |
| `FolderTree.FolderTable.ResolveDirPath` | common/path.go:29-84 | the loop is mkdir -p: rows only added, the forest kept, and strict resolution then gives the id returned |
| `FolderTree.FolderTable.ResolveDirPathStrict` | common/path.go:91-122 | the loop resolves and reports each failure as specified |
| `FolderTree.FolderTable.CheckAncestorsUsable` | server/file.go:170-183 | the unguarded climb ends, and passes exactly when every folder up to the root is live, in the bucket and usable |
| `FolderTree.FolderTable.CheckAncestorsAccess` | server/visibility.go:39-66 | passes exactly when every folder up to the root is usable and accessible; the cycle guard never cuts it short |
| `FolderTree.FolderTable.CheckAncestorsWritable` | server/visibility.go:92-110 | passes exactly when no folder up to the root is unusable or being deleted |
| `FolderTree.UpChecksExactly` | server/visibility.go:39-110 | the three checks pass exactly when every folder up to the root is live, in the bucket and not unusable, and may be seen, or is not being deleted |
| `FolderTree.PathOpenExactly` | server/file_copy_move.go:262-280 | a destination is open exactly when every folder up to the root is live, in the bucket, usable and may be seen |
| `FolderTree.FolderTable.FolderIdToPath` | server/batch.go:260-282 | the climb spells the folder's names from the root, and fails exactly when a folder on the way is not live in the bucket |
| `FolderTree.FolderTable.UniqueName` | server/file.go:140-165 | the plain name if it is free, otherwise the first free numbered variant; a conflict exactly when all of them are taken |
| `FolderTree.ChosenExactly` | server/file.go:140-165 | the plain name if nobody has it, otherwise the first of a thousand numbered ones that nobody has |
| `FolderTree.RenamedExactly` | server/file.go:152-155 | the number goes before the last dot and what follows it, or to the end |
| `FolderTree.RenamedDiffer` | server/file.go:154-156 | no two candidates are the same name |
| `FolderTree.FolderTable.CreateDir` | server/file_upload.go:192-278 | succeeds exactly when path, name, ancestors and place allow it; the directory returned is what strict resolution finds, and the forest is kept |
| `FolderTree.FolderTable.ClimbMeets` | server/file_copy_move.go:591-601 | the climb meets the folder exactly when the destination is it or lies below it, and fails exactly when a folder on the way is not there any more |
| `FolderTree.FolderTable.MoveFolder` | server/file_copy_move.go:505-618 | succeeds exactly when folder, path, destination and name allow it and the destination is not inside the folder; then one row changes, and the forest is kept; otherwise it gives the first reason against it |
| `FolderTree.FolderTable.CopyFolderTop` | server/file_copy_move.go:227-306 | accepted exactly when source, path, destination and name allow it, wherever the destination lies, and refused with the first reason against it; the top folder is a fresh row with the source's visibility |
| `Names.SplitJoin` | common/path.go:35-36 | splitting joined slash-free segments gives them back |
| `Names.JoinSplit` | common/path.go:35-36 | joining what was split gives the path back |
| `Names.NormalizeDirPath` | common/validate.go:25-45 | the loop computes the normal form or rejects the path |
| `Names.NormalIsIdempotent` | common/validate.go:18-45 | normal paths are fixed points and outer slashes do not matter |
| `Names.NormalExactly` | common/validate.go:25-45 | a path is rejected exactly for an empty segment, a "." or ".." anywhere, or more than 500 characters |
| `Names.ValidateItemName` | common/validate.go:53-93 | the tests one after the other compute the name rule |
| `Names.ValidNameExactly` | common/validate.go:53-93 | valid are names of 1 to 255 characters without control or forbidden ones, without a dot or space at the end, whose part before the first dot is no device name in any case |
| `Names.SameNameExactly` | server/file.go:104-117 | names are the same ignoring case exactly if they differ in the case of English letters only |
| `TaskSoundness.ForestMakesDeleteSound` | server/bucket_task.go:262-264 | in a forest what the delete task assumes about its root holds |
| `TaskSoundness.DeletesOnlyBelow` | server/bucket_task.go:251-393 | in a forest a delete task, however often attempted, touches no row outside the subtree of its root |
| `TaskSoundness.OpenSubtreeGoes` | server/bucket_task.go:301-393 | and if everything there is live and open, a completed task leaves no folder and no file of it |
| `TaskSoundness.ForestKeepsSourceRootOnTop` | server/copy_task.go:357-369 | in a forest the copy never meets its source root again |
| `TaskSoundness.OutsideIsNeverEntered` | server/file_copy_move.go:225-338 | a target outside the source subtree is never entered |
| `TaskSoundness.AcceptedCopyCreatesTop` | server/file_copy_move.go:288-306 | what an accepted folder copy leaves is a well-formed table with the target on top |
| `TaskSoundness.TargetEnteredExactly` | server/copy_task.go:357-369 | the copy enters its own target exactly when it enters the folder the target lies in and may enter the target |
| `TaskSoundness.NewTaskIsReady` | server/file_copy_move.go:288-326 | a new copy task is ready exactly when its target is not entered; a destination outside the source is enough |
| `TaskSoundness.CopyIntoItselfIsAccepted` | server/file_copy_move.go:227-338 | copying folder "a" into "a" is accepted, and the copy enters its target |
| `TaskSoundness.DeleteTaskConserves` | server/bucket_task.go:484-501 | a delete task, interrupted or complete, leaves right counters right |
| `Accounts.AddConserves` | server/file_upload.go:158-175 | adding a row and charging its bucket keeps every bucket counter the total of its rows |
| `Accounts.AddKeepsUsers` | server/quota.go:76-82 | adding a row and charging its owner keeps every user counter the total of the user's rows |
| `Accounts.EditConserves` | server/file_delete.go:58-71 | recycling, restoring, moving and renaming leave counters right or wrong as they were |
| `Accounts.PurgeConserves` | server/recycle_bin.go:224-237 | purging rows and returning their bytes keeps bucket counters right, and the zero clamp never acts |
| `Accounts.PurgeKeepsUsers` | server/recycle_bin.go:318-324 | returns grouped by owner keep user counters right |
| `Accounts.SyncConserves` | smb_server/go/file_io.go:247-271 | the write-back's size difference keeps bucket counters right |
| `Accounts.SyncKeepsUsersExactly` | smb_server/go/file_io.go:241-264 | user counters stay right through a write-back exactly when the size is unchanged or the actor owns the file; they never go negative |
| `Accounts.BucketStaysWithinQuota` | server/quota.go:24-42 | whatever changes are asked for, a bucket within its quota stays within it, and what is refused would have crossed it |
| `Accounts.UserOvershootsByOneFile` | server/quota.go:54-72 | over any requests a user within the soft limit ends at most one file above it; a limit of zero, or one already crossed, lets nothing in |
| `Accounts.NoBucketQuotaTakesAll` | server/quota.go:36-38 | a bucket with quota zero takes everything |
| `Accounts.NoUserQuotaTakesAll` | server/quota.go:61-63 | a user without a quota takes everything |
| `Accounts.WithinLimitTakesNext` | server/quota.go:64-72 | a user is let in exactly if the limit is not zero and not crossed, whatever the size of the file |
| `Accounts.RefundsExactly` | server/recycle_bin.go:224-237 | a counter falls by exactly what is returned, not below zero, and no other moves |
| `Books.Ledger.Upload` | server/file_upload.go:101-183 | exactly when both quotas allow it and no step fails, row, object and counters; otherwise nothing at all; counters stay right |
| `Books.Ledger.CopyFile` | server/file_copy_move.go:45-213 | the same for a copy of a live file with an object, owned by the copying user and as visible as the source |
| `Books.Ledger.DeleteFile` | server/file_delete.go:39-77 | only a live file of the bucket is recycled; counters keep their bytes |
| `Books.Ledger.RestoreFile` | server/recycle_bin.go:85-136 | back to the old folder if that is live, else to the root; counters unchanged |
| `Books.Ledger.PurgeFile` | server/recycle_bin.go:209-241 | row and object go, bucket and owner get exactly the file's bytes back, clamped at zero |
| `Books.Ledger.PurgeSubtree` | server/recycle_bin.go:247-328 | exactly the rows, files and objects of the subtree go, their bytes return to bucket and owners, and the rest stays a forest |
| `Books.RefundedExactly` | server/recycle_bin.go:301-324 | after a purge the bucket's counter has fallen by the bytes of the purged rows and each user's by the bytes of the user's own, none below zero, no other |
| `Books.Ledger.SyncFileMeta` | smb_server/go/file_io.go:247-271 | record, bucket and acting user follow the handle's size; a recycled record is left alone |
| `Books.Ledger.CheckWriteQuota` | smb_server/go/file_io.go:226-239 | passes exactly when the record is live and does not grow, or both quotas let it grow |
| `Books.Ledger.Close` | smb_server/go/file_dir.go:114-155 | refused exactly when dirty and over quota: then no size or counter changes and the record goes exactly when it is live and empty; a failed store changes nothing; otherwise the write-back is accounted |
| `ShareRegistry.RunMirrors` | smb_server/rust/src/registry.rs:141-366 | in every run without library errors the protocol access list of each share is the ledger's |
| `ShareRegistry.KickedExactly` | smb_server/rust/src/registry.rs:154-268 | exactly a changed upsert, a delete, or a snapshot that changes or drops a registered share closes its connections |
| `ShareRegistry.UnchangedIsNeverKicked` | smb_server/rust/src/registry.rs:154-181 | over any run in which no message changes or drops a share its connections are never closed, whatever grants, quotas and snapshots come |
| `ShareRegistry.GrantedStaysIn` | smb_server/rust/src/registry.rs:183-240 | whoever has access keeps it, at the same level, through any rebuilds until it is taken away or granted anew |
| `ShareRegistry.RevokedStaysOut` | smb_server/rust/src/registry.rs:306-326 | whoever has no access gets none back from any rebuild, only from a grant or a listing |
| `ShareRegistry.UpsertMeans` | smb_server/rust/src/registry.rs:154-249 | an upsert registers the message's own fields and closes the share's connections exactly if bucket, name, mode or status differ |
| `ShareRegistry.LastEntryCounts` | smb_server/rust/src/registry.rs:410-416 | "readonly" gives read access, any other word full access, and of several entries for a user the last one counts |
| `ShareRegistry.LevelIsLastGiven` | smb_server/rust/src/registry.rs:141-326 | in every run a user has a level on a share exactly if some rebuild, snapshot or grant gave it and nothing since gave another or took it |
| `ShareRegistry.SnapshotLeavesEnabled` | smb_server/rust/src/registry.rs:336-366 | a snapshot leaves exactly its enabled shares registered |
| `ShareRegistry.Registry.Upsert` | smb_server/rust/src/registry.rs:141-249 | fast path or rebuild as specified; after a rebuild everyone listed has the level of their last entry; it fails exactly when the share is blank or a user to grant is unknown to the library, and then registry and ledger are untouched while the protocol list is short |
| `ShareRegistry.Registry.Delete` | smb_server/rust/src/registry.rs:254-268 | share, instance and ledger entry go together |
| `ShareRegistry.Registry.GrantUser` | smb_server/rust/src/registry.rs:277-300 | written to the protocol and the ledger at exactly the granted level, or to neither |
| `ShareRegistry.Registry.RevokeUser` | smb_server/rust/src/registry.rs:306-326 | removed from both; an empty ledger entry goes too |
| `ShareRegistry.Registry.ApplySnapshot` | smb_server/rust/src/registry.rs:336-366 | nothing but enabled shares stays registered, and every share whose users the library knows ends up as the snapshot says, whichever other shares fail |
| `ShareRegistry.ShortListStaysShort` | smb_server/rust/src/registry.rs:154-181 | after a failed rebuild no run of messages with the old definition, snapshots and listings included, gives a user the rebuild dropped the access back, short of a grant to that user |
| `ShareRegistry.Registry.Resolve` | smb_server/rust/src/registry.rs:123-131 | only an enabled instance answers |
| `Paging.PageAtCursor` | server/file_list.go:293-360 | following cursors goes through the pages in turn, and from the last, whose cursor is empty, back to the first |
| `Paging.CursorsListAll` | server/file_list.go:293-360 | following the cursors from the first page lists every id once, in order, in pages of at most the page size |
| `Paging.PagesExactly` | server/file_list.go:293-360 | there are as many pages as full ones and a rest need, one for an empty table |
| `Paging.CursorRoundTrip` | common/page.go:273-285 | a cursor survives the trip to the client, and no id's cursor is empty |
| `Enumerator.Download.ListDirectory` | frontend/src/composables/useFolderDownload.ts:211-244 | one directory takes exactly the least common multiple of its page counts in requests; all its files are listed and all its new subfolders pushed |
| `Enumerator.Download.Enumerate` | frontend/src/composables/useFolderDownload.ts:204-248 | exactly the files of directories within the depth limit are added, whatever was listed before, and none twice |
| `Enumerator.WantedExactly` | frontend/src/composables/useFolderDownload.ts:204-248 | what is added are the files of the directories at the end of a way down of at most `maxDepth` steps |
| `RateLimit.TokenBucket.Allow` | server/ratelimit.go:50-67 | refill, cap, take one or refuse; no limit without a rate |
| `RateLimit.WindowBound` | server/ratelimit.go:50-67 | tokens stay in range, and admissions plus tokens left are at most burst plus rate times the window |
| `RateLimit.AnyWindow` | server/ratelimit.go:42-67 | the bound for any stretch of any run |
| `RateLimit.NothingIsLost` | server/ratelimit.go:50-67 | as long as no refill overflows, admissions and tokens left are exactly tokens at the start plus rate times time |
| `RateLimit.PatientIsAdmitted` | server/ratelimit.go:42-67 | with one token's time between any two calls every call is admitted |
| `RateLimit.BurstIsAdmitted` | server/ratelimit.go:42-67 | a full bucket admits its whole burst at once, so the bound is met |
| `RateLimit.RecordRing.Record` | server/ratelimit.go:190-200 | the ring holds the last records, each in its slot |
| `RateLimit.RecordRing.Records` | server/ratelimit.go:202-212 | the snapshot is the buffer read backwards |
| `RateLimit.NewestFirstExactly` | server/ratelimit.go:202-212 | the snapshot is newest-first exactly while the ring is not full or has gone round a whole number of times |
| `AdmissionPool.RunKeepsInv` | core/request_pool.go:46-106 | in every interleaving semaphore occupancy is tokens held and granted minus released, queue occupancy is requests in the queue, neither over capacity |
| `AdmissionPool.GivingBackNeverWaits` | core/request_pool.go:72-106 | leaving the queue and releasing a token never block |
| `AdmissionPool.NothingLeaks` | core/request_pool.go:46-106 | once every request is done no token and no slot is left behind |
| `AdmissionPool.SomeoneCanMove` | core/request_pool.go:54-101 | while a request waits, some request can move on or release: no deadlock |
| `AdmissionPool.FreeTokenIsTaken` | core/request_pool.go:46-73 | a call finds a free token at once, and a waiting request gets one as soon as it is free |
| `AdmissionPool.ReleasedTokenIsFree` | core/request_pool.go:103-106 | a release gives its token back and the next call finds it |
| `AdmissionPool.WaitingCanBeCancelled` | core/request_pool.go:61-100 | wherever a request waits the end of its context takes it out without a token and gives its queue place back |
| `AdmissionPool.RefusedFoundPoolBusy` | core/request_pool.go:46-90 | a refused request found, in reject mode, all tokens out when it called and, if there is a queue, the queue full later, when it tried to enter |
| `AdmissionPool.RefusesInVainExactly` | core/request_pool.go:46-90 | some run refuses a request while a token is free exactly if the pool rejects and has a queue and a token, however many of either |
| `AdmissionPool.RefusedWithFreeToken` | core/request_pool.go:54-90 | such a run in the smallest pool, one token and one place |
| `Frames.MarshalFrameHeader` | smb_server/go/protocol.go:141-150 | the sixteen bytes, written field by field into the buffer |
| `Frames.FrameLayout` | smb_server/go/protocol.go:141-189 | a frame is OCST, version 1, flags, type, sequence number and length, most significant byte first, and then the body |
| `Frames.HeaderReadExactly` | smb_server/go/protocol.go:156-178 | a header is read exactly from its own bytes, and only an acceptable one |
| `Frames.FrameRoundTripExactly` | smb_server/go/protocol.go:183-189 | a frame comes back from a stream, with what follows, exactly when its body is within the limit |
| `Frames.StreamRoundTrip` | smb_server/go/transport.go:34-55 | any frames within the limit, concatenated, are read back in order with nothing left |
| `Frames.ReadIsMarshal` | smb_server/go/transport.go:34-55 | what was read is, byte for byte, what the stream begins with |
| `Frames.Connection.ReadOne` | smb_server/go/transport.go:34-55 | reading from a connection takes exactly one frame off it or reports why not |
| `Frames.OperateBodyRoundTripExactly` | smb_server/go/protocol.go:226-250 | JSON and stream part come back, for every stream, exactly when the JSON length fits its prefix |
| `Frames.OperateBodyLayout` | smb_server/go/protocol.go:226-235 | the prefix is the JSON length, most significant byte first |
| `Frames.SplitIsMarshal` | smb_server/go/protocol.go:241-250 | a body that splits is the body of its parts |

## Left out

- Segments.LaterWriteWins: holds under the merge guard only; `Segments.LaterWriteWinsExactly` shows that the code promises no more.
- FileRuns.FlushedRunIsPlain: for guarded runs; outside the guards the code differs from a byte array, as the witnesses show.
- FlushImage.FlushExactly: without zero-length cached writes, for the reason `FileRuns.EmptyWriteHidesUnsafeGaps` gives.
- Lease.NoTwoWorkers: per instance and with one clock; two goroutines of one process share an instance id in the code.
- CopyTask.Copier.Run: the target path is resolved again at every start in the code; here its result is a parameter and no other writer changes the target tree.
- CopyTask.Copier.MoveFile: that nothing is lost is said for a target name nobody else holds; `MovePlan.MoveKeepsBytesExactly` shows that the code promises no more.
- DeletePlan.RestrictedSurvives: not for the task's root, whose own group list the task does not look at; the request that makes the task is not modelled.
- CopyPlan.StackNeverEmpties: the rounds reuse or make exact copies; a folder of the same name made by someone else in between is not covered.
- ShareRegistry.ShortListStaysShort: for messages that the protocol library carries out; one it fails changes the list of no other share.
- Books.Ledger.Close: the two counter updates and the record update succeed or fail together; the code logs a failed one and goes on.
- ShareRegistry.RunMirrors: for runs in which the protocol library reports no error; `ShareRegistry.Registry.Upsert` says what an error leaves.
- Enumerator.Download.Enumerate: a directory is named by its id, not its path, and a walk cancelled half-way is covered as an earlier partial listing, not as a step.
- RateLimit.WindowBound: reals instead of floating point, a clock that does not go back.
- FolderTree.FolderTable.MoveFolder: trimming blanks around the new name, and the disabled-bucket check.
- FolderTree.FolderTable.FolderIdToPath: the access check before the climb is `FolderTree.FolderTable.CheckAncestorsAccess`, not repeated here.
- Names.NormalizeDirPath: lower-casing of names, used by all look-ups, covers ASCII letters only; lengths count characters.
- Crashes inside one file copy or upload: each is one step that succeeds, or fails and takes everything back.
- SmbRecord.ClosedRecordIsLength: the record stays live while the file is open, and the handle was opened for writing or has been written to.
- Lease loss, disabled operators, crashes and storage failures during a delete task are one notion: the process lives for a number of steps and may stop before any write. For the copy tasks they are a list of answers.
- File offsets and sizes are unbounded integers, not 64-bit ones.
- Storage errors on range reads other than a short read at the end of the object leave the cache unchanged; out-of-range errors are short reads.
- The mutex of a handle and concurrency inside one process; check-then-write races on quotas.
- Deleting a whole bucket, share links, share download counts, object keys and bucket name encoding, sampling checksums.
- Page queries with totals, list filters in SQL, byte ranges of HTTP downloads, setting visibility groups: only easy members.
- `CleanExpiredRecycleBin`: a keyset loop over `Books.Ledger.PurgeFile` and `Books.Ledger.PurgeSubtree`.
- HTTP handlers, authentication, JSON, the handshake, SQL, logging, the user interface and the worker pool of downloads.
