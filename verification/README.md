# A verified model of the jiva block volume

Jiva is a replicated block volume.  A controller sends every write to all its
replicas; each replica keeps the volume as a chain of sparse files (a base,
snapshots, a head) and a cache that says for each sector which file holds it.
This project models that design in Dafny and proves what the pieces promise one
another.  `dafny verify dfyconfig.toml` checks all of it.

The modules, from the disk outwards:

- `Layers`, `Volume`: the chain as a sequence of partial maps from sectors to
  blocks, its views, the queue of holes that are punched later, and the main
  refinement: every run of writes, snapshots and hole executions shows what a
  plain array with saved copies shows.
- `DiffDiskModel`: the differencing disk as a class, byte by byte: any offset,
  any length, the lazily filled location cache, reads batched by file.
- `Extents`, `LunMap`: enumerating the allocated sectors of a file, `preload`,
  and the rebuilding of the location cache without the lock while writes and
  hole executions go on.
- `Coalesce`, `Cleaner`: folding a snapshot into its parent, removing it, and
  which snapshots the background cleaner may choose.
- `ReplicaDir`, `ReplicaChain`: the replica's directory with a crash possible
  after every file operation, and the chain as the replica keeps it in memory.
- `Replicas`, `ControllerModel`, `Registration`, `RebuildModel`, `Promotion`:
  replica modes, reader and writer tables, majority writes, the read-only flag,
  registration and the election of the first replica, the rebuilding of a
  replica, and its promotion.
- `Rpc`, `WireModel`, `RevisionCounter`, `Ports`: matching of responses,
  framing of messages, the revision counter file, the ports of the sync agent.

## How to read the model

A file is the map of its allocated sectors.  A hole names the file by its place
in the chain.  What the model cannot see is a parameter or a free choice: which
writers fail, what a failed replica is left with, whether a file operation
fails, when a hole is executed, what happens between two probes of a scan.
Each method of the controller that runs under its lock is one step.

Where the code does not meet what one would expect of it, the code is modelled
as it is, the exact condition is proved, and an input shows that it is needed:

- In a full write, the flush of a run in the middle of the loop names the file
  of the next sector, not the file of the run (`replica/diff_disk.go:217`), so
  the test against the latest user snapshot is made for another file than the
  one that is punched.  `Volume.SnapshotsSurviveIff` says for which cache the
  user snapshots survive a write; `Volume.MidFlushLosesSnapshot` is a run that
  loses one.
- A fold while a hole is still queued for the parent can lose live data or the
  data of a user snapshot: `Coalesce.QueuedHolesIff`, and the runs of
  `Coalesce.QueuedHoleLosesData` and `Coalesce.QueuedHoleLosesSnapshot`.  The
  code drains the queue only after the fold (`replica/replica.go:429`).
- A failing snapshot can leave a volume that cannot be opened, because its
  clean-up removes a snapshot of the chain or the head just recorded:
  `ReplicaDir.FailedSnapshotIff`, `ReplicaDir.LateFailureLosesVolume`.
- The children map keeps the entry of a deleted disk:
  `ReplicaChain.CreateInverseIff`, and `ReplicaChain.UseNameAgain` for what
  happens when the name is used again.
- The election goes to the registering replica, not to the greatest counter:
  `Registration.StartedIsMaxIff` for every run of registrations, and
  `Registration.ElectionCanMiss` for one that starts the wrong replica.
- A write quorum and a start quorum meet only for some replication factors:
  `Registration.QuorumsMeetIff`, whose proof gives the quorums that do not.
- A write of part of a sector can leave a rebuilt replica different from its
  source: `RebuildModel.RebuiltEqualsSourceIff`, and
  `RebuildModel.PartialWriteDiverges` for a run that ends so.
  `Promotion.ReadyIff` is what this means for the controller.
- A request number is reused after 2^32 requests: `Rpc.RequestConsistentIff`,
  and `Rpc.NumberUsedTwice` for a connection on which a request is lost.
- Data of 2^32 bytes or more does not survive the wire: `WireModel.RoundTripIff`,
  for every such message.
- A controller write may return no error although it was taken by too few
  writers; the count is then 0 (`controller/control.go:1059-1062`), as in
  `ControllerModel.MinorityWrite`.  A write counts as acknowledged when the
  count is the length of the buffer.
- The comparison of chains before a promotion can run past the end of an array:
  `ControllerModel.CompareIff` says when, and `ControllerModel.CompareRunsOut`
  gives two such chains.
- `createDisk` marks the new head as user-created, one place above the snapshot
  itself (`replica/replica.go:1027-1031`), so a removal can take another file
  for the latest user snapshot: `Coalesce.LatestAfterRemoveIff`, and
  `DiffDiskModel.MarkMisplaced` for a run that ends so.  `Coalesce.MarksCover`
  is what the marks are good for all the same.

## Model

| member | source | states |
|---|---|---|
| Layers.PunchKeepsView | replica/backup.go:235-266 | Executing a hole whose sectors a view does not read from that file leaves the view as it is. |
| Layers.PunchKeepsSafe | replica/backup.go:235-266 | Executing one safe hole leaves every other safe hole safe. |
| Layers.PunchAllKeepsViews | replica/backup.go:235-266 | Executing a whole safe queue changes no view that has to survive. |
| Volume.WalkStaysWithin | replica/diff_disk.go:201-239 | All runs and holes of a write lie in the sectors written and in files below the head; none is sent when punching is off. |
| Volume.WriteSendsIff | replica/diff_disk.go:201-239 | Exactly which copies of which sectors a write sends to the hole queue: the blocks of overwritten sectors above the latest user snapshot, each under the file of the overwritten sector that ends it, the last one under its own. |
| Volume.ProtectsSnapshotsIff | replica/diff_disk.go:201-239 | Where the holes of a write lie: all above the latest user snapshot if and only if no two successive overwritten sectors go from a file above it to one at or below it. |
| Volume.RespectsIff | replica/diff_disk.go:201-239 | The same condition on the cache decides, before the write, whether any hole it is going to send covers a sector that a snapshot reads from the hole's file. |
| Volume.NewHoleSafeIff | replica/diff_disk.go:201-239 | A hole that a write sends is harmless to all protected views if and only if no snapshot reads its sectors from its file; the live view is never at risk. |
| Volume.SnapshotsSurviveIff | replica/diff_disk.go:201-239 | Once all holes of a write have been executed, every protected snapshot still reads each sector from the same file if and only if, wherever the cache steps down from above the latest user snapshot to it or below, no snapshot reads from the lower file what is in the block of overwritten sectors before. |
| Volume.SeparatedRespects | replica/diff_disk.go:201-239 | A write without such a step down spares all snapshots. |
| Volume.MidFlushLosesSnapshot | replica/diff_disk.go:213-218 | A run from a new volume, and a write of two sectors after it whose queued hole changes a user snapshot. |
| Volume.FullWriteTop | replica/diff_disk.go:183-241 | After a full write, which file each sector is read from, and what is read, in every view. |
| Volume.FullWriteKeeps | replica/diff_disk.go:183-241 | A full write puts its blocks into the live view and nowhere else, and, if its holes spare the snapshots, keeps every snapshot, the cache and the hole queue sound. |
| Volume.AddHeadKeeps | replica/replica.go:1025-1032 | A snapshot keeps the live view and all snapshot views, and its own view is protected from then on if it is user-created. |
| Volume.PunchNextKeeps | replica/backup.go:235-266 | The hole creator may execute the next hole at any time: invariant and protected views stay. |
| Volume.StepRefines | replica/diff_disk.go:183-241 | One write whose holes spare the snapshots, snapshot, cache fill or hole execution does to the volume what the ideal step does to an array with saved copies. |
| Volume.RunRefines | replica/diff_disk.go:102-382 | Every run of such writes, snapshots, cache fills and hole executions, however interleaved, shows what the ideal disk shows, live and in all saved snapshots. |
| Volume.FreshRunRefines | replica/diff_disk.go:37-60 | In particular every such run of a new volume. |
| DiffDiskModel.DiffDisk.constructor | replica/diff_disk.go:37-60 | A new volume is the one the runs start from, reads as zero, and counts no blocks. |
| DiffDiskModel.DiffDisk.Lookup | replica/diff_disk.go:349-382 | The file found is the topmost one with the sector, or the base; only the cache entry of that sector changes; without an I/O error it succeeds. |
| DiffDiskModel.DiffDisk.Read | replica/diff_disk.go:342-347 | Reads whole sectors of one file into the named part of the buffer and touches nothing else; without an I/O error it succeeds within the volume. |
| DiffDiskModel.RunReadsLive | replica/diff_disk.go:300-335 | A run of sectors with one target read from that file is what the overlay shows sector by sector. |
| DiffDiskModel.DiffDisk.FullReadAt | replica/diff_disk.go:281-340 | A batched read of whole sectors returns the live bytes, touches no other part of the buffer, and refuses unaligned ranges. |
| DiffDiskModel.DiffDisk.ReadAt | replica/diff_disk.go:243-279 | A successful read of any range returns exactly that slice of the volume; without an I/O error every range within the volume is read. |
| DiffDiskModel.DiffDisk.WriteHead | replica/diff_disk.go:194-198 | A write to the head file stores the blocks; a failed one stores at most within its sectors. |
| DiffDiskModel.DiffDisk.MarkAndSend | replica/diff_disk.go:200-239 | The loop over the written sectors marks them as living in the head, queues exactly the holes of the specification, and keeps the two block counters: one logical block for each sector without a location, one block for each sector not in the head, less the sectors of the holes sent. |
| DiffDiskModel.UnknownIsCount | replica/diff_disk.go:203-205 | The first of the two counts that a write adds to the block counters is the number of written sectors without a location ... |
| DiffDiskModel.NotInIsCount | replica/diff_disk.go:203-231 | ... and the second the number of those not in the head. |
| DiffDiskModel.FullWriteBytes | replica/diff_disk.go:183-241 | A full write splices its buffer into the flat volume. |
| DiffDiskModel.DiffDisk.FullWriteAt | replica/diff_disk.go:183-241 | Unaligned writes change nothing; aligned ones splice the buffer in; the block counters after it; even a failed one changes nothing below the head and no sector outside its range, leaves the cache right outside it, and queues holes only inside it. |
| DiffDiskModel.PatchedBytes | replica/diff_disk.go:135-153 | Writing back a patched sector is writing only the bytes of the patch. |
| DiffDiskModel.DiffDisk.ReadModifyWrite | replica/diff_disk.go:135-153 | A write of part of a sector splices in exactly its bytes and reports the size of a sector. |
| DiffDiskModel.DiffDisk.WriteAt | replica/diff_disk.go:102-133 | A successful write at any offset and length splices exactly its bytes into the volume; the count it reports; what a failed one can have touched of data, cache and hole queue. |
| DiffDiskModel.DiffDisk.Snapshot | replica/replica.go:1025-1032 | The head is frozen under an empty one, no byte changes, and the index of the latest user snapshot is moved. |
| DiffDiskModel.DiffDisk.ShiftLocations | replica/diff_disk.go:82-89 | The loop over the cache lowers exactly the entries at or above the removed index. |
| DiffDiskModel.DiffDisk.FindSnapIndx | replica/diff_disk.go:91-97 | The loop finds the last marked entry, and keeps the old index when there is none. |
| DiffDiskModel.DiffDisk.RemoveIndex | replica/diff_disk.go:77-100 | Any file of the chain: it and its mark are taken out, the cache is shifted and the index of the latest user snapshot recomputed; if the file had been folded, no byte changes, every view above moves down by one, the views below stay, and the cache is coherent. |
| DiffDiskModel.DiffDisk.DrainHoles | replica/backup.go:224-232 | Throwing away the queue changes no byte. |
| DiffDiskModel.DiffDisk.RemoveFolded | replica/replica.go:426-435 | Deleting a folded disk with any queue: it is drained, no byte changes, the other views stay. |
| DiffDiskModel.DiffDisk.ExecuteHole | replica/backup.go:235-266 | Executing the oldest hole changes no byte of the volume. |
| DiffDiskModel.MarkMisplaced | replica/replica.go:1027-1031 | A run of snapshots and one removal after which the index is not that of the user snapshot. |
| DiffDiskModel.RunDisk | replica/diff_disk.go:102-382 | Over every run of reads and writes of any range, snapshots, hole executions and deletions of disks, the disk returns what a plain array of bytes returns. |
| LunMap.RelyTransitive | replica/server.go:423-514 | What concurrent writes and hole executions may do in two stretches they may do in one. |
| LunMap.WriteOneRely | replica/diff_disk.go:183-241 | A write during the scan moves a sector only to the head and disturbs no protected snapshot. |
| LunMap.PunchRely | replica/backup.go:235-266 | A hole executed during the scan keeps every protected view. |
| LunMap.WriteOneCells | replica/diff_disk.go:183-241 | What a write during the scan does to each copy of each sector: the head only grows, and the only copy sent to the hole queue is the one that was read until then. |
| LunMap.RelyKeepsScan | replica/backup.go:288-351 | What the scan knows stays true under any concurrent activity. |
| LunMap.RelyKeepsAnswers | replica/extents.go:62-79 | An answer of the file system stays usable however old it gets: what it found still shadows the files below, and what it did not find the live cache knows. |
| LunMap.FoundShadows | replica/backup.go:306-334 | A sector found in a later file shadows the earlier copy in every view that has to survive, provided that copy is above the latest user snapshot. |
| LunMap.ProbeKeepsScan | replica/backup.go:306-334 | One sector found, now or in an old answer, keeps the scan's invariant, and the holes it sends are safe. |
| LunMap.EndFileKeepsScan | replica/backup.go:335-342 | The flush at the end of a file keeps the invariant and starts the next file. |
| LunMap.ScanSectorAccounted | replica/backup.go:298-348 | Per sector, the two counters stay the number of located sectors and the number of copies not sent to the hole queue. |
| LunMap.KeptAfterAll | replica/backup.go:298-348 | The copies counted as used are those still allocated once all emitted holes have been executed. |
| LunMap.Server.constructor | replica/replica.go:1122-1139 | A reloaded replica, with any files and marks, is where the scan can start, and its blocks can be counted exactly if its head is not marked. |
| LunMap.RelyKeepsTracks | replica/backup.go:298-348 | Under any concurrent activity the copies counted so far, below the head, stay those that no queued hole covers, or that are going to be sent. |
| LunMap.FoundTracks | replica/backup.go:306-334 | So they do when a sector is found, with the run that this sends. |
| LunMap.Server.ScanFile | replica/backup.go:300-348 | Scanning one file, with the file system asked at any time and anything going on between two sectors. |
| LunMap.Server.Preload | replica/backup.go:288-351 | The scanned map names the topmost file of every sector, except where the live cache knows of a later write; on an idle volume the counters are exact, on a busy one the copies counted are those that will be left or are going to be sent; protected views stay. |
| LunMap.MergeKeeps | replica/server.go:469-504 | Merging one sector takes the maximum of both maps and sends only safe holes. |
| LunMap.PunchKeepsMerge | replica/server.go:469-504 | Holes may be executed during the merge. |
| LunMap.MergeCounts | replica/server.go:469-510 | The two corrections of the merge count the sectors only the live cache knows, and the sectors written since the scan less those sent to the hole queue. |
| LunMap.MergeSendsIff | replica/server.go:469-504 | The merge sends exactly the scanned copies above the latest user snapshot of sectors written since. |
| LunMap.CountAfterMerge | replica/server.go:469-510 | The copies counted after the merge are those left once the whole queue has been executed. |
| LunMap.Server.MergeMap | replica/server.go:444-513 | The merged map is coherent and names the topmost file of every sector; all queued holes are safe; the logical block count is exact, and so is the used-block count if the scan's was. |
| LunMap.Server.UpdateLunMap | replica/server.go:423-514 | For every interleaving, the rebuilt cache names the topmost file of every sector, 0 for none; no protected view has changed except by writes to the head, and no queued hole will change one; the used-block count is, with the metadata files, the number of blocks left once the queue has been executed, if it started with no other holes than those of writes since the reload. |
| Extents.EnumerateExact | replica/extents.go:50-84 | Every allocated sector is enumerated exactly once, in ascending order. |
| Extents.FiemapContinues | replica/extents.go:58-82 | The next batch of at most 1024 extents starts exactly where the last one ended. |
| Extents.FindExtents | replica/extents.go:50-84 | The batched scan terminates and emits the enumeration of the file, or a prefix of it if a query fails. |
| Coalesce.PartialFoldKeepsViews | replica/replica.go:587-632 | A fold stopped at any point keeps every view but that of the file folded into. |
| Coalesce.FoldRemoveKeepsViews | replica/diff_disk.go:77-100 | Folding a file down and removing it keeps every view but that of the file folded into, and says where each sector is then found. |
| Coalesce.ShiftedCacheCoherent | replica/diff_disk.go:82-89 | The shifted cache is coherent with the shorter chain. |
| Coalesce.SnapshotKeepsCover | replica/replica.go:1026-1031 | After a snapshot, every user snapshot is at or below the index that protects it and marked in place or one above. |
| Coalesce.RemoveKeepsCover | replica/diff_disk.go:91-97 | Removing a file keeps that, with the recomputed index. |
| Coalesce.LatestAfterRemoveIff | replica/diff_disk.go:91-97 | The recomputed index is that of the latest user snapshot if and only if no mark stands above that snapshot, other than on the removed file. |
| Coalesce.QueuedHolesIff | replica/replica.go:411-436 | With holes queued during a fold, all harmless before it, every sector of the live view and of every user snapshot is still read from its file if and only if none of them hits, in the parent, a sector that one of these views reads from the folded file. |
| Coalesce.QueuedHoleLosesData | replica/replica.go:411-436 | A run from a new volume after which folding with a queued hole loses a live block. |
| Coalesce.QueuedHoleLosesSnapshot | replica/replica.go:411-436 | A run from a new volume after which the same fold keeps the live view and loses the block of a user snapshot. |
| Cleaner.StableSortSorts | sync/sync.go:800-802 | The candidates are in order of size. |
| Cleaner.SortIsStable | sync/sync.go:800-802 | Candidates of equal size keep their order. |
| Cleaner.SortNamed | sync/sync.go:800-810 | Dropping unused entries after sorting gives what sorting only the used ones gives. |
| Cleaner.CandidatesExact | sync/sync.go:781-798 | A snapshot is a candidate if and only if it is above the base, below the checkpoint, and neither it nor its parent is a kept user snapshot. |
| Cleaner.DeletableIff | sync/sync.go:784-791 | In terms of the records: neither the disk nor its parent is user-created without being marked as removed, and what has no record is neither. |
| Cleaner.AllSizedIff | sync/sync.go:792-796 | A size is missing if and only if a candidate has no record or one without a number. |
| Cleaner.FindCheckpoint | sync/sync.go:770-776 | Finds the first place of the checkpoint, or reports that there is none. |
| Cleaner.GetDeleteCandidateChain | sync/sync.go:748-812 | The list is the sorted candidates below the checkpoint, or an error if one of them has no readable size; it is empty for short chains, without a checkpoint, or when the checkpoint is not in the chain. |
| Cleaner.CandidateIsHarmless | sync/sync.go:748-812 | Folding any listed snapshot into its parent and removing it keeps the live view, the checkpoint's view and the view of every kept user snapshot. |
| ReplicaDir.WalkFindsChain | replica/replica.go:696-720 | Following parents from the head of a linked chain finds the chain. |
| ReplicaDir.HoldsRecovers | replica/replica.go:1108-1141 | Opening a directory that holds a chain finds that chain, whatever stale files lie around. |
| ReplicaDir.ElsewhereHolds | replica/replica.go:890-904 | File operations that concern no disk of the chain change nothing one sees on opening. |
| ReplicaDir.PrepareEffect | replica/replica.go:964-1022 | What the directory contains once new head, links and snapshot metadata have been written. |
| ReplicaDir.SwitchHolds | replica/replica.go:1034-1049 | Replacing the volume metadata moves the directory from the old chain to the new one, in one step. |
| ReplicaDir.SnapshotCrashAtomic | replica/replica.go:940-1053 | After any prefix of the file operations of a snapshot the directory holds the whole old chain or the whole new one, with its data, marks and records; the snapshot has the mark that was asked for. |
| ReplicaDir.CompletedSnapshot | replica/replica.go:940-1053 | A completed snapshot has put the files of new head and snapshot in the place of those of the old head, and touched no others. |
| ReplicaDir.SnapshotSurvivesIff | replica/replica.go:940-1053 | After any prefix of the file operations of a snapshot, successful or failed at any point, with its clean-up: the directory holds the old or the new volume if and only if the clean-up has not removed a snapshot of the chain or a head already recorded. |
| ReplicaDir.SnapshotKeepsViews | replica/replica.go:940-1053 | Reopened after any such prefix that is not fatal, the live view and all snapshots are as before. |
| ReplicaDir.FailedSnapshotIff | replica/replica.go:967-997 | A failed snapshot leaves the volume as it was if and only if it failed while the new head was created, or before the volume metadata was replaced and under a name that is not in the chain; otherwise the volume cannot be opened. |
| ReplicaDir.LinkIndexIs | replica/replica.go:999-1003 | The operation at which a taken name is detected is the link of the old head. |
| ReplicaDir.LateFailureLosesVolume | replica/replica.go:1044-1046 | A volume that is lost when the sync after the replacement of its metadata fails. |
| ReplicaDir.BrokenWalk | replica/replica.go:1228-1255 | A chain with a missing metadata file is not recovered. |
| ReplicaDir.FoldEffect | replica/replica.go:587-632 | Copying sectors one by one overlays them on the parent. |
| ReplicaDir.DeleteCrashAtomic | replica/replica.go:524-579 | After any prefix of marking, folding, bypassing and removing a disk the directory holds the old chain, partly folded and with all marks, or the chain without the disk, with the marks of all other disks; no record changes but the mark of removal and the parent of the disk above. |
| ReplicaDir.CompletedDeletion | replica/replica.go:524-579 | A completed deletion has removed the files of the deleted disk and no others. |
| ReplicaDir.DeleteKeepsViews | replica/replica.go:524-579 | Reopened after any prefix of a deletion, every view but that of the disk folded into is as before. |
| ReplicaDir.CrashRunKeepsViews | replica/replica.go:1171-1226 | However often a replica crashes in the middle of snapshots and deletions, it opens again with a complete chain, the same live view, and every snapshot that was not deleted or folded into, with its view and its mark. |
| ReplicaChain.ChainedWalks | replica/replica.go:696-720 | The disks in memory form a chain without repetition, and following parents from the head gives exactly that chain. |
| ReplicaChain.InverseIsExact | replica/replica.go:1055-1086 | For every live disk the children map is the inverse of the parent relation. |
| ReplicaChain.ChildrenExact | replica/replica.go:1055-1086 | Each update of the children map adds, takes out or replaces exactly one pair, and an entry without children is not kept. |
| ReplicaChain.CreateKeepsChained | replica/replica.go:999-1033 | A snapshot with a fresh name keeps the disks chained. |
| ReplicaChain.CreateInverseIff | replica/replica.go:1004-1018 | After a snapshot the children map is the inverse again if and only if it had no stale children under the new name. |
| ReplicaChain.DropKeepsChained | replica/replica.go:524-579 | Taking out a disk below the head links its child to its parent and keeps the disks chained. |
| ReplicaChain.DropKeepsInverse | replica/replica.go:524-579 | Taking out a disk keeps the children map the inverse. |
| ReplicaChain.ReadMetadata | replica/replica.go:1171-1226 | Loading a directory gives the metadata of exactly the disks of its chain, the children map and the order base first. |
| ReplicaChain.LoadedIsChained | replica/replica.go:1108-1141 | What is loaded is chained, and its children map is exact. |
| ReplicaChain.Replica.Chain | replica/replica.go:696-720 | The loop over parents terminates and returns the active disks, head first. |
| ReplicaChain.Replica.FindDisk | replica/replica.go:399-409 | The place of a disk in the active list, 0 if it is not there. |
| ReplicaChain.Replica.CreateDisk | replica/replica.go:940-1053 | When a snapshot is refused, what every record is when it is done and when it broke off, and exactly when all records agree again; with a name never used they do.  The snapshot has the mark asked for, the new head none, and no other record changes. |
| ReplicaChain.Replica.RemoveDiskNode | replica/replica.go:524-579 | The disk leaves the active list and the open files at the same place, its own entry of the children map stays, and all records still agree; an unknown disk changes nothing. |
| ReplicaChain.Replica.RemoveDiffDisk | replica/replica.go:411-436 | Refused for the head, for the latest snapshot and outside RW mode; otherwise the disk is taken out of all records but its own entry of the children map, and of the other records only the parent of its child changes. |
| ReplicaChain.RunChain | replica/replica.go:940-1107 | Over every run of snapshots with fresh names and of deletions, all records describe one chain, open files included, and following the parents gives it; the list of disks is the expected one, and every disk has the mark that was asked for when it was taken, or that its metadata had on opening. |
| ReplicaChain.UseNameAgain | replica/replica.go:1055-1086 | Whenever the name of a deleted disk is given to the next snapshot, that snapshot gets two children and the records do not describe a chain. |
| Replicas.SetModeMirrors | controller/replicator.go:280-294 | Setting a mode in both tables keeps them in step. |
| Replicas.RemoveMirrors | controller/replicator.go:121-136 | Removing a replica from both tables keeps them in step. |
| Replicas.AppendMirrors | controller/replicator.go:98-119 | Adding an unlisted replica to both tables keeps them in step. |
| Replicas.CountIsExact | controller/control.go:137-151 | Counting the list counts the backends in RW mode. |
| Replicas.BuildReadWriters | controller/replicator.go:231-278 | Readers are exactly the RW backends and writers exactly those not in ERR mode, each once. |
| Replicas.FailuresAreDistinct | controller/multi_writer_at.go:113-123 | The number of failures is the number of writers that failed. |
| Replicas.MultiWrite | controller/multi_writer_at.go:64-131 | An error is reported if any writer failed; the whole length if and only if a strict majority took the write. |
| ControllerModel.AckedByMajority | controller/multi_writer_at.go:113-130 | The whole length of a write is reported if and only if a strict majority of the writers took it. |
| ControllerModel.Controller.UpdateVolStatus | controller/control.go:137-161 | The volume is read-only if and only if fewer than a majority of the configured replicas are in RW mode. |
| ControllerModel.Controller.SetReplicaMode | controller/control.go:820-859 | The mode changes in all tables unless it is ERR; no address is found twice. |
| ControllerModel.Controller.RemoveReplica | controller/control.go:724-786 | The replica leaves all tables and the read-only flag is set anew; an unlisted address changes nothing. |
| ControllerModel.Controller.HandleFailures | controller/control.go:1153-1174 | All failed replicas are marked and removed; the call succeeds if and only if an RW replica is left. |
| ControllerModel.Controller.WriteAt | controller/control.go:1036-1065 | What a write does to every replica for every set of failures, when it is refused, what it returns; every replica still in RW mode has the bytes at their offset, all other bytes as before, and has counted the write once; the RW replicas stay identical. |
| ControllerModel.TryReaders | controller/replicator.go:138-169 | Readers are tried round robin, from the one after the last used up to the first that answers; a read succeeds if and only if one of them does, and returns what all RW replicas hold. |
| ControllerModel.Controller.ReadAt | controller/control.go:1121-1151 | A successful read returns what every RW replica holds, so it does not depend on the reader; failed readers are removed. |
| ControllerModel.Controller.Monitor | controller/control.go:1271-1289 | A lost connection removes the replica and keeps all invariants. |
| ControllerModel.Controller.CanAdd | controller/control.go:259-291 | When a replica may be added, and when a WO replica gives way to it; no other replica does, and afterwards there is no WO replica. |
| ControllerModel.Controller.CheckAdd | controller/control.go:360-383 | The check before the connection is opened, with the bound on the number of replicas. |
| ControllerModel.Controller.AddReplica | controller/control.go:654-700 | The newcomer is listed in WO mode exactly when it may be added and the remote steps succeed; it is the only WO replica. |
| ControllerModel.CompareIff | controller/rebuild.go:122-144 | The chains compare as equal if and only if the checkpoint is known and the disks from below the head down to it are the same; the comparison is out of range if and only if the checkpoint lies deeper than the other array reaches. |
| ControllerModel.CompareRunsOut | controller/rebuild.go:122-144 | Two chains for which the comparison is out of range. |
| ControllerModel.CompareChains | controller/rebuild.go:122-144 | The scan for the checkpoint and the two slices compute that comparison. |
| ControllerModel.Controller.Sync | sync/sync.go:559-583 | The rebuild may change the bytes of a WO replica in any way; all invariants stay. |
| ControllerModel.PromotedSyncedIff | controller/rebuild.go:145-168 | After a promotion the RW replicas are identical if and only if the rebuilt replica held their bytes. |
| ControllerModel.Controller.VerifyRebuildReplica | controller/rebuild.go:91-168 | When a replica is promoted, and that all invariants hold afterwards if and only if its bytes are those of the RW replicas. |
| ControllerModel.Controller.AttachFirst | controller/control.go:875-937 | The first replica reaches RW mode through WO mode or is not listed at all. |
| ControllerModel.Controller.Start | controller/control.go:939-1028 | When starting succeeds and what is listed if it does not; a started volume is left alone. |
| ControllerModel.Controller.Step | controller/control.go:1036-1289 | Every event does what is said of it: who is listed afterwards and in which mode, what the replicas hold, what is answered.  It keeps the tables exact, one WO replica at most and the flag right, and ERR is left only by removal; the RW replicas stay identical, and hold what a plain array holds after the same event, unless a replica is promoted that does not hold their bytes. |
| ControllerModel.Run | controller/control.go:939-1289 | So does every run of events from a fresh controller, step by step, up to such a promotion; every read that is answered returns what the writes before it, other than those refused, have left in a plain array. |
| ControllerModel.MinorityWrite | controller/control.go:1036-1065 | A run that ends with a write that returns no bytes and no error. |
| Registration.NextIsMaxIff | controller/control.go:406-493 | After any election, signalling or not, first or repeated, the leader has the greatest counter if and only if the leader before it or the registering replica has it. |
| Registration.UnreachedIsDropped | controller/control.go:499-510 | An elected replica that cannot be told to start is dropped, and whether it had the greatest counter is decided in the same way. |
| Registration.StartedIsMaxIff | controller/control.go:406-493 | Over every run of registrations: the replica told to start by the last one has the greatest counter if and only if the leader before that call or the caller has it. |
| Registration.OneEntryPerReplica | controller/control.go:430-435 | Over every run of registrations each entry is the latest call of its replica and no replica has two. |
| Registration.LatestIsListed | controller/control.go:430-435 | If none is dropped, what is registered is exactly what the latest calls said. |
| Registration.StartNeedsMajority | controller/control.go:480-488 | A start signal is sent only when a majority of different replicas has registered. |
| Registration.OnlyLeadersAreDropped | controller/control.go:443-461 | A registration drops nobody but a leader that does not answer. |
| Registration.Undisturbed | controller/control.go:406-493 | Which registrations change nothing but the list, who can be told to start, and what an error means. |
| Registration.ElectionCanMiss | controller/control.go:406-493 | A run of four registrations that sends the start signal to a replica with counter 2 although one with counter 3 has registered. |
| Registration.StillLed | controller/control.go:469-478 | A regular registration leaves a leader with the greatest counter. |
| Registration.RegularRun | controller/control.go:406-493 | Over every run of regular registrations up to the first start signal: it is sent exactly when a majority has registered, and to a replica with the greatest counter of all. |
| Registration.Registrar.Signal | controller/control.go:499-510 | Whom a start signal goes to, and that a leader that cannot be reached is dropped. |
| Registration.Registrar.Elect | controller/control.go:469-478 | The loop over the registered replicas computes the election. |
| Registration.Registrar.RegisterReplica | controller/control.go:406-493 | The registration makes exactly the transition of the specification, whatever the leader answers. |
| Registration.RegisterAll | controller/control.go:406-493 | A run of registrations is the run of the specification. |
| Registration.QuorumsMeetIff | controller/control.go:480-488 | Every start quorum contains a replica that took each acknowledged write if and only if the replication factor is 1, 2, 3, 4 or 6. |
| RebuildModel.WriteKeeps | controller/control.go:1036-1065 | A write that reaches source and copy, with the same blocks or not, keeps the rebuild's invariant for every sector. |
| RebuildModel.PunchKeeps | replica/backup.go:235-266 | So does a hole punched in the source while it is being copied. |
| RebuildModel.PunchTakes | replica/backup.go:235-266 | A hole takes its sectors out of its layer of the source and changes nothing else. |
| RebuildModel.CopyKeeps | sync/sync.go:559-583 | So does copying one sector of one file. |
| RebuildModel.StepKeeps | sync/sync.go:228-347 | So does any single step, writes of part of a sector included. |
| RebuildModel.RunKeeps | sync/sync.go:228-347 | So does any interleaving of those, and the two heads hold the same block for a sector exactly when the last write to it says so. |
| RebuildModel.RebuiltEqualsSourceIff | sync/sync.go:228-408 | For every interleaving, and chains that differ in length below the checkpoint: once all files above it have been copied, the two replicas agree on a sector if and only if the last write to it, if it wrote only part of it, found them agreeing on the rest. |
| RebuildModel.RebuiltEqualsSource | sync/sync.go:228-408 | With writes of whole sectors the rebuilt replica shows what its source shows. |
| RebuildModel.PartialWriteDiverges | replica/diff_disk.go:135-153 | A run of a rebuild, with everything copied at its end, after which the replica differs from its source. |
| Promotion.CompleteIff | sync/sync.go:228-408 | After a complete rebuild the bytes of the replica are those of its source if and only if the last write to each sector left both with the same block. |
| Promotion.ReadyIff | controller/rebuild.go:91-168 | A WO replica rebuilt from an RW one holds the bytes of all RW replicas under the same condition. |
| Promotion.RebuildAndPromote | controller/rebuild.go:91-168 | Rebuilding and promoting a replica keeps all invariants of the controller if and only if the chains differ, a remote call fails, or the writes agree; it does if all writes are aligned. |
| Rpc.RequestConsistentIff | rpc/client.go:302-326 | Numbering a request keeps all requests accounted for if and only if the number is not in use. |
| Rpc.NumberedIff | rpc/client.go:287-290 | The requests in flight are the old ones and the new one if and only if its number is not in use. |
| Rpc.Client.HandleRequest | rpc/client.go:302-326 | A request is put in flight, or completed with an error after a transport error; no number is reused among the first 2^32 - 1. |
| Rpc.Client.HandleResponse | rpc/client.go:328-355 | A response completes the request with its number, once; a response nobody waits for changes nothing. |
| Rpc.Client.HandleTransportError | rpc/client.go:328-338 | Everything in flight is completed with an error exactly once and the table is emptied; every request accepted is then completed. |
| Rpc.Converse | rpc/client.go:265-338 | Over any run of operations, responses and a transport error with fewer than 2^32 operations: every operation ends as the events make it end, answered by the first response with its number, ended by the error, waiting, or refused; every operation taken from the channel is in flight or completed, once. |
| Rpc.NumberUsedTwice | rpc/client.go:287-326 | A connection on which a request gets a number that is in use, and the request that had it is never completed. |
| WireModel.LittleRoundTrip | rpc/wire.go:50-133 | The bytes of a number read back as the number modulo 256 to their count. |
| WireModel.LastByteIsHighest | rpc/wire.go:50-133 | Numbers are read lowest byte first. |
| WireModel.TwosComplement | rpc/wire.go:64-71 | Signed numbers are sent as two's complement. |
| WireModel.HeaderParts | rpc/wire.go:50-84 | The place of every field in a message. |
| WireModel.RoundTripIff | rpc/wire.go:50-133 | A message reads back as sent, with what follows untouched, if and only if its data is below 2^32 bytes. |
| WireModel.DecodeFailsIff | rpc/wire.go:94-133 | Reading fails on the version if and only if the first two bytes are not 03 1b, and otherwise if and only if the header or the data it announces is not complete. |
| WireModel.StreamRoundTrip | rpc/wire.go:50-133 | A stream of such messages reads back as sent, and the bytes behind it are left. |
| WireModel.Wire.Write | rpc/wire.go:50-84 | The fields written one after the other are the encoding. |
| WireModel.Wire.Read | rpc/wire.go:86-133 | Reading field by field is decoding, with a short stream and a wrong version as errors. |
| RevisionCounter.FormatRoundTrip | replica/revision_counter.go:51-64 | Every 64-bit number parses back from its decimal form. |
| RevisionCounter.ParseIff | replica/revision_counter.go:51-54 | Which texts are numbers: one sign or none, digits, within 64 bits. |
| RevisionCounter.LeadingDigit | replica/revision_counter.go:51-64 | The first digit has the greatest weight. |
| RevisionCounter.TrimTakesNuls | replica/revision_counter.go:51 | NULs at both ends are all that reading ignores. |
| RevisionCounter.CounterRoundTrip | replica/revision_counter.go:41-71 | A counter written over any file reads back as itself. |
| RevisionCounter.WritingKeepsTail | replica/revision_counter.go:58-71 | Writing leaves what lies behind the first block. |
| RevisionCounter.Counter.Init | replica/revision_counter.go:79-112 | A new counter is 1, a restart finds the counter it had, and an unreadable file is an error. |
| RevisionCounter.Counter.Get | replica/revision_counter.go:114-126 | The counter as the file has it, -1 if it cannot be read. |
| RevisionCounter.Counter.Set | replica/revision_counter.go:141-157 | Refused outside RW mode; file and copy then agree on the new number; a failed write leaves the copy. |
| RevisionCounter.Counter.Increase | replica/revision_counter.go:159-169 | The counter grows by exactly one, in file and copy, with 64-bit wrap-around; a failed write leaves the copy. |
| RevisionCounter.CountAll | replica/revision_counter.go:79-169 | Over every run of counted writes, queries and restarts, failing or not, that does not read the file back after a failed write: a restart reads the number it started with plus the writes that succeeded. |
| Ports.Agent.NextPort | sync/agent/process.go:268-285 | A free port of the range, and none if and only if all are held. |
| Ports.Agent.CreateProcess | sync/agent/process.go:97-151 | A receiver gets a port that no live receiver has; creation fails if and only if there is none; others take no port. |
| Ports.Agent.Exit | sync/agent/process.go:138-147 | A process that exits gives back its own port and nobody else's. |
| Ports.Serve | sync/agent/process.go:97-151 | Over any run of creations and exits the live receivers have pairwise distinct ports, the table holds exactly those ports, and a refusal means that live receivers hold all of them. |

## Left out

- The REST servers and clients, command line, logging, metrics, the iSCSI frontend: plumbing.
- Real file I/O, fiemap and fallocate: a file is its map of allocated sectors, a hole is executed in one step.
- The external fold and sync programs: folding overlays sector by sector, copying is exact per sector.
- Unmap: it punches files without touching the location cache.
- Revert, clone, backup, restore, backing files and quorum replicas.
- The administrative change of a mode, and Shutdown: they bypass the controller's invariants by design.
- Timeouts, retries and pings: they appear only as failures at any time.
- The shortcut that skips copying when counters and chains agree.
- Starting a volume with several addresses.
- The first creation of a head in an empty directory, and replacing or hard-linking disks.
- Revision counters recorded in disk metadata, and the dirty and rebuilding flags.
- ControllerModel.Controller.VerifyRebuildReplica: the chains and whether the remote calls succeed are passed in; a comparison that is out of range ends the process, here it is a refusal.
- ControllerModel.Controller.AddReplica: the check made before the lock is released is the separate method CheckAdd, and a run may add a replica without it, so more runs are covered.
- ControllerModel.Controller.RemoveReplica: does not model the frontend and the list of registered replicas.
- ControllerModel.Controller.Start: one address only, so conflicting revision counters do not arise.
- ControllerModel.Run: ends before the promotion of a replica that does not hold the bytes of the RW replicas; Promotion says when a rebuilt one does.
- DiffDiskModel.DiffDisk.WriteAt: a range beyond the end of the volume is not modelled, the callers check it.
- DiffDiskModel.DiffDisk.RemoveIndex: takes an empty hole queue, as the drain before it leaves it; DiffDiskModel.DiffDisk.RemoveFolded takes any.
- DiffDiskModel.RunDisk: carries no user snapshots, which Volume.RunRefines does, sector by sector; a disk is deleted while no hole is queued, which Coalesce.QueuedHolesIff shows to matter.
- LunMap.Server.UpdateLunMap: the used-block count is stated for a head that is not marked as user-created, as is the case after a reload.
- ReplicaDir.SnapshotCrashAtomic: a metadata record is written whole or not at all; the code does not notice a record that could not be encoded, because it tests another variable (replica/replica.go:770).
- Rpc.Client.HandleTransportError: leaves the channel alone, as Rpc.Converse has it; the caller's timeout ends the requests that wait there.
- Cleaner.GetDeleteCandidateChain: the chain has no empty names.
