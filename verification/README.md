# Before-image snapshots of a block device, modelled and proved in Dafny

The module snapshots a mounted block device block by block: just before a block is written for the
first time in an *epoch* (from the first mount of the device to its last umount), the old contents go
to an append-only log, `snapblocks`. A user-space tool replays that log over the device to get back
the device as it was at the first mount. This project models that pipeline and the protocols around
it, and proves what they promise.

The main result is `Recovery.RecoversFirstMount`: for every interleaving of writers, probes, the
periodic sweep, cache evictions and the worker of one epoch, once the queue is drained, restoring the
log file that the worker wrote over the bytes of the device as it is then gives exactly the bytes of the
device at the first mount, if the log has room for one record of every block. With less room,
`Recovery.RecoversExactly` says when it still does: if and only if every block that has changed has its
record wholly in the file.

| file | what it models |
|---|---|
| `Bytes.dfy`, `Options.dfy`, `Seqs.dfy` | bytes and 64-bit words, little-endian fields, facts about sequences |
| `Snapblocks.dfy` | the log format, the appending writer, and the kernel's absolute-offset scan |
| `Restore.dfy`, `Prompts.dfy`, `RestoreEffect.dfy`, `RestorePlaces.dfy`, `RestoreHalts.dfy` | the restore tool with its relative seeks and its prompts, what it does to the device, where it writes, and on which files it ends |
| `Lru.dfy` | the cache: hash buckets and a recency list over the same nodes |
| `Worker.dfy` | the deferred work `make_snapshot` on cache and log |
| `SingleFile.dfy` | the single-file file system and the client that retries its writes |
| `Slots.dfy` | the per-thread table that carries a block from the read probe to the write probe, and its sweep |
| `Pipeline.dfy` | all of these interleaved, as a step machine with its invariant |
| `Probes.dfy` | the probes on the real table do what the steps of the machine say |
| `Recovery.dfy` | before-images, capture, atomic writes, the bytes the worker writes, recovery |
| `Epochs.dfy` | mounts, umounts, requests, deactivation and the two ways an epoch is destroyed |
| `Devices.dfy` | one device as an object, the worklist of teardowns, all devices up to module exit |
| `Request.dfy` | the activation request: joined by the tool, split and trimmed in place by the kernel |

`dafny verify dfyconfig.toml` checks the whole project. Every lemma carries `{:induction false}`: the
proofs name their own induction.

## Where the code differs from its documentation

The model follows the code; these are the places where that shows.

* `src/kernel/snapshot.c:521-525` skips the cache insertion when the write *succeeds*; README.md:321-322
  of the repository says a block not found in the cache is always added. `Worker.Polarity` names both
  readings. What they come to is `Worker.FreshCached`: as shipped a new block is cached just if it does not fit,
  so that with room a block enters the cache at its second work (`Worker.CachedAtSecondWork`). The log depends on
  neither the test nor the cache: it is the first work of each block, cut
  where the room ends (`Worker.CacheTransparent`, `Worker.LogFileIsFirstOf`, both for either reading).
  * That the *header* of a cached block can be found in the log always holds as intended
    (`Worker.IntendedCachedIsFound`), and as shipped exactly when the block was known already or its header
    fitted (`Worker.ShippedCachedIsFound`); otherwise the block counts as cached and is not written however
    much room there is later (`Worker.ShippedForgetsFailedBlock`).
  * That a cached block is *wholly* in the log is kept under neither reading: as intended it is lost exactly
    when a work finds a header without its payload (`Worker.IntendedCachedIsWhole`), as shipped then and
    whenever a new block does not fit (`Worker.ShippedCachedIsWhole`).
  * A new block is wholly logged if and only if there is room for its record (`Worker.FreshIsLoggedIfRoom`).
    If only its header fits, the block is found from then on without being there, and is lost under both
    readings (`Worker.TornIsLost`).
* `demo/SINGLEFILE-FS/file.c:129` writes `len` bytes into the buffer even if fewer can be copied from the
  caller: `copy_from_user` fills the rest with zeros. A short write therefore destroys the file behind the
  bytes it reports, unless nothing but zeros was there (`SingleFile.ShortCopyHarmless`).
* `src/kernel/fs-support/singlefilefs.c:253-256` looks into the buffer without asking whether the read
  succeeded. A write at an offset equal to the maximum file size addresses the block behind the last one;
  without the module it fails with `EIO` (`SingleFile.PlanStaysInside`), which is how the client learns that
  its data does not fit. On an activated device exactly this write faults in the probe
  (`Recovery.FaultsAtTheEnd`), with the inode lock held, so that nothing is ever written again
  (`Recovery.NothingWrittenAfterFault`); recovery is not affected.
* `src/kernel/fs-support/singlefilefs.c:158` advances the sweep cursor by `+= end`. The buckets swept, in any
  cycle, are exactly those of `Slots.ShippedCoverage`; bucket 100, for one, is never among them
  (`Slots.ShippedMissesBucket`). With `= end` every bucket is swept in every cycle (`Slots.FixedCycle`), and
  so within boundedly many runs from any moment on (`Slots.FixedCoverage`).
* The prompt of the restore tool reads at most nine characters (`src/user/restore.c:158-160`): the rest of a
  longer line answers the next prompt (`Prompts.LongLineAnswersTwice`).
* README.md:312 of the repository describes a `cleanup_epoch_lock` that does not exist. What stands in
  for it is that a busy file system cannot be umounted: the last umount of an epoch is not enabled while a
  request is inside `queue_snapshot_work`. `Epochs.BusyUmountSafe` shows that this is exactly what is
  needed, and `Epochs.BusyUmountUsesDestroyedEpoch` what happens without it.
* The mount callback ignores `wq_is_destroyed` (`src/kernel/mounts.c:35-44`). Destroying at most once needs
  no assumption about it; that all epochs are destroyed in the end holds if and only if no mount event came
  after the deactivation (`Devices.ExitDestroysEverything`). `Devices.LateMountLeak` is the shortest run in
  which an epoch is left behind.
* Neither reader ends on every file. Each does if every header it reads advances, that is, if payload
  offset and size do not add up to 0 modulo 2^64 or to so much that the next offset wraps to an earlier one
  (`Snapblocks.AdvancingScanHalts`, `RestoreHalts.AdvancingRunHalts`), and each does on every byte prefix of
  a log (`Snapblocks.ScanHalts`, `Restore.RestoreCutLog`). On any file, a kernel scan that has not ended after
  one probe per byte and one more never ends (`Snapblocks.ScanEndsSoonOrNever`). On a file of one header the
  kernel spins exactly if that header advances by 0 and is not the one sought (`Snapblocks.ScanSpins`), and
  the tool exactly if it advances by 0 and is passed over for ever, which restoring a nonempty raw payload is
  not (`RestoreHalts.RestoreSpins`). The reading methods take a bound on the finite run as a ghost parameter.
* `src/user/restore.c:91-93` multiplies block number and size modulo 2^64 and ignores the result of `lseek`.
  What the tool writes is each confirmed payload, wholly and at its own place, if and only if every confirmed
  raw record can be read in one go and has its place on the device (`RestorePlaces.InPlaceExactly`;
  `Restore.FitsExactly` for one record). Otherwise (`Restore.RawOutcome`): a payload whose place begins on
  the device and reaches beyond its end is written up to there before the tool gives up
  (`Restore.CutRecord`); one whose place wraps to an offset on the device goes there, over another block
  (`Restore.WrappedRecord`); any other goes to where the device position is, behind the last payload written
  or to the start of the device, and with room for it there the tool goes on (`Restore.MisplacedRecord`).

## Assumptions

Allocations succeed; every epoch has a snapshot directory of its own; `list_lru` is one list; a thread is
inside at most one `vfs_write`; a thread identifier together with its start time is not used again after
the thread has died; within an epoch only `onefilefs_write` writes to the device; devices have fewer than
2^31 blocks and the room for a log is below 2^62 bytes. The device was formatted as an image file: of a
block special file mkfs takes the size to be 0 (demo/SINGLEFILE-FS/singlefilemakefs.c:50) and the maximum
file size to be 2^64 - 8192. A log write is short only because this room, which
does not change within the epoch, is used up. Steps are atomic at the granularity of the locks: the inode lock, the
hash-table spinlock, `general_lock`, `wq_destroy_lock` and the ordered workqueue.

Of the probes: none is missed for want of a kretprobe instance. No write is under way when the epoch
starts; a device activated while it is mounted and in use, and then mounted once more, would violate that.
The sweep is right about which threads with a slot are dead. Between its read probe and its write
probe a writing thread reads no other block through `__bread_gfp`. The read probe asks neither for the device
nor for the purpose of a read, so a page fault in `copy_from_user` on another file system can break that; then
the original is lost if and only if the block has no image yet and the block read differs from it
(`Recovery.StrayReadExactly`), and recovery gives the first mount with the block read in its place
(`Recovery.StrayReadRecovers`).

Of umounts: that the last umount counted finds no request under way is taken from the file system being
busy otherwise. A lazy umount is counted as well (`src/kernel/mounts.c:260-283` ignores the flags) and does
not wait; for it, `Epochs.BusyUmountSafe` says what then goes wrong and when.

## Model

| member | source | states |
|---|---|---|
| Recovery.RecoversFirstMount | src/kernel/snapshot.c:477-534 | for every run of an epoch, once the queue is empty and if the log had room for one record per block of the device, the restore tool, unprompted and over the very bytes the worker wrote, ends with success and leaves the device byte for byte as at the first mount |
| Recovery.RecoversExactly | src/kernel/snapshot.c:477-534 | with any room for the log, the device is recovered if and only if every block changed since the first mount has its record wholly in the log file |
| Recovery.RecoversBlock | src/kernel/snapshot.c:378-412 | block by block: a block whose record fitted is recovered, every other block stays as it is |
| Recovery.FileFollowsLog | src/kernel/snapshot.c:477-534 | in every run and with any room, the log file is the encoding of the worker's log cut where the room ends, and only logged blocks are cached |
| Recovery.BeforeImages | src/kernel/snapshot.c:542-579 | in every reachable state each block is unchanged on disk since the first mount or its original is the first image in log plus queue; a buffer differs from the disk only in the block the lock holder is modifying |
| Recovery.CaptureIsPreImage | src/kernel/fs-support/singlefilefs.c:238-310 | whenever a block is about to be written out, the writer's slot holds what the disk still has in exactly that block, and that is what is queued; the writer has read no other block in between |
| Recovery.StrayReadExactly | src/kernel/fs-support/singlefilefs.c:238-261 | if the writer has read another block in between, data or inode block alike, the originals stay kept if and only if the block read equals what the disk holds or the block has an image already; in any case all goes on as if the first mount had held the block read |
| Recovery.StrayReadRecovers | src/kernel/fs-support/singlefilefs.c:238-261 | in any run with one such read, recovery gives the first mount with the block read in place of a block without image, and so the first mount itself under exactly that condition |
| Recovery.SlotsAreUndisturbed | src/kernel/fs-support/singlefilefs.c:55-164 | no other thread's probe, no thread's death, no sweep of dead threads, no worker step changes or removes the slot of a thread inside its write |
| Recovery.SlotSurvives | src/kernel/fs-support/singlefilefs.c:238-310 | over any run of such steps, as between the read probe and the write probe of a thread, its slot stays as it is |
| Probes.OnStep | src/kernel/fs-support/singlefilefs.c:174-310 | on the chains of the real table, the probes of every step leave for every thread exactly the slot that the step machine says, and fault exactly when it says so |
| Probes.OnSend | src/kernel/fs-support/singlefilefs.c:271-310 | what the write probe finds in the table is what the step queues |
| Probes.OnSweep | src/kernel/fs-support/singlefilefs.c:137-164 | a run of the sweep over the table removes just slots of dead threads, those in its buckets, and so is a sweep step of the machine |
| Recovery.FaultsAtTheEnd | src/kernel/fs-support/singlefilefs.c:253-256 | a write on an activated device faults in the read probe if and only if its offset and the file size equal the maximum file size |
| Recovery.NothingWrittenAfterFault | demo/SINGLEFILE-FS/file.c:83-127 | after such a fault the inode lock is never released, and neither disk nor file ever change again |
| Recovery.ChangeDataIsAtomic | demo/SINGLEFILE-FS/file.c:129-130 | the copy stores its bytes in the file in one go, at an offset inside it, and the buffers show that file |
| Recovery.DiskIsConsistent | demo/SINGLEFILE-FS/file.c:71-155 | whenever the inode is unlocked, buffers and disk agree, the size in memory is the size on disk, and the file is what the writes made of it one after the other, short copies with their zeros included |
| Recovery.WriteIsOneStore | demo/SINGLEFILE-FS/file.c:83-153 | whatever else happens between the data read of a write and its unlock, the file on disk then is the one before with the caller's bytes stored at the caller's offset, as many as the plan of a single write says, and with zeros for those not copied; a write that gives up changes nothing |
| Recovery.ReadsAreCaptured | src/kernel/fs-support/singlefilefs.c:238-261 | each of the three block reads of a write puts the block read, and nothing else, into the slot of its thread |
| Recovery.WritesAgain | src/kernel/fs-support/singlefilefs.c:209-228 | a thread that returns from its write has no slot any more and may write again, and all others keep theirs |
| Recovery.QueueDrains | src/kernel/snapshot.c:477-534 | from every reachable state the worker alone can empty the queue, without touching the device |
| Recovery.ReplayGivesOriginal | src/user/restore.c:118-183 | replaying a log that keeps the originals over the present device gives the original device |
| Recovery.LogIsShort | src/kernel/snapshot.c:506-530 | the log has at most one record per block of the device |
| Pipeline.StepKeeps | demo/SINGLEFILE-FS/file.c:71-155 | every step of a writer, of the probes, of the sweep and of the worker keeps the invariant of the epoch |
| Pipeline.SendDataKeeps | src/kernel/fs-support/singlefilefs.c:271-310 | queueing the captured block ahead of writing its new contents keeps every original in front |
| Pipeline.SendInodeKeeps | src/kernel/fs-support/singlefilefs.c:271-310 | the same for the inode block, written second in one `onefilefs_write` |
| Pipeline.DoWorkKeeps | src/kernel/snapshot.c:477-534 | one item processed moves the originals from the queue to the log without loss, one image per block |
| Pipeline.ReachedInv | src/kernel/fs-support/singlefilefs.c:174-310 | the invariant holds after every run from a first mount |
| Snapblocks.HeaderRoundTrip | src/kernel/snapshot.c:263-281 | decoding an encoded mandatory header gives its five fields back |
| Snapblocks.RecordLayout | src/kernel/snapshot.c:252-281 | a record byte by byte: magic number, block number, payload size, type and payload offset, eight bytes each and least significant first, then the extended header and the payload |
| Worker.WorkerRecord | src/kernel/snapshot.c:271-281 | the record written for a block: its number, its size, type 0, offset 40, and the block |
| Worker.WorkerHeader | README.md:339-360 | the very forty bytes ahead of block 7 of 4096 bytes |
| Snapblocks.RecordBytes | src/kernel/snapshot.c:378-412 | record `i` of a log is found, byte for byte, at the sum of the sizes of the records before it |
| Snapblocks.FileLookup | src/kernel/snapshot.c:414-427 | the scan loop answers whether any header it can reach from offset 0 carries the block number |
| Snapblocks.ScanOffsets | src/kernel/snapshot.c:414-427 | on every byte prefix of a log the scan probes exactly the record offsets, in order, up to the cut |
| Snapblocks.FoundInCutLog | src/kernel/snapshot.c:283-302 | on every byte prefix of a log the lookup succeeds exactly for the blocks with a whole header before the cut |
| Snapblocks.FoundInWholeLog | src/kernel/snapshot.c:414-427 | on a whole log the lookup succeeds exactly for the blocks that have a record |
| Snapblocks.ScanHalts | src/kernel/snapshot.c:414-427 | the scan of a cut log stops after at most one probe per record and one more |
| Snapblocks.AdvancingScanHalts | src/kernel/snapshot.c:414-427 | the scan of any file ends if every header it sees advances, after at most one probe per byte |
| Snapblocks.AllAdvanceSeen | src/kernel/snapshot.c:418-424 | which is so if whatever reads as a header anywhere in the file advances |
| Snapblocks.ScanEndsSoonOrNever | src/kernel/snapshot.c:414-427 | the scan of any file whatever ends if and only if it ends within one probe per byte and one more |
| Snapblocks.ScanSpins | src/kernel/snapshot.c:418-424 | the scan of a single header never ends if and only if the header advances by 0 modulo 2^64 and is not the one sought |
| Snapblocks.FoundInLonger | src/kernel/snapshot.c:414-427 | a block found in a file is found in whatever the file grows to |
| Snapblocks.LogFile.KernelWrite | src/kernel/snapshot.c:384-406 | an append adds a prefix of the data, all of it unless the room is used up |
| Snapblocks.LogFile.WriteSnapblock | src/kernel/snapshot.c:378-412 | the file becomes the old one plus the record, truncated at the room there is; success exactly when nothing was cut |
| Restore.Tool.Read | src/user/restore.c:77-89 | a read returns the bytes at the position, as many as there are, and moves behind them |
| Restore.Tool.WriteDevice | src/user/restore.c:93-102 | a write changes exactly the bytes at the device position it could transfer |
| Restore.SkipLands | src/user/restore.c:107-108 | from behind the header of a record, the relative seek over extended header and payload lands on the next record |
| Restore.Tool.RestoreRawBlocks | src/user/restore.c:66-105 | the raw branch: nothing is written unless the payload was read whole, and then at block number times size |
| Restore.Tool.RestoreByType | src/user/restore.c:110-116 | raw records are restored, others skipped |
| Restore.Tool.OnHeader | src/user/restore.c:143-174 | one header: skipped, declined, restored, with or without leaving the loop |
| Restore.Tool.DoRestore | src/user/restore.c:118-183 | the loop ends in the state and with the verdict of the run specified for it |
| Restore.TurnOnWhole | src/user/restore.c:136-175 | whatever the branch, a turn of the loop on the bytes of a whole record is the turn on the record, and unless the tool gives up it ends at the next header |
| Restore.RawTurnWhole | src/user/restore.c:66-105 | the raw branch on the bytes of a whole record is the raw branch on the record: read in one go, written at block number times size or where the device position was, given up if cut |
| Restore.RawTurnCut | src/user/restore.c:77-89 | a raw record cut short is not written, not even in part |
| Restore.ReadersAgree | src/user/restore.c:107-116 | with extended headers of any length, absolute offsets of the kernel and relative seeks of the tool visit the same headers, as long as the tool does not give up |
| Restore.RunFrom | src/user/restore.c:136-175 | from any record on, the loop over the bytes does to the device what the loop over the whole records does |
| Restore.RestoreCutLog | src/user/restore.c:136-175 | for every byte prefix of a log, all options, all answers and every device, the tool ends, with the device and, on a whole log, the verdict of the loop over the wholly contained records |
| Restore.ConfirmedAreReplayed | src/user/restore.c:91-102 | the loop over records replays the confirmed ones in order and succeeds, if these can be read in one go and have their place on the device |
| Restore.RestoreFittingLog | src/user/restore.c:136-175 | so for every byte prefix of a log whose confirmed whole records fit, the device is the old one with exactly these replayed in order |
| Restore.RawOutcome | src/user/restore.c:91-102 | where the payload of any whole raw record goes: to its own place, to that place modulo 2^64, or to the old device position, each as far as there is room |
| Restore.FitsExactly | src/user/restore.c:91-102 | a raw record goes wholly to its own place, and the run goes on behind it, if and only if it can be read in one go and has its place on the device |
| Restore.MisplacedRecord | src/user/restore.c:91-102 | a payload whose place lies beyond the end of the device goes to the device position, unnoticed if there is room |
| Restore.WrappedRecord | src/user/restore.c:91-91 | block 2^52 of 4096 bytes is written over block 0, unnoticed |
| Restore.CutRecord | src/user/restore.c:93-102 | a payload that the end of the device cuts is written up to there before the failing exit |
| RestorePlaces.InPlaceExactly | src/user/restore.c:136-175 | for any records, options, answers and device, the tool writes exactly the confirmed raw payloads, wholly, at their own places and in log order, if and only if all confirmed records fit |
| RestorePlaces.RestoredBytes | src/user/restore.c:136-175 | for every byte prefix of any log, any options, answers and device, each byte is that of the last piece the tool wrote over it, and every other byte is unchanged |
| Restore.RestoreAllCutLog | src/user/restore.c:136-175 | unprompted restore-all replays exactly the wholly contained records, in order, if these fit |
| RestoreHalts.AdvancingRunHalts | src/user/restore.c:66-116 | on any file the tool ends if every header it reads advances, under any options and answers and on any device |
| RestoreHalts.AllAdvanceMet | src/user/restore.c:136-175 | which is so if whatever reads as a header anywhere in the file advances |
| RestoreHalts.RestoreSpins | src/user/restore.c:136-175 | on a single header the tool never ends if and only if the header advances by 0 modulo 2^64 and is passed over for ever: by the options, for want of a further yes, or because restoring it moves nothing |
| RestoreEffect.ReplayByte | src/user/restore.c:91-102 | after a replay of any records, of any types and sizes and however they overlap, each byte is that of the last record covering it, or the old one |
| RestoreEffect.SelectiveRestore | src/user/restore.c:143-171 | for every byte prefix of a log, any options and answers, each byte of the device is that of the last confirmed whole record covering it, and a byte that none covers is unchanged |
| RestoreEffect.ConfirmedFirst | src/user/restore.c:143-174 | with `-n` and no prompts exactly the first record of that block is restored |
| RestoreEffect.ConfirmedByAnswer | src/user/restore.c:155-167 | with `-a` and prompts record `j` is restored if and only if there is an answer `j` and it is yes, and in log order |
| RestoreEffect.ConfirmedFirstAccepted | src/user/restore.c:143-174 | with `-n` and prompts these count the records of that block, and the first record accepted is the only one restored |
| Prompts.LinesAnswer | src/user/restore.c:156-167 | each line of at most nine characters answers one prompt, and exactly the line "yes" confirms |
| Prompts.TypedYesRestores | src/user/restore.c:143-171 | with `-a` and prompts exactly the records whose line is "yes" are restored, in log order |
| Prompts.LongLineAnswersTwice | src/user/restore.c:158-162 | a longer line answers two prompts, the second one with its rest |
| Prompts.NoInputDeclines | src/user/restore.c:158-166 | the end of the input declines |
| RestoreEffect.RestoreOrderIrrelevant | src/user/restore.c:91-102 | with one record per block and one payload size, any order of the records gives the same device |
| RestoreEffect.RestoreIdempotent | src/user/restore.c:91-102 | restoring twice is restoring once, whatever the records |
| LruNg.LruIsMostRecent | src/kernel/lru-ng.c:115-168 | after any lookups and insertions on a miss the cache is the most recently touched distinct keys in order, cut to the maximum, without duplicates |
| LruNg.Lru.EvictOldest | src/kernel/lru-ng.c:104-113 | eviction unlinks the oldest node from the list and from its bucket |
| LruNg.Lru.Insert | src/kernel/lru-ng.c:115-146 | insertion puts the key at the young end of list and bucket, and drops the oldest if there is one too many, so that there are never more than the maximum |
| LruNg.Lru.Find | src/kernel/lru-ng.c:148-168 | lookup answers membership and moves the key found to the young end; buckets and list keep agreeing |
| LruNg.Lru.Cleanup | src/kernel/lru-ng.c:170-173 | clean-up empties the list and every bucket |
| LruNg.AgreeRemove | src/kernel/lru-ng.c:104-113 | unlinking a node from both containers keeps them over the same nodes, each in the bucket of its key, without duplicates |
| LruNg.AgreeInsert | src/kernel/lru-ng.c:130-143 | so does linking a new node into both |
| LruNg.AgreeMove | src/kernel/lru-ng.c:151-163 | so does moving a node to the young end of the list alone |
| Worker.Epoch.MakeSnapshot | src/kernel/snapshot.c:477-534 | one deferred work on cache and log file, with the test of line 521 as shipped, room running out included |
| Worker.FreshCached | src/kernel/snapshot.c:521-528 | a block neither cached nor logged is cached as shipped just if its record does not fit, and as intended just if it does; otherwise the cache is unchanged |
| Worker.KnownBecomesYoungest | src/kernel/snapshot.c:486-510 | a block cached or found becomes the youngest of the cache, and the log is left alone |
| Worker.CachedHasWorks | src/kernel/snapshot.c:486-528 | over any works and evictions, every write succeeding, a block is cached no earlier than its second work as shipped, and than its first as intended |
| Worker.CachedAtSecondWork | src/kernel/snapshot.c:486-528 | if nothing is evicted, exactly from then on |
| Worker.Epoch.SearchLog | src/kernel/snapshot.c:506-510 | the search of the epoch's log always ends |
| Worker.Epoch.AppendBlock | src/kernel/snapshot.c:512-525 | the record is appended as far as there is room, and success means all of it |
| Worker.AppendHolds | src/kernel/snapshot.c:378-412 | whether or not the append fits, the file stays a byte prefix of a well-formed log |
| Worker.CacheTransparent | src/kernel/snapshot.c:486-530 | for every sequence of works, any evictions at any time and either reading of the test, the log is that of a cacheless reference, and only logged blocks are cached |
| Worker.FirstOfIsFirst | src/kernel/snapshot.c:506-530 | the reference logs every block once, with the contents of its first work |
| Worker.SnapIsProcess | src/kernel/snapshot.c:477-534 | while there is room, the work on file bytes is the work on records, under either reading |
| Worker.LogFileIsFirstOf | src/kernel/snapshot.c:477-534 | after any works and evictions, with any room and under either reading, the log file is exactly the encoding of the first work of each block, cut where the room ends |
| Worker.CacheWithRoom | src/kernel/snapshot.c:477-534 | with room for a record per block nothing is cut, and the cache is that of the record level |
| Worker.FoundAfterAppend | src/kernel/snapshot.c:384-407 | after an attempted append the block is found exactly when its header made it into the file |
| Worker.IntendedCachedIsFound | README.md:319-325 | with the intended test, the header of a cached block can be found in the log, failed writes included; its payload need not be there |
| Worker.ShippedCachedIsFound | src/kernel/snapshot.c:521-528 | with the shipped test, exactly when the block was known or its header fitted |
| Worker.ShippedForgetsFailedBlock | src/kernel/snapshot.c:486-490 | with the shipped test a block whose header did not fit counts as cached and is passed over by the next work, whatever the room |
| Worker.FreshIsLoggedIfRoom | src/kernel/snapshot.c:378-412 | a block neither cached nor found is wholly in the log after its work if and only if there is room for its record |
| Worker.IntendedCachedIsWhole | src/kernel/snapshot.c:506-528 | with the intended test cached blocks stay wholly logged, except exactly when a work finds a header without its payload |
| Worker.ShippedCachedIsWhole | src/kernel/snapshot.c:506-528 | with the shipped test, except exactly then and when a new block does not fit |
| Worker.TornIsLost | src/kernel/snapshot.c:506-510 | if only the header of a new block fits, then under either reading, and whatever works, evictions and room follow, the block is found without being there and no work of it changes the log again |
| Worker.FullStaysAsItIs | src/kernel/snapshot.c:384-406 | once the room is used up and does not grow, no work changes the log |
| SingleFile.PlanStaysInside | demo/SINGLEFILE-FS/file.c:98-119 | clamping and block arithmetic: a write stays inside one data block of the device, at the place of its offset, as long as block, data and device allow; which offsets fail, and how |
| SingleFile.FormattedIsMounted | demo/SINGLEFILE-FS/singlefilemakefs.c:46-99 | the superblock, inode and data that mkfs writes to an image make a mounted file system whose file is the body written |
| SingleFile.WrittenIsSplice | demo/SINGLEFILE-FS/file.c:123-150 | writing the data block, and the inode block if the file grew, stores the data in the file, which ends behind the bytes that count or where it ended; superblock, inode and in-memory size stay in agreement |
| SingleFile.ShortCopyHarmless | demo/SINGLEFILE-FS/file.c:129-130 | a copy that stops short is a plain write of the bytes it copied if and only if the file holds only zeros in the rest of the range |
| SingleFile.OneFileFs.PutBlock | demo/SINGLEFILE-FS/file.c:123-150 | the same for the code that does it |
| SingleFile.OneFileFs.Decide | demo/SINGLEFILE-FS/file.c:83-119 | the checks and the arithmetic ahead of the transfer |
| SingleFile.OneFileFs.Write | demo/SINGLEFILE-FS/file.c:71-155 | one write, with bytes that cannot be copied and are replaced by zeros: outcome, new offset, new file |
| SingleFile.OneFileFs.Read | demo/SINGLEFILE-FS/file.c:24-69 | one read returns the part of the file at the offset that ends with the file or the block, less what cannot be copied to the caller |
| SingleFile.OneFileFs.WriteCall | demo/SINGLEFILE-FS/user/user.c:39-46 | a call of the client writes at least one byte, or fails exactly at the maximum size |
| SingleFile.OneFileFs.ClientWrite | demo/SINGLEFILE-FS/user/user.c:36-48 | the retry loop ends, the file is the splice of old contents and the data that fits, and it succeeds exactly when all of it fits |
| Slots.SlotTable.OnWriteEntry | src/kernel/fs-support/singlefilefs.c:174-207 | the entry probe gives this thread a slot and changes nobody else's |
| Slots.SlotTable.OnBread | src/kernel/fs-support/singlefilefs.c:238-261 | the read probe overwrites the slot of this thread if it has one, and no other; without a buffer it faults exactly for a thread with a slot |
| Slots.SlotTable.OnWriteDirty | src/kernel/fs-support/singlefilefs.c:271-310 | the write probe sees the slot of its own thread |
| Slots.SlotTable.OnWriteExit | src/kernel/fs-support/singlefilefs.c:209-228 | the return probe removes the slot of this thread and no other |
| Slots.SlotTable.PeriodicSweep | src/kernel/fs-support/singlefilefs.c:137-164 | a sweep removes exactly the slots of dead threads in its buckets, stays within the table, and moves the cursor as shipped |
| Slots.ShippedCoverage | src/kernel/fs-support/singlefilefs.c:137-161 | with the shipped cursor a bucket is swept, from any run on, exactly if it lies in some range from 50 (2^k - 1) to 50 2^k, and then in every cycle |
| Slots.ShippedCycle | src/kernel/fs-support/singlefilefs.c:137-161 | in numbers: buckets 0 to 49, 50 to 99 and 150 to 199 are swept by the first three runs of every cycle, 100 to 149 and 200 to 349 never |
| Slots.ShippedMissesBucket | src/kernel/fs-support/singlefilefs.c:157-161 | bucket 100 is never swept |
| Slots.FixedCycle | src/kernel/fs-support/singlefilefs.c:137-161 | with a plain assignment every cycle sweeps every bucket |
| Slots.FixedCoverage | src/kernel/fs-support/singlefilefs.c:137-161 | so from any run on every bucket is swept within two cycles |
| Slots.CursorReturns | src/kernel/fs-support/singlefilefs.c:157-161 | under either update the cursor is back at 0 after boundedly many sweeps |
| Epochs.EventKeeps | src/kernel/mounts.c:35-106 | every event keeps epochs in one place each, in order of age, and the queue in order |
| Epochs.NoUseAfterDestroy | src/kernel/devices.c:84-146 | no item, waiting or running, points into a destroyed epoch |
| Epochs.ExactlyOnePlace | src/kernel/include/devices.h:19-31 | every epoch created is exactly one of current, queued for cleanup, held by a teardown or destroyed, and destroyed at most once |
| Epochs.NothingQueuedAfterTeardown | src/kernel/snapshot.c:623-630 | once a teardown is due nothing is put on the workqueue any more |
| Epochs.FlushCoversAll | src/kernel/devices.c:84-88 | items finish in the order they were accepted, and the flush waits for every item accepted |
| Epochs.HistoryOrdered | src/kernel/mounts.c:84-103 | over the whole history of a workqueue no item of an epoch was accepted behind the epoch's cleanup |
| Epochs.TornDownDestroysAll | src/kernel/devices.c:84-98 | after a teardown all epochs are destroyed but a current one, if there is one |
| Epochs.BusyUmountSafe | src/kernel/mounts.c:84-103 | with a request under way an umount keeps the queue in order if and only if it is not the last one |
| Epochs.BusyUmountUsesDestroyedEpoch | src/kernel/snapshot.c:542-579 | otherwise the request is served from a destroyed epoch |
| Epochs.MountCounter | src/kernel/mounts.c:35-106 | before deactivation the counter is the running sum of mounts and umounts above its least value so far, and epochs start exactly where it rises from 0 to 1 |
| Devices.ObjectData.OnMount | src/kernel/mounts.c:35-68 | the mount callback on the object |
| Devices.ObjectData.OnUmount | src/kernel/mounts.c:71-106 | the umount callback on the object, with the cleanup item of the last umount |
| Devices.ObjectData.MakeSnapshot | src/kernel/snapshot.c:611-633 | a request is queued exactly if there is an epoch and the workqueue is not going away |
| Devices.ObjectData.RunNext | src/kernel/mounts.c:26-32 | the worker finishes the first item; a cleanup destroys its epoch |
| Devices.ObjectData.CleanupObjectData | src/kernel/devices.c:109-146 | the object gives up its epoch to the teardown and refuses work from then on |
| Devices.ObjectData.WaitAndDestroy | src/kernel/devices.c:84-98 | the teardown finishes every accepted item before it destroys the queue and then the last epoch |
| Devices.Worklist.AddAndSweep | src/kernel/devices.c:148-168 | the node is added and exactly the nodes whose work is over are freed, in order |
| Devices.SweepCounts | src/kernel/devices.c:148-168 | adding and sweeping loses no node and frees none twice |
| Devices.ListedAreBusy | src/kernel/devices.c:148-168 | listing a node leaves no finished node on the worklist and frees exactly those that were |
| Devices.SysEventKeeps | src/kernel/devices.c:492-560 | every event of every device keeps one node per deactivated device |
| Devices.SysReachedInv | src/kernel/devices.c:479-560 | every device of the system lives through a run of its own |
| Devices.ExitDestroysEverything | src/kernel/devices.c:625-644 | when the exit is done each device's teardown is flushed and over, its node freed once, its items done in order and no epoch destroyed twice; all are destroyed if and only if no mount event came after its deactivation |
| Devices.ExitCompletes | src/kernel/devices.c:625-644 | from every state after the start of the exit it can be completed by events that wait for nobody |
| Devices.LeftoverIffLateMount | src/kernel/mounts.c:35-44 | a deactivated device has an epoch again if and only if a mount event came after the deactivation |
| Devices.LateMountLeak | src/kernel/mounts.c:35-44 | a run of five events after which the teardown is over and the epoch of the late mount is not destroyed |
| Request.StrTrim | src/kernel/activation.c:62-62 | trimming in place leaves the trimmed string at the returned position |
| Request.TrimIsMiddle | src/kernel/activation.c:62-65 | what trimming removes is all blanks, and nothing blank remains at either end |
| Request.ParseCallArgs | src/kernel/activation.c:50-71 | although it overwrites the buffer, the parse yields the path and password of the original buffer, or fails exactly as specified |
| Request.ParsesExactly | src/kernel/activation.c:51-65 | a buffer is accepted if and only if it ends in NUL and has a carriage return with no NUL, but some text that is not blank, in front of it |
| Request.ParsedParts | src/kernel/activation.c:55-68 | then the path is that text without the blanks around it, and the password what follows up to the first NUL |
| Request.Concat | src/user/activation.c:25-37 | the buffer is path, carriage return, password, NUL |
| Request.RequestRoundTrip | src/user/activation.c:109-129 | for every path and password that pass the tool's checks, the kernel reads the trimmed path and the unchanged password, and refuses only a blank path |
| Request.PasswordNeedsPathCheck | src/user/activation.c:120-128 | the password arrives unchanged if and only if the path has no carriage return |

## Left out

- Snapblocks.FileLookup: needs its scan to be finite, because the C loop is not on every file; `Snapblocks.ScanEndsSoonOrNever` bounds every finite scan.
- Restore.Tool.DoRestore: needs its run to be finite for the same reason; the device has a fixed size, as a block device does, and does not grow as an image file would.
- Restore.Tool.Read: a `read` that returns an error is not modelled; reads of a regular file are short only at its end.
- Restore.Tool.RestoreRawBlocks: a failing `malloc` and a failing `read`, which make the source skip the payload and go on (src/user/restore.c:72-84), are not modelled.
- Restore.RestoreFittingLog: the confirmed records fit, which is the exact condition of `RestorePlaces.InPlaceExactly`; what is written otherwise `RestorePlaces.RestoredBytes` says.
- Worker.LogFileIsFirstOf: the room is the same for all works; of room that grows later the lemmas on torn and failed writes speak.
- SingleFile.OneFileFs.Write: failing reads of existing blocks are not modelled (neither is the second `inode_lock` on that path, demo/SINGLEFILE-FS/file.c:89).
- SingleFile.OneFileFs.Read: failing reads of existing blocks are not modelled.
- SingleFile.OneFileFs.ClientWrite: the file system without the module; on an activated device the call that would fail at the maximum size faults instead.
- Slots.SlotTable.OnBread: what the kernel does after the fault is not modelled.
- Recovery.CaptureIsPreImage: block reads of the writer's own thread between its two probes are not steps of the machine; `Recovery.StrayReadExactly` and `Recovery.StrayReadRecovers` say what they do.
- Recovery.RecoversFirstMount: one epoch without deactivation; what is written after a deactivation is not captured, by design.
- Request.ParseCallArgs: the buffer is not empty, as the last byte is read without asking.
- Directory and file creation for the log (src/kernel/snapshot.c:47-230, 304-353) and path reference counts: the log of an epoch starts as a fresh, empty file.
- The hash functions: arbitrary functions into the table, so every collision pattern is covered.
- Mount-flag classification and probe registration (src/kernel/mounts.c:139-343): only the resulting mount and umount events.
- Loop backing files and device lookup keys (src/kernel/devices.c:264-348): devices are numbers.
- RCU, spinlock and workqueue internals: atomic steps, and a first-in first-out queue with one running item.
- Objects that lose the race for registration (src/kernel/devices.c:437-446): never visible to other threads.
- The mount date of an epoch, passwords and authentication, option parsing, printing.
