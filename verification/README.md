# PowerFS: verified models of the storage engine, the cache engine and the allocator

PowerFS is a distributed file system written in Rust. This project models its most stateful parts in Dafny and
proves what they promise. Every operation is written the way the original is: objects whose fields are updated
step by step are classes, loops are loops, and code made of expressions is functions. A class method is proved
against a function or a property of the old state, and the main results are lemmas about those functions and
methods about whole runs.

`dafny verify dfyconfig.toml` checks everything.

## What is modelled

* **Volume** (`Needle.dfy`, `VolumeModel.dfy`, `Volume.dfy`, `Compaction.dfy`, `VolumeRuns.dfy`, `Restart.dfy`): the
  append-only data file as bytes, the needle codec, the index rows, the write-back dirty buffer, the space account,
  in-place compaction, reopening after a restart and the file-key high-water mark. The volume refines a map from
  needle ids to bytes over every run.
* **Needle locks** (`NeedleLocks.dfy`, `LocksRefine.dfy`): the striped per-needle lock and the inner append lock as a
  state machine of micro-steps of any number of threads. No update is lost, someone can always move, and an operation
  that runs alone does what the volume model says.
* **Key-value cache** (`KvBlocks.dfy`, `KvReplication.dfy`, `KvNamespaces.dfy`, `KvGc.dfy`, `KvTracking.dfy`,
  `KvEngine.dfy`, `KvReplay.dfy`, `KvSnapshot.dfy`): buffer pool, memory budget, session-group eviction, versioned replicated commands,
  expiry, and the orphan-needle queue with its worker. Memory accounting, byte fidelity and needle tracking hold over
  every run.
* **Placement and balancing** (`VolumeAssigner.dfy`, `StripePlacement.dfy`, `ShardMap.dfy`, `LoadBalancer.dfy`,
  `MigrationScheduler.dfy`): replica spread over racks or data centers, striping over nodes, the shard table,
  rebalancing decisions, their validation and the migration task machine.
* **Erasure coding and range locks** (`ErasureCode.dfy`, `RangeLocks.dfy`).

Small shared modules: `Bytes.dfy` (byte strings and big-endian integers), `MapSum.dfy` (sums over maps), `Sets.dfy`,
`Options.dfy`.

Checksums are a parameter `ck` about which nothing is assumed, so a collision is always a visible case and never
assumed away. Clocks, the executor of migrations, the needle deletion service and the erasure-code library are
parameters too; the library's promise is the predicate `ErasureCode.Mds`. Identifiers that the original keeps in 64
bits are unbounded numbers except where the width matters: needle sizes, file keys, allocation counters, shard ids and
the grace period are cut, wrapped or saturated as the code does it.

## Where the code does not do what one would expect

Each of these is a lemma or a run below, with the exact condition next to it.

* A payload whose image reaches 4 GiB is written without an error, but the length to read is computed in 32 bits: it
  never reads back as itself, and it can read back as a shorter payload.
* A full write drops the dirty buffer before it knows that there is room, so a failed write loses buffered regions; a
  flush takes the buffer first too, so a failed flush loses what was acknowledged.
* A write to key 0, and the flush of a region buffered under it, go to a key the volume chooses.
* An append is skipped when length and checksum equal those of the live version; a collision keeps the old bytes.
* Compaction does not reopen a full volume, however much it frees; only the deletion of a stored needle does.
* The needle locks hash ids into 256 stripes, but only the low byte of the id decides.
* `next_file_key` wraps to 1 when the mark lies in the last block of the 64-bit space, and a restart after compaction
  forgets deleted ids.
* A block id that is saved again with another fid, and an inline put that names the fid of the marker it overwrites,
  let a needle drop out of both the references and the queue.
* Replaying the log puts a needle that is in use into the orphan queue whenever the log deletes its key or puts another
  needle there under a version that is not older. The worker's reference check keeps it alive.
* That check is made once per round: a needle that nothing refers to is deleted in use when a put or a block mapping
  names it between the check and the deletion.
* A put that comes before the creation of its namespace is dropped, and a replay brings it back when it outranks the
  puts that came later.
* Two namespaces share slots when one id, followed by a colon, is a prefix of the other.
* A leader block stored under an id that was not handed out yet is overwritten by a later put and counted twice.
* A hot migration whose volume list is empty is resolved by the executor, which may name pinned volumes.
* An empty byte range inside a foreign exclusive lock is refused although no byte is shared.
* Shard slices can start past the end of short data; the default small-file cutoff excludes this.

Code and documentation disagree in a few places; the model follows the code. `record_write` (write_coalescer.rs:151-154)
is documented to hand back a buffer when a deadline or budget fires, but does so only when coalescing is disabled. The
shard table's header (shard_map.rs:3-7) says that adding a shard leaves existing inodes where they are; inodes at or
above the split point move. `remove_shard` (shard_map.rs:273) speaks of the previous active entry; the range goes to the
previous entry in whatever state. A task's pause reason (status.rs:117) is documented to be set only while paused; a
canceled task keeps one.

## Model

| member | source | states |
|---|---|---|
| `NeedleCodec.ParseUndoesSerialise` | powerfs-core/src/needle.rs:52-118 | parsing a serialised needle gives it back for exactly the payloads whose length fits the 32-bit size field |
| `NeedleCodec.TruncatedImage` | powerfs-core/src/needle.rs:52-118 | cut to the length its truncated size field calls for, the image of a payload of 4 GiB or more parses as the payload's beginning if the eight bytes after that happen to be its checksum, and as a checksum mismatch otherwise |
| `NeedleCodec.AcceptsExactlyImages` | powerfs-core/src/needle.rs:68-118 | the parser accepts a byte string if and only if it is the image of some needle, checksum included |
| `VolumeModel.StoredIsUnique` | powerfs-core/src/volume.rs:579-630 | the bytes of the file and the index rows determine what every needle holds: two readings of one file agree |
| `VolumeModel.ReadsReturnView` | powerfs-core/src/volume.rs:579-630 | full and region reads return the needle's view -- dirty buffer first, else the parsed needle -- and its clipped slice; unknown needles are missing |
| `VolumeModel.PublishKeepsValid` | powerfs-core/src/volume_metadata.rs:383-460 | writing an image at the append offset and publishing its row keeps images readable, extents disjoint and the space account balanced to the byte -- unless the image is too long for the 32-bit read length, and then nothing can make the volume valid |
| `VolumeModel.FullWriteRefines` | powerfs-core/src/volume.rs:461-577 | for payloads of any length: a successful full write replaces exactly its needle's view if and only if it does not collide with the stored payload in length and checksum; the volume stays valid unless the payload is oversized; out of space shows the stored version; a refused write changes nothing |
| `VolumeModel.WrittenReadsBack` | powerfs-core/src/volume.rs:461-630 | after a successful full write that does not collide, the needle reads back as written if and only if its image is shorter than 4 GiB |
| `VolumeModel.OversizedReads` | powerfs-core/src/volume.rs:579-630 | what an oversized needle reads as: too short, or its beginning when the bytes after that happen to be its checksum, or a checksum mismatch |
| `VolumeModel.ReadAsEmpty` | powerfs-core/src/volume.rs:461-630 | for every checksum there is a payload of exactly 4 GiB that a new volume takes in and reads back as the empty payload |
| `VolumeModel.OthersRead` | powerfs-core/src/volume.rs:461-630 | a full write of any length, successful or not, changes the reading of no other needle |
| `VolumeModel.FailedWriteLoses` | powerfs-core/src/volume.rs:461-577 | an available volume without room for a payload that is not the stored one answers out of space, and the view changes if and only if the needle's dirty buffer differed from what is stored |
| `VolumeModel.FailedWriteLosesByte` | powerfs-core/src/volume.rs:461-577 | a concrete volume in which a failed write loses a buffered byte |
| `VolumeModel.KeyZeroIsRedirected` | powerfs-core/src/volume.rs:470-476 | a write to key 0 that is admitted is found under the counter's key and never under 0, and the counter moves on |
| `VolumeModel.CollisionKeepsTheFirst` | powerfs-core/src/volume.rs:483-506 | for every checksum there are two different payloads that a new volume takes one after the other with success, and then reads back the first |
| `VolumeModel.AppendVersionRefines` | powerfs-core/src/volume.rs:923-1021 | appending a new version of an indexed needle replaces its payload, with the same two conditions, and leaves the dirty buffer alone |
| `VolumeModel.FlushRefines` | powerfs-core/src/volume.rs:382-414 | flushing a dirty buffer changes no view; only a failed or colliding append shows, as a fall-back to the stored version of that one needle |
| `VolumeModel.FlushFails` | powerfs-core/src/volume.rs:382-414 | a flush fails if and only if the volume takes no writes, or the append is neither skipped as identical nor finds room |
| `VolumeModel.FlushLoses` | powerfs-core/src/volume.rs:382-414 | a flush changes the view if and only if it fails or collides and the buffer held something else than what is stored: the acknowledged buffer is gone |
| `VolumeModel.FlushLosesByte` | powerfs-core/src/volume.rs:382-414 | a concrete volume in which a flush loses a buffered byte |
| `VolumeModel.BlobRefines` | powerfs-core/src/volume.rs:1023-1114 | a buffered region write always succeeds and patches exactly its region of the view, with zero extension; the volume stays valid unless the patched payload is oversized |
| `VolumeModel.SynchronousBlobRefines` | powerfs-core/src/write_coalescer.rs:155-296 | with coalescing disabled the merged payload is appended before the call returns, with the same effect on the view; a failed or colliding append changes no view |
| `VolumeModel.DeleteRefines` | powerfs-core/src/volume.rs:632-685 | deletion removes exactly its needle from the view whatever it answers; garbage grows and used bytes shrink by exactly the size of its image, and one more deletion is counted when there was a row |
| `VolumeModel.DeletionReopens` | powerfs-core/src/volume.rs:660-672 | after a deletion a write is refused for the volume's state if and only if it is read-only, being deleted, or was full and did not hold the needle; read-only and deleting volumes stay so |
| `VolumeModel.FullThenDeleted` | powerfs-core/src/volume.rs:510-672 | a concrete volume that is filled, refuses, gives up a needle and takes the next one |
| `VolumeModel.WritesClose` | powerfs-core/src/volume.rs:508-531 | full writes, flushes and region writes close an available volume if and only if they report a lack of space, and move its state in no other way |
| `VolumeModel.CookieAfter` | powerfs-core/src/volume.rs:536-568 | a row carries the cookie of the write that put it there, a new version and a skipped write keep the one before, and a needle first written by a flush has none |
| `VolumeModel.ReadsRowLength` | powerfs-core/src/volume.rs:579-630 | whatever the file holds, a read that succeeds, parsed or through the fallback for a size mismatch, is as long as the row says unless that length wraps |
| `VolumeEngine.Volume.constructor` | powerfs-core/src/volume.rs:166-241 | a new volume is sound, empty and starts appending at the data offset |
| `VolumeEngine.Volume.WriteNeedle` | powerfs-core/src/volume.rs:419-456 | refused as busy exactly while compacting, otherwise value and outcome are those of WriteNowait, for payloads of any length; sound if and only if it fails or the payload is readable |
| `VolumeEngine.Volume.WriteNeedleNowait` | powerfs-core/src/volume.rs:461-577 | step by step invalidate, check, append, publish computes WriteNowait and its outcome |
| `VolumeEngine.Volume.AppendNeedleVersion` | powerfs-core/src/volume.rs:923-1021 | computes AppendVersion and its outcome, errors included |
| `VolumeEngine.Volume.AppendAndPublish` | powerfs-core/src/volume_metadata.rs:383-460 | image, row and counters are installed together: the new volume is Publish of the old one |
| `VolumeEngine.Volume.RecordWrite` | powerfs-core/src/write_coalescer.rs:155-296 | merges a region into the dirty buffer, an existing buffer winning over the supplied base, or hands the merged payload back |
| `VolumeEngine.Volume.WriteNeedleBlob` | powerfs-core/src/volume.rs:1023-1114 | refused as busy exactly while compacting, otherwise value and outcome are those of WriteBlob; a region is patched into the needle's view; sound if and only if the call fails or the patched payload is readable |
| `VolumeEngine.Volume.FlushNeedleIds` | powerfs-core/src/volume.rs:1266-1302 | value and count are those of flushing the sorted, deduplicated ids one after the other; exactly the appends that fail in their turn and those that collide show in the view; with room for all the buffers none fails, and without collisions no view changes |
| `VolumeEngine.Volume.DeleteNeedle` | powerfs-core/src/volume.rs:632-685 | value and outcome are those of Delete: the needle leaves the contents and the row moves to the deleted records; a full volume that held the needle is available again and any other keeps its state |
| `VolumeEngine.Volume.Compact` | powerfs-core/src/volume.rs:795-878 | the volume is that of flushing all dirty ids in some order, slid down in offset order and cleaned up; with room for all the buffers no append fails, and without collisions every needle reads as before; live extents are packed; the bytes reclaimed are the old garbage plus the stored versions that the flush replaced; no deletion is counted any more, and with nothing to flush the state is kept |
| `VolumeEngine.FlushSeqRefines` | powerfs-core/src/volume.rs:1266-1302 | flushing one needle after the other keeps the volume valid, fails for exactly the needles whose append fails in its turn, and stores each other buffer |
| `VolumeEngine.FlushSeqFits` | powerfs-core/src/volume.rs:1266-1302 | when the file has room for all the buffers together, no append of the list fails |
| `VolumeEngine.FlushSeqWastes` | powerfs-core/src/volume.rs:1266-1302 | the garbage grows by exactly the stored versions that were replaced |
| `VolumeEngine.FlushSeqView` | powerfs-core/src/volume.rs:1266-1302 | seen from outside a flush of many needles shows only failed and colliding appends |
| `Compaction.SlideKeepsStored` | powerfs-core/src/volume.rs:812-862 | sliding live needles down in offset order inside one file never overwrites one still to be moved: every stored payload survives |
| `Compaction.SlideKeepsImage` | powerfs-core/src/volume.rs:812-862 | an image that is readable stays so through the slide whatever the lengths of the needles around it |
| `Compaction.SlideTouches` | powerfs-core/src/volume.rs:812-862 | sliding changes nothing of a row but its offset, and only of the needles moved |
| `Compaction.SlidePacks` | powerfs-core/src/volume.rs:812-862 | afterwards the live needles lie back to back from the data offset |
| `Compaction.SlideIdle` | powerfs-core/src/volume.rs:812-862 | compaction copies nothing if and only if the needles are packed already |
| `Compaction.CompactRefines` | powerfs-core/src/volume.rs:795-878 | views kept, packed layout, reclaimed bytes equal to the old end minus the new one and to the accounted garbage, full invariant re-established; deleted rows forgotten, state and mark kept |
| `Compaction.SlideCounts` | powerfs-core/src/volume.rs:795-878 | the count of moved needles is that of the needles whose offset changed |
| `Compaction.GarbageFreeIsPacked` | powerfs-core/src/volume.rs:795-878 | a volume without garbage has no gap: its needles are packed |
| `Compaction.GarbageFreeIsIdle` | powerfs-core/src/volume.rs:795-878 | so a second compaction right after the first moves nothing |
| `Compaction.CompactionRestoresSpace` | powerfs-core/src/volume.rs:795-878 | after compaction an available volume admits a write exactly when it fits the logical free space; a volume marked full stays full |
| `VolumeRuns.StepRefines` | powerfs-core/src/volume.rs:419-1114 | with coalescing on or off, a command keeps the volume valid if and only if it takes in no oversized payload; it then does what was asked whenever its guard holds, and leaves every needle it does not name as it was |
| `VolumeRuns.RunRefines` | powerfs-core/src/volume.rs:419-1302 | with coalescing on or off, over every run of writes, region writes, flushes, deletions and compactions that takes in no oversized payload, a needle none of whose own commands failed or collided holds what the same commands do to a plain map from ids to bytes, whatever became of the others |
| `VolumeRuns.RunFrames` | powerfs-core/src/volume.rs:419-1302 | a needle no command of a run names reads as before, whether or not any command failed and whatever the payloads were |
| `VolumeRuns.StateMoves` | powerfs-core/src/volume.rs:419-1114 | the volume's state machine under every command: lack of room closes it, deletion of a stored needle opens it again, nothing else does either |
| `VolumeRuns.FullUntilRemoved` | powerfs-core/src/volume.rs:419-1302 | a full volume stays full over every run that removes nothing |
| `VolumeRuns.CompactionLeavesClosed` | powerfs-core/src/volume.rs:795-878 | even when compaction has made every free byte writable, the next write is refused |
| `Restart.ScanEnds` | powerfs-core/src/volume_metadata.rs:299-346 | the furthest end over all rows, cut off at 64 bits, in one pass |
| `Restart.SyncAllocation` | powerfs-core/src/volume.rs:267-330 | whatever the stored counters were, nothing live -- and nothing deleted -- lies past the rebuilt append offset if and only if those extents end within 64 bits; used and free are recomputed from the rows |
| `Restart.DisjointFits` | powerfs-core/src/volume.rs:267-330 | disjoint live extents are together no longer than the span they lie in |
| `Restart.RecoverMaxId` | powerfs-core/src/volume_metadata.rs:270-297 | the high-water mark is the largest id among live and deleted rows |
| `Restart.Reopen` | powerfs-core/src/volume.rs:166-330 | reopening a volume whose file and rows are in order re-establishes the whole volume invariant if and only if the stored append offset does not lie past the end of the volume |
| `Restart.ReopenAfterCrash` | powerfs-core/src/volume.rs:536-568 | after a crash between the file write, whole or torn, and the index batch, reopening gives a valid volume that holds what was stored |
| `Restart.NextFileKeyExact` | powerfs-core/src/volume.rs:257-265 | the next key is the least 1 + n*BLOCK above the mark, except that it wraps to 1 exactly when the mark lies in the last block of the 64-bit space |
| `Restart.NextBlockIsUnused` | powerfs-common/src/constants.rs:32-38 | below the wrap the block handed out next is disjoint from the block of every id up to the mark |
| `Restart.NextFileKeyMonotone` | powerfs-core/src/volume.rs:257-265 | a higher mark never gives a lower key below the wrap |
| `Restart.RunHighWater` | powerfs-core/src/volume.rs:257-265 | over every run the mark never falls and is the largest id ever stored, deleted or not |
| `Restart.RunNextKey` | powerfs-core/src/volume.rs:257-265 | below the wrap the next key after a run is above every id ever stored, no lower than before, and from an unused mark the least block start that is |
| `Restart.NewIsTight` | powerfs-core/src/volume.rs:166-240 | the mark of a new volume is the largest id that has a row, which RestartRecovers builds on |
| `Restart.RestartRecovers` | powerfs-core/src/volume_metadata.rs:270-297 | over every run without compaction each needle ever stored keeps a row, live or deleted, so that a restart recovers exactly the mark the volume had |
| `Restart.RestartKeepsKey` | powerfs-core/src/volume.rs:257-330 | a restart keeps the next key if and only if some surviving row lies in the block of the mark |
| `Restart.RestartForgets` | powerfs-core/src/volume_metadata.rs:613-654 | when no row survives, a restart hands the first block out again |
| `Restart.RestartForgetsRun` | powerfs-core/src/volume.rs:632-878 | it happens: store a needle in a new volume, remove it, compact and restart |
| `NeedleLocks.StepKeepsInv` | powerfs-core/src/volume.rs:24-76 | every micro-step of every thread keeps: stripes held by the right thread, one thread appending, what each thread saw still true, every needle on its way to its expected content |
| `NeedleLocks.NoLostUpdate` | powerfs-core/src/volume.rs:382-456 | in every interleaving of any number of blob writers, full writers and flushers, with coalescing on or off, a quiescent needle holds its operations applied in lock-acquisition order, even when unrelated ids share a stripe, unless one of its own appends failed, collided or was oversized |
| `NeedleLocks.RegionSurvives` | powerfs-core/src/volume.rs:1040-1114 | a region followed only by flushes and disjoint regions is there to the last byte |
| `NeedleLocks.DisjointWritersSurvive` | powerfs-core/src/volume.rs:1040-1114 | concurrent writers of disjoint regions of one needle all survive |
| `NeedleLocks.SomeoneCanMove` | powerfs-core/src/volume.rs:64-76 | no deadlock: while a thread is inside, some thread can take a step that brings it closer to the end of its critical section |
| `NeedleLocks.BucketIsLowByte` | powerfs-core/src/volume.rs:63-68 | two needles share a lock stripe if and only if their ids agree modulo 256 |
| `LocksRefine.FullAlone` | powerfs-core/src/volume.rs:419-577 | a full write that runs alone through the micro-steps, its append refused when the volume refuses it, does what WriteNowait does |
| `LocksRefine.FlushAlone` | powerfs-core/src/volume.rs:382-414 | a flush that runs alone does what FlushOne does |
| `LocksRefine.RegionAlone` | powerfs-core/src/volume.rs:1023-1114 | a region write that runs alone does what WriteBlob does, with coalescing on or off |
| `KvReplication.PutsConverge` | powerfs-core/src/kv_cache.rs:1287-1356 | replicas that apply the same puts to a key in any order and with repetitions end in the slot of the largest version, when no two different puts share a version |
| `KvReplication.TwoPutsCommute` | powerfs-core/src/kv_cache.rs:1304-1311 | two puts to one key commute if and only if their versions differ, they write the same slot, or the key is newer than both |
| `KvReplication.KeyReplays` | powerfs-core/src/kv_cache.rs:1287-1417 | one key: folding a log of puts and deletions twice is folding it once, from any start and for any versions |
| `KvReplication.LogReplays` | powerfs-core/src/kv_cache.rs:1287-1417 | all keys: applying any whole log of puts and deletions a second time changes no slot |
| `KvReplication.FoldWins` | powerfs-core/src/kv_cache.rs:1287-1417 | what any log leaves in a key: the slot it builds on, when that is newer than every put no later deletion takes back, and otherwise exactly the bytes or the reference, the owner and the version of the last put of the largest version |
| `KvReplication.PutStores` | powerfs-core/src/kv_cache.rs:1287-1356 | a put to a known namespace whose slot holds no larger version leaves its own bytes, or its own fid and size, with its owner and version in the slot of its key; any other put changes nothing |
| `KvReplication.DeletionRemoves` | powerfs-core/src/kv_cache.rs:1380-1417 | a deletion takes away the slots of its keys and of no others |
| `KvReplication.NamespacesCollide` | powerfs-core/src/kv_cache.rs:1304-1304 | two different namespaces share a slot key if and only if one id followed by a colon is a prefix of the other |
| `KvReplication.SlotKeysCollide` | powerfs-core/src/kv_cache.rs:1304-1304 | two (namespace, key) pairs share a slot if and only if they are equal or one key begins with the rest of the other's namespace id and a colon |
| `KvReplication.ColonsCollide` | powerfs-core/src/kv_cache.rs:1304-1304 | a concrete collision |
| `KvNamespaces.EarlyPutsSurface` | powerfs-core/src/kv_cache.rs:1287-1445 | any log that also creates namespaces, any key: replaying it changes the key if and only if a put that came before its namespace outranks every other standing put, is not older than what the first pass left, and says something else |
| `KvNamespaces.OwnNamespaceReplays` | powerfs-core/src/kv_cache.rs:1287-1445 | when the key belongs to one namespace, the same is decided by the log and the first slot alone: replaying changes the key if and only if an early put outranks every other standing put, is not older than the slot the log builds on, and is not that slot |
| `KvNamespaces.LogReplaysUnlessEarly` | powerfs-core/src/kv_cache.rs:1287-1445 | all keys: replaying a log with creations changes no slot if and only if no early put surfaces in any key |
| `KvNamespaces.EarlyPutIsKeptLate` | powerfs-core/src/kv_cache.rs:1298-1302 | the shortest such log run twice: a put before the creation of its namespace is dropped by the first pass and kept by the second |
| `KvGc.EnqueueAllAdds` | powerfs-core/src/kv_cache.rs:1740-1762 | queueing adds exactly the given fids, loses nothing and keeps fids unique |
| `KvGc.Due` | powerfs-core/src/kv_cache.rs:1819-1826 | the entries past their saturating grace period and no others; the queue itself is only read |
| `KvGc.Complete` | powerfs-core/src/kv_cache.rs:1829-1837 | every entry of another fid stays, every entry of this fid goes |
| `KvGc.CompleteFids` | powerfs-core/src/kv_cache.rs:1829-1837 | completing removes exactly that fid from the queued fids |
| `KvGc.CompleteStaysDeduped` | powerfs-core/src/kv_cache.rs:1829-1837 | a queue without duplicates stays one |
| `KvTracking.RemapLeaks` | powerfs-core/src/kv_cache.rs:1557-1583 | installing a mapping keeps every needle referenced or queued if and only if the fid it displaces is not owed or is still held elsewhere |
| `KvTracking.RemapLosesNeedle` | powerfs-core/src/kv_cache.rs:1557-1583 | a block id that moves to another fid loses the first needle from sight: a concrete case |
| `KvTracking.PutLeaks` | powerfs-core/src/kv_cache.rs:1313-1356 | a put keeps every needle in sight if and only if it does not replace a marker by inline bytes while naming that marker's fid, or that fid is held elsewhere |
| `KvTracking.InlinePutLosesNeedle` | powerfs-core/src/kv_cache.rs:1313-1356 | a concrete inline put that loses a needle from sight |
| `KvTracking.DeleteTracks` | powerfs-core/src/kv_cache.rs:1386-1417 | removing slots after queueing their fids loses no needle |
| `KvTracking.UnmapTracks` | powerfs-core/src/kv_cache.rs:463-514 | removing mappings after queueing their fids loses no needle |
| `KvTracking.QueuedByKey` | powerfs-core/src/kv_cache.rs:1313-1417 | a command queues a needle if and only if it takes it out of some key's slot by a deletion or a put of another fid that is not turned away |
| `KvTracking.QueuesLiveAt` | powerfs-core/src/kv_cache.rs:1287-1417 | position by position: where exactly the second pass over any log queues the needle a key ends up with |
| `KvTracking.ReplayQueuesLive` | powerfs-core/src/kv_cache.rs:1287-1417 | replaying a log leaves the key alone and queues its needle somewhere if and only if the log deletes the key or puts another fid under a version that is not older than the final one |
| `KvTracking.ReplayQueuesLiveNeedle` | powerfs-core/src/kv_cache.rs:1386-1417 | by a deletion: put, delete, put again, replayed once more |
| `KvTracking.ReplayQueuesRival` | powerfs-core/src/kv_cache.rs:1313-1356 | without a deletion: two puts of one version, replayed once more |
| `KvBlocks.EvictionKeepsIdentity` | powerfs-core/src/kv_cache.rs:915-942 | any eviction run keeps every id, session, size, fid and pin, touches only resident blocks that are not hard-pinned, and takes nothing but their bytes |
| `KvBlocks.EvictionTakesWholeGroups` | powerfs-core/src/kv_cache.rs:915-942 | an evicted block takes its whole session-and-pin group with it |
| `KvBlocks.SoftOnlyAfterUnpinned` | powerfs-core/src/kv_cache.rs:880-913 | a softly pinned block goes only when no unpinned block is left that could be chosen |
| `KvBlocks.EvictedGroupsAreColdest` | powerfs-core/src/kv_cache.rs:880-913 | the oldest access of an evicted group is no more recent than any access of a surviving block of the same pin mode |
| `KvEngine.FindVictim` | powerfs-core/src/kv_cache.rs:880-913 | one pass in any order finds the group that has to go next, or that nothing can go |
| `KvEngine.KVCacheEngine.constructor` | powerfs-core/src/kv_cache.rs:319-346 | an empty engine satisfies memory accounting, listing and needle tracking |
| `KvEngine.KVCacheEngine.Allocate` | powerfs-core/src/kv_cache.rs:260-267 | a pooled or new buffer of exactly the block size |
| `KvEngine.KVCacheEngine.Deallocate` | powerfs-core/src/kv_cache.rs:269-277 | a buffer goes back, an empty one is not pooled, so every pooled buffer keeps the block size |
| `KvEngine.KVCacheEngine.EvictOneGroup` | powerfs-core/src/kv_cache.rs:915-942 | releases exactly the group; buffers plus resident blocks stay the same in number, used bytes fall by the bytes freed |
| `KvEngine.KVCacheEngine.EvictLru` | powerfs-core/src/kv_cache.rs:873-957 | terminates, follows the eviction order, evicts no group beyond the need, and fails only when nothing evictable is left; hard-pinned blocks are untouched, and every eviction counted has given one buffer back |
| `KvEngine.KVCacheEngine.EnsureMemory` | powerfs-core/src/kv_cache.rs:864-871 | nothing is evicted when the request fits; otherwise it succeeds if and only if the groups that went held as many bytes as it needs, and then fits the budget; it fails only when nothing evictable is left |
| `KvEngine.KVCacheEngine.PutBlock` | powerfs-core/src/kv_cache.rs:538-630 | stores the bytes under the next id within the budget with the session's time to live, the given fid and pin, accessed now; the session lists the id and is touched; the counters are right afterwards if and only if no block was under that id, which holds where every id came from the allocator; failure means an unknown session or nothing evictable, and changes nothing but residency |
| `KvEngine.HardBlockStays` | powerfs-core/src/kv_cache.rs:538-957 | a block put with a hard pin is read back byte for byte, as far as a buffer holds it, after any number of evictions of any size |
| `KvEngine.KVCacheEngine.AllocBlockId` | powerfs-core/src/kv_cache.rs:632-634 | ids are handed out once and belong to no block or mapping |
| `KvEngine.KVCacheEngine.StoreLeaderBlock` | powerfs-core/src/kv_cache.rs:1593-1690 | for any id: a repeated store changes nothing; a first one stores and counts the bytes with the metadata a put gives them and lists the id in its session once; all ids in use are then below the allocator or this id; needle tracking survives when the id keeps its fid |
| `KvEngine.ReusedIdIsCountedTwice` | powerfs-core/src/kv_cache.rs:538-630 | a run in which a leader block is stored under an id not handed out yet, the next put overwrites it, and one block is counted as two |
| `KvEngine.KVCacheEngine.GetBlockData` | powerfs-core/src/kv_cache.rs:721-745 | nothing exactly when the block is absent or evicted; otherwise the very bytes stored for that id, as far as they fit a buffer, never leftovers of another block; the read moves the last access to now and nothing else |
| `KvEngine.KVCacheEngine.CreateSession` | powerfs-core/src/kv_cache.rs:398-448 | refused exactly for an existing session |
| `KvEngine.KVCacheEngine.RemoveBlock` | powerfs-core/src/kv_cache.rs:480-494 | bytes are accounted and the buffer returned exactly when the block is resident; saturating subtraction never saturates |
| `KvEngine.KVCacheEngine.DeleteSession` | powerfs-core/src/kv_cache.rs:450-517 | removes exactly the listed blocks and mappings and queues the fids those ids were mapped to |
| `KvEngine.KVCacheEngine.ExpireSessions` | powerfs-core/src/kv_cache.rs:965-985 | deletes exactly the sessions whose time to live is over |
| `KvEngine.KVCacheEngine.ExpireBlocks` | powerfs-core/src/kv_cache.rs:987-1044 | drops exactly the blocks past their time to live from every index and queues their fids |
| `KvEngine.KVCacheEngine.CleanupExpired` | powerfs-core/src/kv_cache.rs:959-1047 | a session goes if and only if its time to live has passed since its last access, and no block is left that was last accessed longer ago than its own; exactly the dead sessions with what they list and the dead blocks are gone, and the count is theirs |
| `KvEngine.KVCacheEngine.ApplySaveBlocks` | powerfs-core/src/kv_cache.rs:1557-1583 | maps and lists exactly the saved ids, moves the allocator past them, and keeps needle tracking when every id keeps one fid |
| `KvEngine.KVCacheEngine.ApplyKvPut` | powerfs-core/src/kv_cache.rs:1287-1356 | a put that is accepted leaves its own bytes or reference, owner and version in its slot, any other changes no slot; the displaced needle is queued; needle tracking survives if and only if the condition of PutLeaks holds |
| `KvEngine.KVCacheEngine.ApplyKvDeleteKeys` | powerfs-core/src/kv_cache.rs:1386-1417 | removes exactly the keys' slots and queues each of their fids once |
| `KvEngine.KVCacheEngine.ApplyCreateNamespace` | powerfs-core/src/kv_cache.rs:1421-1445 | adds the namespace and nothing else |
| `KvEngine.KVCacheEngine.ApplyGcEnqueue` | powerfs-core/src/kv_cache.rs:1740-1762 | the queue becomes EnqueueAll of the old one |
| `KvEngine.KVCacheEngine.GcTick` | powerfs-master/src/master.rs:5024-5085 | a candidate leaves the queue if and only if its grace period is over, no slot and no mapping names it, and its deletion was confirmed or is impossible; a needle in use is never reclaimed |
| `KvReplay.Apply` | powerfs-master/src/master.rs:852-946 | one replicated command keeps memory accounting, listing and needle tracking; a put leaves its own payload, owner and version in its slot exactly when it is accepted; namespaces, deletions and block mappings change as the command says |
| `KvReplay.Replay` | powerfs-master/src/master.rs:846-949 | replaying any log keeps all invariants; slots and namespaces are exactly those of the log's puts, deletions and creations run in order |
| `KvReplay.Serve` | powerfs-core/src/kv_cache.rs:398-1837 | over every run of puts, stores, reads, evictions, sweeps, collections and replicated commands from an empty engine, used bytes are the resident bytes within the budget, every block is listed and holds its own bytes, and no fid is lost from sight |
| `KvSnapshot.SnapshotGoesStale` | powerfs-master/src/master.rs:5024-5085 | any events between look-up and deletion -- slot commands, namespace creations, mapped and unmapped block ids: a needle nothing referred to is in use by the time it is deleted if and only if an id was mapped to it for good, or a heard put named it and had the last word on its key |
| `KvSnapshot.SavesAreMaps` | powerfs-core/src/kv_cache.rs:1557-1583 | a replicated save is such a sequence of mappings |
| `KvSnapshot.SaveComesLate` | powerfs-master/src/kv_cache_service.rs:499-520 | a concrete round that deletes a needle which a late save has mapped |
| `KvSnapshot.PutComesLate` | powerfs-core/src/kv_cache.rs:1287-1356 | a concrete put into a namespace created in between that does the same |
| `VolumeAssigner.Score` | powerfs-allocator/src/volume_assigner.rs:79-108 | exactly the ready, healthy, soft-error and slow nodes outside maintenance have a score, between 0 and 1 |
| `VolumeAssigner.BetterScoresHigher` | powerfs-allocator/src/volume_assigner.rs:79-108 | of two eligible nodes the one that is better in state, free part or number of volumes, and worse in none, scores strictly higher |
| `VolumeAssigner.Worth` | powerfs-allocator/src/volume_assigner.rs:79-108 | what the factors are worth: the best node scores 1, ready costs a tenth, soft errors two fifths, slowness half a percent a degree, a full disk half, a hundred volumes fifteen percent |
| `VolumeAssigner.SortDescends` | powerfs-allocator/src/volume_assigner.rs:130-130 | the candidates are sorted best first |
| `VolumeAssigner.SortPermutes` | powerfs-allocator/src/volume_assigner.rs:130-130 | sorting loses and duplicates no candidate |
| `VolumeAssigner.SortStable` | powerfs-allocator/src/volume_assigner.rs:130-130 | nodes of equal score keep the order they came in |
| `VolumeAssigner.SpreadingPush` | powerfs-allocator/src/volume_assigner.rs:144-178 | the key invariant: once a zone is used twice, open places are at least as many as unselected candidates in unused zones, and a pick keeps this |
| `VolumeAssigner.SpreadingEnds` | powerfs-allocator/src/volume_assigner.rs:144-190 | when places or candidates run out, the zones covered are min(count, zones of the candidates) |
| `VolumeAssigner.AssignWithContext` | powerfs-allocator/src/volume_assigner.rs:110-194 | min(count, eligible ids) distinct eligible nodes, the preferred one first; exactly min(count, eligible racks) racks -- or data centers -- covered when one of the two is asked for; when neither is, no node left out scores higher than a chosen one, outdoes it, or has more free space while otherwise equal |
| `ShardMap.OwnerRoutes` | powerfs-allocator/src/shard_map.rs:138-148 | the entry whose range holds the inode, or the first or last beyond the ranges, is the one routing finds |
| `ShardMap.OneOwner` | powerfs-allocator/src/shard_map.rs:138-148 | no inode has two owners |
| `ShardMap.SplitSound` | powerfs-allocator/src/shard_map.rs:190-232 | a split that passes the checks keeps ranges non-empty, contiguous and uniquely owned |
| `ShardMap.SplitReroutes` | powerfs-allocator/src/shard_map.rs:190-232 | a split reroutes exactly the inodes of the split shard at or above the split point |
| `ShardMap.DrainReroutes` | powerfs-allocator/src/shard_map.rs:235-250 | draining reroutes nothing |
| `ShardMap.RemoveReroutes` | powerfs-allocator/src/shard_map.rs:258-287 | a removal reroutes exactly the removed shard's inodes, all to its predecessor, or successor if it was first |
| `ShardMap.SplitDrainRemove` | powerfs-allocator/src/shard_map.rs:190-287 | splitting a shard off, draining and removing it restores the exact table |
| `ShardMap.PlanSucceeds` | powerfs-allocator/src/shard_map.rs:397-431 | a plan carried out at once succeeds if and only if the range has two inodes and the counted-up id did not wrap onto a used one |
| `ShardMap.PlanHalves` | powerfs-allocator/src/shard_map.rs:415-431 | a plan halves the range to within one inode, and exactly the inodes of the range it names move to the new shard when it is carried out |
| `ShardMap.Largest` | powerfs-allocator/src/shard_map.rs:319-326 | the last of the largest active ranges |
| `ShardMap.SnapshotRestores` | powerfs-allocator/src/shard_map.rs:119-134 | rebuilding from a snapshot in any order gives the same table |
| `ShardMap.StepSound` | powerfs-allocator/src/shard_map.rs:190-468 | every operation, plans of any age included, keeps the table sound |
| `ShardMap.RunSound` | powerfs-allocator/src/shard_map.rs:190-468 | so does every run of operations |
| `ShardMap.StepReroutes` | powerfs-allocator/src/shard_map.rs:190-468 | in any step an inode moves only from an active shard to a brand-new one, or at a removal from the removed shard to its heir |
| `ShardMap.NoSaturation` | powerfs-allocator/src/shard_map.rs:80-99 | for every shard count the saturating end of a range is the exact sum |
| `ShardMap.Map.FromShardCount` | powerfs-allocator/src/shard_map.rs:79-103 | equal ranges from 0, one per shard, sound for every 64-bit count |
| `ShardMap.PerShardIs` | powerfs-allocator/src/shard_map.rs:79-103 | a million inodes each whenever that fits 64 bits, otherwise the most that does |
| `ShardMap.Map.FromEntries` | powerfs-allocator/src/shard_map.rs:119-134 | the entries of the snapshot in ascending order of range start, and the very table whose snapshot it was when that was sound |
| `ShardMap.Map.Route` | powerfs-allocator/src/shard_map.rs:138-148 | binary search gives what linear containment search gives, clamped outside the ranges |
| `ShardMap.Map.AddShard` | powerfs-allocator/src/shard_map.rs:190-232 | the table becomes the split one, or the first failing check is reported and nothing changes |
| `ShardMap.Map.ExecuteAddShard` | powerfs-allocator/src/shard_map.rs:362-365 | any plan, however stale, either fails with the table unchanged or splits a still valid range |
| `ShardMap.Map.AddShardAuto` | powerfs-allocator/src/shard_map.rs:375-386 | a dry run plans without a change; otherwise plan and split are one step |
| `ShardMap.Map.DrainShard` | powerfs-allocator/src/shard_map.rs:235-250 | an active shard becomes draining, everything else is reported as not found |
| `ShardMap.Map.RemoveShard` | powerfs-allocator/src/shard_map.rs:258-287 | only a draining shard is removed; its range goes to its neighbour |
| `LoadBalancer.PickTarget` | powerfs-allocator/src/load_balancer.rs:157-175 | a least used target, if there is any |
| `LoadBalancer.PickTargetFirst` | powerfs-allocator/src/load_balancer.rs:157-175 | and the first among equals |
| `LoadBalancer.BusiestIsLast` | powerfs-allocator/src/load_balancer.rs:197-201 | the last of the busiest nodes |
| `LoadBalancer.IdlestIsFirst` | powerfs-allocator/src/load_balancer.rs:202-206 | the first of the idlest nodes |
| `LoadBalancer.ClusterNearFull` | powerfs-allocator/src/load_balancer.rs:236-248 | counting finds out whether there are active volumes and all are over-full |
| `LoadBalancer.Analyze` | powerfs-allocator/src/load_balancer.rs:60-112 | drain, cold, hot and grow actions, in this order |
| `LoadBalancer.ColdActionsAre` | powerfs-allocator/src/load_balancer.rs:66-94 | every cold or drain action moves a draining volume, or an active unpinned one used above the threshold with enough cold needles, to a least used active volume below the threshold on a node outside maintenance, which is another volume |
| `LoadBalancer.NothingOverlooked` | powerfs-allocator/src/load_balancer.rs:66-94 | every such volume is acted on whenever such a target exists |
| `LoadBalancer.HotActionIs` | powerfs-allocator/src/load_balancer.rs:184-231 | a hot action lists exactly the active unpinned volumes of its source node |
| `LoadBalancer.HotNeeds` | powerfs-allocator/src/load_balancer.rs:184-231 | a hot action goes from a busiest to an idlest of at least two available nodes, whose loads differ by more than the allowed factor |
| `LoadBalancer.HotFollows` | powerfs-allocator/src/load_balancer.rs:184-231 | and one is decided whenever two such nodes exist |
| `LoadBalancer.GrowthIs` | powerfs-allocator/src/load_balancer.rs:100-108 | a growth is decided if and only if there are active volumes, all are used above the threshold, and a node is available; its zone is that of the first volume of an idlest available node, 0 if it has none |
| `LoadBalancer.DecisionInOrder` | powerfs-allocator/src/load_balancer.rs:56-112 | drains come before cold moves, those before the one hot action, and the one growth last |
| `LoadBalancer.NearFullMovesNothing` | powerfs-allocator/src/load_balancer.rs:60-112 | a near-full cluster emits no cold or drain action |
| `LoadBalancer.PinsHold` | powerfs-allocator/src/load_balancer.rs:137-152 | no pinned active volume is the source of a cold action or listed in a hot one |
| `MigrationScheduler.ColdRejections` | powerfs-allocator/src/migration_scheduler.rs:385-438 | a decided cold action is rejected as full exactly when the target is past the exclusion ratio, as in maintenance exactly when the target's node is unknown, else only for want of a migratable needle |
| `MigrationScheduler.DecisionsValidate` | powerfs-allocator/src/migration_scheduler.rs:385-438 | with ordered thresholds and known nodes, decision and validation agree: the only rejection is an active lease |
| `MigrationScheduler.HotValidates` | powerfs-allocator/src/migration_scheduler.rs:439-466 | a decided hot action is never rejected for maintenance |
| `MigrationScheduler.HotPins` | powerfs-allocator/src/migration_scheduler.rs:452-458 | a pinned volume enters a validated hot migration if and only if the decision named no volume and the executor names it |
| `MigrationScheduler.PinnedVolumeMoves` | powerfs-allocator/src/migration_scheduler.rs:452-458 | a concrete snapshot in which that happens |
| `MigrationScheduler.Verdicts` | powerfs-allocator/src/migration_scheduler.rs:385-466 | any action, decided or made by hand: refused as full if and only if its target is unknown, inactive or past the exclusion ratio, then as in maintenance if and only if the target's node is unknown or maintained; what passes keeps both ends and moves exactly the requested needles that may move |
| `MigrationScheduler.SameActivity` | powerfs-allocator/src/migration_scheduler.rs:328-346 | pausing and resuming change neither who is active nor ids, sources and exclusivity |
| `MigrationScheduler.Ended` | powerfs-allocator/src/migration_scheduler.rs:263-275 | ending a task and releasing its source keeps ids, live sources, exclusivity and the count |
| `MigrationScheduler.Started` | powerfs-allocator/src/migration_scheduler.rs:488-518 | a task started under the next id for a free source keeps ids unique, sources live and exclusive |
| `MigrationScheduler.Scheduler.constructor` | powerfs-allocator/src/migration_scheduler.rs:119-134 | an empty scheduler satisfies all invariants |
| `MigrationScheduler.Scheduler.PauseAllRunning` | powerfs-allocator/src/migration_scheduler.rs:328-336 | exactly the running tasks are paused, with the threshold as reason |
| `MigrationScheduler.Scheduler.ResumeAllPaused` | powerfs-allocator/src/migration_scheduler.rs:338-346 | exactly the paused tasks run again |
| `MigrationScheduler.Scheduler.Cancel` | powerfs-allocator/src/migration_scheduler.rs:250-275 | unknown, finished and live tasks answered apart; a live one fails and releases its source |
| `MigrationScheduler.Scheduler.CompleteTask` | powerfs-allocator/src/migration_scheduler.rs:291-324 | likewise; progress and bytes recorded, never fewer bytes than before |
| `MigrationScheduler.Scheduler.StartTask` | powerfs-allocator/src/migration_scheduler.rs:479-533 | exactly the recorded task, source and action when the dispatch succeeded, nothing otherwise; the id is spent either way; a start off a volume or node that no active task moves data off keeps active tasks apart |
| `MigrationScheduler.Scheduler.FillSlots` | powerfs-allocator/src/migration_scheduler.rs:183-200 | at most the free slots are filled, never a second task off the same volume or node; every new task is a validated, dispatched action; a slot stays free only when every action is a growth, starts where an active task was started, is refused, or failed to dispatch |
| `MigrationScheduler.SharedTarget` | powerfs-allocator/src/migration_scheduler.rs:183-200 | two moves off different volumes to one target both run |
| `MigrationScheduler.Scheduler.Tick` | powerfs-allocator/src/migration_scheduler.rs:153-201 | limit and exclusivity kept, and no two active tasks were started off the same volume or node; pauses all above the pause load, resumes below the resume load, and changes no task's state in between; below the pause load it ends at the limit unless every decided action is a growth, starts where an active task was started, is refused or failed to dispatch |
| `MigrationScheduler.Scheduler.ExecuteMigrations` | powerfs-allocator/src/migration_scheduler.rs:207-234 | the rejected list is exactly the actions validation refuses, in order; the others get ids in a row and, unless it is a dry run, tasks; it fails if and only if a dispatch fails, and then has started what came before the first failure |
| `MigrationScheduler.PassedOrRefused` | powerfs-allocator/src/migration_scheduler.rs:207-234 | every action is accepted or rejected |
| `MigrationScheduler.Serve` | powerfs-allocator/src/migration_scheduler.rs:153-379 | over every run finished tasks never change, ids are unique, every task has the kind and size of the action it was started for, and sources belong to active tasks; without hand-started migrations Running plus Paused stays within the limit and no two active tasks were started for cold actions off one volume or hot actions off one node |
| `StripePlacement.Collect` | powerfs-allocator/src/filer_alloc.rs:124-134 | every volume of every zone, in order |
| `StripePlacement.GroupByNode` | powerfs-allocator/src/filer_alloc.rs:139-152 | each node once, with all its volumes in order |
| `StripePlacement.Deal` | powerfs-allocator/src/filer_alloc.rs:154-176 | terminates with min(count, volumes) picks, no entry twice, the first min(count, nodes) on different nodes, each node's volumes in order, no node ahead of another by more than one unless that one is used up |
| `StripePlacement.PickForStripeFile` | powerfs-allocator/src/filer_alloc.rs:108-177 | nothing exactly when volumes are asked for and none exist, otherwise a fair placement |
| `StripePlacement.EveryVolume` | powerfs-allocator/src/filer_alloc.rs:108-177 | exactly the volumes of the zones take part, each with its zone and node |
| `ErasureCode.SplitSerial` | powerfs-core/src/ec_thread.rs:151-168 | cutting shard after shard gives the shards of the parallel split, each of length ceil(n/k) |
| `ErasureCode.LongEnough` | powerfs-core/src/ec_thread.rs:101-149 | all slices are in range whenever the length is at least (k-1)^2 |
| `ErasureCode.DefaultCutoffSuffices` | powerfs-core/src/ec_thread.rs:68-79 | so the default 64 KiB cutoff is safe up to 257 data shards |
| `ErasureCode.FiveInFour` | powerfs-core/src/ec_thread.rs:126-168 | it is not always: five bytes in four shards start a slice past the end |
| `ErasureCode.EncodesWhen` | powerfs-core/src/ec_thread.rs:97-124 | data is encoded if and only if it is below the cutoff, or not empty with (k-1)*ceil(n/k) <= n |
| `ErasureCode.ConcatSplit` | powerfs-core/src/ec_thread.rs:126-168 | the shards end to end are the data and its zero padding |
| `ErasureCode.FlagsCount` | powerfs-core/src/ec_thread.rs:381-389 | the flags of the slots that hold a shard count the shards present |
| `ErasureCode.CanRecover` | powerfs-core/src/ec_thread.rs:381-389 | true exactly when at least k flags are set |
| `ErasureCode.DecodeMissing` | powerfs-core/src/ec_thread.rs:332-378 | the single-shard path, the shortage error, the library's failure and the concatenation, in this order |
| `ErasureCode.RoundTrip` | powerfs-core/src/ec_thread.rs:97-378 | encode, lose any shards, decode: with k left the data and its padding, hence the data when cut back; with fewer always an error |
| `ErasureCode.SumCodeIsMds` | powerfs-core/src/ec_thread.rs:82-95 | the assumption about the code library can be met for every number of data shards: one parity shard of bytewise sums |
| `RangeLocks.OverlapMeans` | powerfs-core/src/hpc.rs:152-154 | ranges share a byte if and only if they overlap and neither is empty |
| `RangeLocks.EmptyRangeRefused` | powerfs-core/src/hpc.rs:152-154 | an empty range inside a foreign exclusive one is refused although no byte is shared |
| `RangeLocks.Exclusion` | powerfs-core/src/hpc.rs:114-129 | in a compatible table no byte is under one owner's exclusive lock and another owner's lock |
| `RangeLocks.LockManager.TryLock` | powerfs-core/src/hpc.rs:114-129 | granted if and only if every held lock ends before the range or starts after it, is shared as well, or has the same owner; then appended, other inodes untouched |
| `RangeLocks.LockManager.Unlock` | powerfs-core/src/hpc.rs:131-136 | exactly that owner's locks on the inode go |
| `RangeLocks.LockManager.UnlockRange` | powerfs-core/src/hpc.rs:138-143 | exactly that owner's locks with these bounds go |
| `RangeLocks.Serve` | powerfs-core/src/hpc.rs:114-143 | exclusion holds in every table reachable by any run of requests |

## Left out

- Volume: `restore_needle`, WORM retention, scrubbing and verification counters and negative offsets are not modelled.
- VolumeRuns.RunRefines: commands name keys above 0; a write to key 0 goes to a key the volume chooses, which VolumeModel.KeyZeroIsRedirected describes for one write.
- NeedleLocks.NoLostUpdate: operations name keys above 0, because a full write to key 0 takes no stripe lock.
- Volume: reads between a flush's take and its publish, deletion and compaction take no stripe lock; they are modelled as sequential steps, not as interleaved ones.
- Volume: RocksDB, the write-ahead log and the file backend are maps and bytes; a batch is one step. Of crashes only the one between the file write and the batch is modelled (Restart.ReopenAfterCrash).
- Volume: when the dirty buffer is flushed by deadline or byte budget is left open; any flush at any time is covered.
- VolumeRuns.RunRefines: it also says nothing about what a run holds after it has taken in a payload whose image reaches 4 GiB; what such a needle reads as is VolumeModel.OversizedReads, and the other needles are covered by VolumeRuns.RunFrames.
- NeedleLocks.NoLostUpdate: it also says nothing about a needle one of whose own appends failed for space, hit a checksum collision or was oversized, because the code then falls back to the stored version or reads something else, which VolumeModel.FlushRefines and VolumeModel.OversizedReads describe.
- Key-value cache: every engine operation is one step. The original drops its locks between making room for a block and counting it, so concurrent puts can pass the budget.
- KvEngine.KVCacheEngine.PutBlock: does not model overflow of 64-bit byte counters or block ids, because counters are unbounded numbers here.
- KvEngine.KVCacheEngine.ApplySaveBlocks: does not model the saturation of the id allocator at the largest 64-bit id.
- KvEngine.KVCacheEngine.EvictLru: a resident block whose access time is the largest 64-bit value cannot anchor a group and is left resident, as in the code; "nothing evictable" is stated with that exception.
- KvReplay.Apply: deletion of a namespace is not among the commands, because it scans the local database by prefix.
- Key-value cache: persistence and reload, namespace ownership, key scans, regex removal, read heat, hit counters, the block-to-session reverse index, the legacy put path and the add-only set of keys are not modelled; metadata that is only copied (layer, token count, model, collection) is left out of the records.
- KvEngine.KVCacheEngine.GcTick: one round is one step, while the worker looks references up once and then awaits each deletion; KvSnapshot.SnapshotGoesStale says which events in between make that look-up wrong. Leadership and the volume address lookup are part of the outcome parameter.
- KvTracking.ReplayQueuesLive: assumes that no inline put to the key names the key's final needle; such puts lose a needle from sight, which KvTracking.PutLeaks describes.
- VolumeAssigner.AssignWithContext: with rack and data-center awareness both on, only number, distinctness, eligibility and preference are stated, because no optimum is promised there.
- VolumeAssigner.Score: floating point is modelled by exact reals.
- VolumeAssigner: the round-robin assigners are not modelled.
- ShardMap: lock scopes are one operation each; listing functions are left out.
- LoadBalancer.Analyze: load scores and ratios are exact reals; not-a-number is not modelled.
- MigrationScheduler.Scheduler.ExecuteMigrations: keeps neither the concurrency limit nor exclusive sources, because the code checks neither.
- MigrationScheduler: task ids are numbers instead of strings, start times are left out, and the limits are fixed during a run.
- StripePlacement: the choice for a single file by free space is not modelled.
- ErasureCode.RoundTrip: rests on the promise Mds of the code library, whose Galois-field arithmetic is not modelled.
- Erasure coding: the worker thread, SIMD selection, the unused block encoder and `decode` of complete shard lists are left out.
- RangeLocks: quality-of-service tokens, striping arithmetic and the inode shard router of the same file are not modelled.
- Everything else: command line tools, gRPC and HTTP services, configuration, events, RDMA, FUSE, the front end.
