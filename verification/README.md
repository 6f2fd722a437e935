# Storage array verification

A Dafny model of the stateful core of the repository and proofs about it. Nothing here
executes the original programs; the model follows the code where code and documentation
disagree.

- **DirectFlash** (`flash_model`, `flash_maintenance`, `flash_runs`, `direct_flash`): the
  flash translation layer with its garbage collector, wear leveler and simulator. Whole
  histories of the simulator are proved to look like a plain map from address to data.
- **Purity and the storage controller** (`reduction`, `dedup_model`, `array_model`,
  `array_runs`, `array_sharing`, `array_counts`, `storage_controller`): pattern removal, deduplication, compression framing,
  volumes and snapshots. Whole histories of controller calls are proved to look like plain
  maps from offset to data, with reference counts that never lose a live block, as long as
  nobody writes the bytes of a pattern marker; what markers and uncounted copies cost is
  proved separately.
- **Data Domain engine** (`chunking`, `data_domain_model`, `data_domain`): content-defined
  chunking, recipes, reference counts and byte accounting over all histories.
- **Queues** (`nvme_queue`, `emulated_nvme`): the host side of the NVMe completion queue with
  phase tags (section 4.6, and 4.1.1 and 4.1.2, of the NVM Express Base Specification 1.4)
  against a controller given as environment steps, and the emulated device with its ring.
- **Active cluster** (`replication_journal`, `cluster_model`, `cluster`): the replication
  journal, quorum election, failover and failback as steps of state machines.
- **Forecast and placement** (`forecast`, `stripe_placement`): the least-squares capacity
  forecast over exact reals and the fault-domain-aware stripe placement.

Where the source changes fields in place there is a class whose methods are proved to make
exactly the change a value-level function or relation describes; the lemmas about that
function or relation, and about whole runs of it, then hold of the class. A run is a trace of
states together with the events between them, each event carrying the answer its caller got.
Properties that are false of the code come with a concrete failing case and with the exact
condition under which they hold: `WriteRefinesExactly` (`FailedOverwriteLosesData`),
`RoundTripExactly` (`RoundTripFails`), `StoreKeepsExactly` (`MarkerLosesData`),
`DeletionExactly` (`CloneBreaksSource`), `SubmitKeepsExactly` (`ReuseLosesCallback`),
`RoomAfterProcess` (`TwoSlotsStall`), `BoundTestExactly` (`WrappedSumPasses`, `AliasedWrite`),
`QueueKeepsOrderExactly` (`JournalCanBeOutOfOrder`) and `ViewsAgreeExactly`
(`ViewsCanDisagree`).

What the proofs assume of the outside: SHA-256 has no collisions among the data in play;
LZ4 and Zstd decompress what they compressed; UUIDs drawn as block, volume and snapshot ids
are fresh. These appear as the predicates `Sound` and as freshness conditions of the steps,
never as facts taken for granted.

Points where the code does not do what its names or comments suggest; the code is followed:

- The two decrements of `invalid_blocks` in `erase_block` test a state that has just been
  overwritten and never happen (block_manager.py:242 and 251), so the counter also remembers
  every erase.
- The collector's target is described as a free fraction and compared with the used one
  (garbage_collection.py:44 and 108-111).
- A failed statistics query, when every block is bad, leaves the collector RUNNING
  (garbage_collection.py:87 and 108-118).
- Bytes equal to a pattern marker are stored like any data, after which the pattern's blocks
  are deduplicated onto them although they never took a reference of their own
  (engine.py:116-153).
- A write that exceeds its volume has already stored its data and taken a reference
  (controller.py:163-174).
- `SegmentReference.Offset` holds the position of the chunk in the list, not a byte offset
  (objstorage.go:1060 and 1076).
- The completion doorbell is skipped at head 0 with phase 1, also after an even number of
  wraps (nvmedri.cpp:490), which can stall the queue for good.
- A manual failover to a node the mediator does not know is still recorded as successful
  (failover.py:147-155).

## Model

| member | source | states |
|---|---|---|
| FlashRuns.RunRefinesMap | pstorage/src/pstorage/directflash/simulator.py:81-140 | In every run of writes, reads, deletes, collections, leveling passes and collector starts and stops, every answer is that of a plain map replayed from the events: a read returns exactly the last data stored and not deleted, a delete finds exactly the mapped addresses, a write is refused exactly when the data is too large, and a stored address is the number of write calls before it, so none is issued twice |
| FlashRuns.RunInvariant | pstorage/src/pstorage/directflash/block_manager.py:115-258 | At every point of every run the visible contents are the replayed map, table and back-pointers are inverse bijections onto the VALID blocks, the pool is exactly the FREE blocks, the write and read counters count the successful ones, and the next address counts the write calls |
| FlashRuns.RunConserves | pstorage/src/pstorage/directflash/block_manager.py:132-258 | Over all runs: the erase counts add up to total erases plus bad blocks; free and valid counters are the pool size and the number of live addresses; the invalid counter, never decremented, is the INVALID blocks plus all erases; the four kinds of block add up; BAD means exactly that the limit is reached |
| FlashRuns.WriteSucceedsExactly | pstorage/src/pstorage/directflash/simulator.py:91-107 | A write succeeds if and only if the data fits and a block is free or, with the collector not stopped, a cycle can free one: for a target below 1, some INVALID block survives one more erase; for a target of 1 or more, the first one does |
| FlashRuns.RunLevels | pstorage/src/pstorage/directflash/simulator.py:109-114 | After every successful write of a run no VALID block is worn beyond any FREE one by more than the threshold |
| FlashRuns.StoppedExactly | pstorage/src/pstorage/directflash/garbage_collection.py:120-158 | In every run the collector is stopped exactly when the last start or stop call was a stop, and has a background job exactly when it was a start |
| FlashRuns.StoppedCollectsNothing | pstorage/src/pstorage/directflash/garbage_collection.py:84-87 | While it is stopped a forced collection changes and reclaims nothing |
| FlashRuns.RunningMeansWorn | pstorage/src/pstorage/directflash/garbage_collection.py:84-118 | The collector is RUNNING between calls only after it failed over a flash with every block bad |
| FlashRuns.GcLeaves | pstorage/src/pstorage/directflash/garbage_collection.py:84-118 | A collection leaves the collector idle, or RUNNING with every block bad when it failed |
| FlashRuns.StepRefines | pstorage/src/pstorage/directflash/simulator.py:81-204 | Each single event keeps the invariant, changes the visible map as the plain map changes, answers as it, and counts traffic once |
| FlashRuns.WriteStepKeeps | pstorage/src/pstorage/directflash/simulator.py:81-116 | A write with its collection, retry and leveling either adds its data under the address drawn, leaving every other address alone, or changes nothing visible |
| FlashRuns.WriteIsStep | pstorage/src/pstorage/directflash/simulator.py:81-116 | A first attempt and what followed it make up one write step, which keeps the invariant |
| FlashModel.WriteRefinesExactly | pstorage/src/pstorage/directflash/block_manager.py:115-165 | A block write keeps the invariant and acts as a map update if and only if the data is refused for size, the address is new or the pool is not empty |
| FlashModel.FailedOverwriteLosesData | pstorage/src/pstorage/directflash/block_manager.py:134-144 | The failing family is real: on a one-block flash a failed overwrite makes the first data unreadable |
| FlashModel.WriteKeeps | pstorage/src/pstorage/directflash/block_manager.py:115-165 | Outside that family a write keeps bijection, pool, endurance and counters, and the view gains exactly the written entry |
| FlashModel.WriteTakesLeastWorn | pstorage/src/pstorage/directflash/block_manager.py:146-156 | A write fills a FREE block that no FREE block is less worn than |
| FlashModel.PlaceFresh | pstorage/src/pstorage/directflash/block_manager.py:146-163 | Filling a free block for an unmapped address keeps the invariant and adds one entry to the view |
| FlashModel.DeleteKeeps | pstorage/src/pstorage/directflash/block_manager.py:190-214 | A delete keeps the invariant and removes exactly its address from the view |
| FlashModel.EraseKeeps | pstorage/src/pstorage/directflash/block_manager.py:216-258 | Erasing garbage is invisible, adds one to the total wear, leaves the VALID wear alone and keeps the books, also when the block goes bad |
| FlashModel.ReadIsLookup | pstorage/src/pstorage/directflash/block_manager.py:167-188 | A read is a lookup in the view |
| FlashModel.InitialInv | pstorage/src/pstorage/directflash/block_manager.py:65-92 | A new flash satisfies the invariant and shows an empty map |
| FlashMaintenance.LevelingPassKeeps | pstorage/src/pstorage/directflash/wear_leveling.py:67-183 | A pass leaves the view alone and ends with no VALID block worn beyond any FREE one by more than the threshold, also on the early exit; moves times (threshold + 1) is at most the VALID wear it removed; each move is one erase, and moves are bounded by the erases left, whatever the threshold |
| FlashMaintenance.RoundKeeps | pstorage/src/pstorage/directflash/wear_leveling.py:170-183 | One move and erase keeps the invariant and the view, adds one erase, and lowers the VALID wear by more than the threshold |
| FlashMaintenance.RoundsKeep | pstorage/src/pstorage/directflash/wear_leveling.py:159-183 | The same summed over any number of rounds |
| FlashMaintenance.LevelKeeps | pstorage/src/pstorage/directflash/wear_leveling.py:114-157 | Moving a block keeps invariant, view and total wear, and takes the wear gap out of the VALID wear |
| FlashMaintenance.WearBounded | pstorage/src/pstorage/directflash/block_manager.py:232-241 | Total wear never exceeds the endurance limit times the number of blocks |
| FlashMaintenance.CollectKeeps | pstorage/src/pstorage/directflash/garbage_collection.py:77-118 | A cycle is invisible to readers, reclaims exactly the erases it counts, and fails only with no block free |
| FlashMaintenance.CollectStops | pstorage/src/pstorage/directflash/garbage_collection.py:92-111 | A cycle erases the first k garbage blocks and counts the survivors, where k is the one place to stop: before it, after each erase, more than the target share of the blocks was outside the pool and a block was usable; there this no longer holds, or the list is at its end; it fails exactly when no block is usable |
| FlashMaintenance.SweepStops | pstorage/src/pstorage/directflash/garbage_collection.py:94-111 | The same for any list of distinct garbage blocks |
| FlashMaintenance.StopsOnce | pstorage/src/pstorage/directflash/garbage_collection.py:108-111 | There is only one such place |
| FlashMaintenance.TargetMeaning | pstorage/src/pstorage/directflash/garbage_collection.py:65-70 | The utilization test compares the blocks outside the pool with the target share of all blocks |
| FlashMaintenance.SweepKeeps | pstorage/src/pstorage/directflash/garbage_collection.py:94-111 | The same for the loop over any list of block numbers |
| FlashMaintenance.CollectMakesSpace | pstorage/src/pstorage/directflash/garbage_collection.py:77-118 | For every target a cycle leaves a free block if and only if its starting state says so: a free block, or a garbage block within reach that survives an erase |
| FlashMaintenance.SweepMakesSpace | pstorage/src/pstorage/directflash/garbage_collection.py:94-111 | With a target below 1 the sweep does not stop before it has freed a block that can be freed |
| FlashMaintenance.FullTargetStopsEarly | pstorage/src/pstorage/directflash/garbage_collection.py:108-111 | With a target of 1 or more the cycle erases the first garbage block only |
| DirectFlash.BlockManager.constructor | pstorage/src/pstorage/directflash/block_manager.py:65-92 | Starts with every block free and the invariant holding |
| DirectFlash.BlockManager.LeastWorn | pstorage/src/pstorage/directflash/block_manager.py:147-149 | Finds a pool block that no pool block is less worn than |
| DirectFlash.BlockManager.WriteBlock | pstorage/src/pstorage/directflash/block_manager.py:115-165 | In place: the write relation of the model, with its early invalidation and both failures |
| DirectFlash.BlockManager.ReadBlock | pstorage/src/pstorage/directflash/block_manager.py:167-188 | Answers as the model and counts a read only on a hit |
| DirectFlash.BlockManager.DeleteBlock | pstorage/src/pstorage/directflash/block_manager.py:190-214 | Reports whether the address was mapped; new state as the model |
| DirectFlash.BlockManager.EraseBlock | pstorage/src/pstorage/directflash/block_manager.py:216-258 | Succeeds exactly for a block that survives; unknown and bad blocks are left alone |
| DirectFlash.BlockManager.GetInvalidBlocks | pstorage/src/pstorage/directflash/block_manager.py:260-267 | The INVALID blocks, all of them, in block order |
| DirectFlash.BlockManager.WearRange | pstorage/src/pstorage/directflash/block_manager.py:280-283 | The largest count over all blocks and the smallest over the usable ones, both attained; fails exactly when every block is bad |
| DirectFlash.BlockManager.TotalWear | pstorage/src/pstorage/directflash/block_manager.py:277-279 | The loop adds up all erase counts |
| DirectFlash.BlockManager.GetStats | pstorage/src/pstorage/directflash/block_manager.py:274-298 | The counters, the average, largest and smallest erase counts and the VALID fraction; fails exactly when every block is bad |
| DirectFlash.WearLeveling.RecordWrite | pstorage/src/pstorage/directflash/wear_leveling.py:55-60 | Counts one more write of the address and of no other |
| DirectFlash.WearLeveling.ShouldLevel | pstorage/src/pstorage/directflash/wear_leveling.py:67-73 | True exactly when some pair of blocks shows the wear gap |
| DirectFlash.WearLeveling.FindCandidates | pstorage/src/pstorage/directflash/wear_leveling.py:75-112 | The scan finds the first most-worn VALID and first least-worn FREE block; when it finds none the flash is leveled |
| DirectFlash.WearLeveling.LevelBlock | pstorage/src/pstorage/directflash/wear_leveling.py:114-157 | Moves exactly when the source is VALID and the destination FREE; new state as the model |
| DirectFlash.WearLeveling.MoveOne | pstorage/src/pstorage/directflash/wear_leveling.py:170-181 | One round of the pass |
| DirectFlash.WearLeveling.RunLevelingPass | pstorage/src/pstorage/directflash/wear_leveling.py:159-183 | The endless loop ends for every threshold and performs one leveling pass; fails exactly when every block is bad |
| DirectFlash.GarbageCollector.constructor | pstorage/src/pstorage/directflash/garbage_collection.py:40-53 | Starts idle with nothing reclaimed |
| DirectFlash.GarbageCollector.StartBackground | pstorage/src/pstorage/directflash/garbage_collection.py:120-131 | Starts once; a second start changes nothing |
| DirectFlash.GarbageCollector.StopBackground | pstorage/src/pstorage/directflash/garbage_collection.py:146-158 | Stops, whatever the state, and drops the background job |
| DirectFlash.GarbageCollector.ReclaimOne | pstorage/src/pstorage/directflash/garbage_collection.py:100-106 | Erases a block only if it is still garbage and counts it if it survived |
| DirectFlash.GarbageCollector.SweepBlocks | pstorage/src/pstorage/directflash/garbage_collection.py:94-111 | The loop computes the recursive sweep of the model, with its early exits |
| DirectFlash.GarbageCollector.RunGcCycle | pstorage/src/pstorage/directflash/garbage_collection.py:77-118 | Skipped when stopped; otherwise the model cycle, idle afterwards, still RUNNING after a failed statistics query |
| DirectFlash.GarbageCollector.GetUtilization | pstorage/src/pstorage/directflash/garbage_collection.py:65-70 | The used fraction, failing with the statistics query |
| DirectFlash.DirectFlashSimulator.constructor | pstorage/src/pstorage/directflash/simulator.py:36-64 | The parts share one manager and start in the initial state of the runs |
| DirectFlash.DirectFlashSimulator.Write | pstorage/src/pstorage/directflash/simulator.py:81-116 | One write event of the run relation, with collection, retry and leveling |
| DirectFlash.DirectFlashSimulator.FinishWrite | pstorage/src/pstorage/directflash/simulator.py:109-114 | Records the write and levels when needed |
| DirectFlash.DirectFlashSimulator.RetryWrite | pstorage/src/pstorage/directflash/simulator.py:99-107 | Collects and tries once more |
| DirectFlash.DirectFlashSimulator.Read | pstorage/src/pstorage/directflash/simulator.py:118-128 | One read event of the run relation |
| DirectFlash.DirectFlashSimulator.Delete | pstorage/src/pstorage/directflash/simulator.py:130-140 | One delete event of the run relation |
| DirectFlash.DirectFlashSimulator.ForceGc | pstorage/src/pstorage/directflash/simulator.py:198-200 | One collection event of the run relation |
| DirectFlash.DirectFlashSimulator.ForceWearLeveling | pstorage/src/pstorage/directflash/simulator.py:202-204 | One leveling event of the run relation |
| Reduction.RoundTripExactly | pstorage/src/pstorage/purity/engine.py:182-204 | For every block that can be encoded, reading back returns the original bytes if and only if the block is no marker and, when all zero, exactly one block long |
| Reduction.ReadsBack | pstorage/src/pstorage/purity/engine.py:182-204 | What any stored block reads back as, whichever path it took: one block of zeros for all-zero data, what a marker stands for if the data looks like one, otherwise the data |
| Reduction.RoundTripFails | pstorage/src/pstorage/purity/pattern_removal.py:131-138 | The failing cases: the bytes of the zero marker, and all-zero data of another length, come back as one block of zeros |
| Reduction.MarkersAreProduced | pstorage/src/pstorage/purity/pattern_removal.py:92-118 | The marker test admits exactly the byte strings that pattern removal produces from some block |
| Reduction.PatternIsMarker | pstorage/src/pstorage/purity/pattern_removal.py:92-118 | Everything pattern removal produces is a marker |
| Reduction.MarkerReadsAsPattern | pstorage/src/pstorage/purity/engine.py:194-204 | A marker stored as data reads back as the block it stands for |
| Reduction.BigEndianUnique | pstorage/src/pstorage/purity/pattern_removal.py:109-137 | Four length bytes are recovered from their number |
| Reduction.FramesDiffer | pstorage/src/pstorage/purity/compression.py:71-138 | Different blocks have different frames |
| Reduction.EncodeFails | pstorage/src/pstorage/purity/pattern_removal.py:109-113 | Encoding fails exactly for data that is not all zero and longer than four bytes can count |
| Reduction.FrameRoundTrip | pstorage/src/pstorage/purity/compression.py:71-185 | A framed block, compressed or stored as is, has a header and unpacks to its data |
| Reduction.StoredForm | pstorage/src/pstorage/purity/compression.py:102-138 | The bytes that stand for a block: 14 for zeros, 15 for one repeated byte, and for any other block the algorithm byte, the length and the compressed form if the ratio asked for is reached, otherwise 0, the length and the block |
| Reduction.FrameForm | pstorage/src/pstorage/purity/compression.py:102-138 | The same for the frame alone |
| Reduction.NeverMuchLarger | pstorage/src/pstorage/purity/compression.py:102-138 | With a ratio of at least 1 asked for, nothing takes more than its length and five bytes |
| Reduction.RatioMeaning | pstorage/src/pstorage/purity/compression.py:102-105 | The ratio test compares the length with the ratio times the compressed length |
| Reduction.RepeatedRoundTrip | pstorage/src/pstorage/purity/pattern_removal.py:92-146 | A repeated byte survives its marker, and the marker is never taken for a compression header |
| Reduction.BigEndianRoundTrip | pstorage/src/pstorage/purity/pattern_removal.py:109-137 | Four-byte lengths decode to what was encoded |
| Reduction.MarkersDecodeToSame | pstorage/src/pstorage/purity/pattern_removal.py:120-140 | Data that looks like a marker never reads back as itself |
| Reduction.MarkersAreNotStorable | pstorage/src/pstorage/purity/pattern_removal.py:92-118 | No block a caller may store is ever confused with what pattern removal produces |
| DedupModel.StoresReadBack | pstorage/src/pstorage/purity/engine.py:91-204 | After any number of further stores of any data, markers and failing stores included, a stored block reads as ReadsBack says, so it returns its original bytes if and only if they are storable; a store fails exactly when the data cannot be encoded |
| DedupModel.StoreCost | pstorage/src/pstorage/purity/engine.py:120-155 | A store reports no bytes and writes no block exactly when the table knows the data and it is no pattern; otherwise it writes one block in the stored form and reports its length |
| DedupModel.StoresDeduplicate | pstorage/src/pstorage/purity/engine.py:120-136 | Data that is no pattern is kept once: every later store, after whatever others, gets the block of the first and writes nothing |
| DedupModel.StaysIndexed | pstorage/src/pstorage/purity/deduplication.py:112-147 | Stores never take an entry away or lead it elsewhere |
| DedupModel.StoresInvariant | pstorage/src/pstorage/purity/engine.py:91-180 | Any sequence of stores under fresh ids keeps every table entry leading to the data it was made for |
| DedupModel.StoreReads | pstorage/src/pstorage/purity/engine.py:91-180 | One store of any data keeps the table leading to its data and reads back, also through an entry made for a marker |
| DedupModel.StoreFailsExactly | pstorage/src/pstorage/purity/engine.py:91-180 | A store fails if and only if the data cannot be encoded, over any such table |
| DedupModel.StoreKeeps | pstorage/src/pstorage/purity/engine.py:120-155 | A store of any data but a marker adds its claim and costs no earlier claim anything, duplicate or new |
| DedupModel.StoreKeepsExactly | pstorage/src/pstorage/purity/engine.py:120-155 | A store keeps the invariant if and only if the data is not a marker |
| DedupModel.StoreFails | pstorage/src/pstorage/purity/engine.py:91-155 | For data other than a marker a store fails exactly when it cannot be encoded, with an overflow |
| DedupModel.StoreSucceeds | pstorage/src/pstorage/purity/engine.py:91-155 | Every block that can be encoded is accepted, under the fingerprint of its pattern-reduced bytes |
| DedupModel.ReleaseKeeps | pstorage/src/pstorage/purity/engine.py:206-223 | Giving up one claim and its reference keeps all the others readable, also when the block goes |
| DedupModel.FewerClaims | pstorage/src/pstorage/purity/deduplication.py:149-172 | The invariant survives forgetting claims, so counts that are too high do no harm |
| ArrayRuns.RunRefinesMaps | pstorage/src/pstorage/core/controller.py:119-308 | In every run of create, write, overwrite, read, delete, snapshot and restore-into-own-volume that writes no marker, every answer is that of plain maps from offset to data: which of the five replies a write gets, what every read returns, and whether each id was found |
| ArrayRuns.RunReadsBack | pstorage/src/pstorage/core/controller.py:183-213 | At every point of every such run every offset of every volume reads as the replayed map says, and nothing a live volume holds is missing from the backend |
| ArrayRuns.CountsCoverLivePairs | pstorage/src/pstorage/purity/deduplication.py:112-172 | At every point of every run, data other than a pattern written to a live volume has its fingerprint in the table, leading to a block with the data, with a count of at least the number of live (volume, offset) pairs it was ever written to, as told from the events |
| ArrayRuns.EntriesCoverLivePairs | pstorage/src/pstorage/purity/deduplication.py:112-172 | The same bound for every entry the table has |
| ArrayCounts.CountsAreExact | pstorage/src/pstorage/purity/deduplication.py:112-172 | At every point of every run the count of the hash of any data but a marker is the number of stores of the data, writes refused for size included, less the number of its blocks in deleted volumes; the table has an entry exactly while that is not zero |
| ArrayCounts.StepCounts | pstorage/src/pstorage/core/controller.py:119-181 | Each call changes the count by what it stores or releases |
| ArrayCounts.ReleaseAllCounts | pstorage/src/pstorage/core/controller.py:125-127 | Releasing a volume takes off the count exactly the offsets that hold the data |
| ArrayCounts.StoreCounts | pstorage/src/pstorage/purity/deduplication.py:112-147 | A store counts its data once and nothing else |
| ArrayCounts.ReleaseCounts | pstorage/src/pstorage/purity/deduplication.py:149-172 | A release takes one off a known count and nothing else |
| ArrayCounts.ReleasedOffsets | pstorage/src/pstorage/core/controller.py:125-127 | However the blocks are enumerated, the releases of a fingerprint are the offsets that hold it |
| ArrayRuns.RunInvariant | pstorage/src/pstorage/core/controller.py:119-308 | The invariant behind these: live blocks and live snapshots are claims on the store, and the view is the replayed one |
| ArrayRuns.StepRefines | pstorage/src/pstorage/core/controller.py:81-308 | Each call keeps the invariant, changes the view as plain maps change and answers as they would |
| ArrayRuns.SnapshotFrozen | pstorage/src/pstorage/core/snapshot_manager.py:97-132 | Until it or its volume is deleted, a snapshot keeps the contents of the moment it was taken |
| ArrayRuns.RestoreBringsBack | pstorage/src/pstorage/core/controller.py:266-294 | Restoring into its own volume makes every offset read as it did when the snapshot was taken, whatever came between |
| ArrayRuns.WriteKeeps | pstorage/src/pstorage/core/controller.py:139-181 | A write that succeeds changes one offset of one volume; one that exceeds the volume leaves its reference behind and changes nothing visible; which reply it gets is told from sizes and alignment beforehand |
| ArrayRuns.MayStore | pstorage/src/pstorage/purity/engine.py:91-155 | Whether data can be stored depends on its length alone |
| ArrayRuns.DeleteVolumeKeeps | pstorage/src/pstorage/core/controller.py:119-129 | Deleting a volume hides it, orphans its snapshots and changes nothing else, in whatever order its blocks go |
| ArrayRuns.ReleaseAllKeeps | pstorage/src/pstorage/core/controller.py:125-127 | Releasing the blocks of a volume one by one costs no other volume a claim |
| ArrayRuns.CreateVolumeKeeps | pstorage/src/pstorage/core/volume_manager.py:91-129 | A new volume is empty and changes nothing else |
| ArrayRuns.CreateSnapshotKeeps | pstorage/src/pstorage/core/snapshot_manager.py:70-132 | A snapshot adds one frozen copy of the volume contents |
| ArrayRuns.DeleteSnapshotKeeps | pstorage/src/pstorage/core/snapshot_manager.py:171-194 | Only that snapshot disappears; no reference is touched |
| ArrayRuns.RestoreKeeps | pstorage/src/pstorage/core/controller.py:284-294 | Restoring into the own volume replaces its view by that of the snapshot |
| ArrayRuns.LiveWriteIsClaimed | pstorage/src/pstorage/purity/engine.py:148-155 | Every write whose volume still lives has its claim in the invariant |
| ArraySharing.DeletionExactly | pstorage/src/pstorage/core/volume_manager.py:309-321 | In any state with blocks shared by clones and restores, deleting a volume leaves a block of any other volume readable as before if and only if the table counts more references than are released or, unknown to the table, it is not among them; otherwise it is gone |
| ArraySharing.SharingRunDeletion | pstorage/src/pstorage/core/volume_manager.py:309-321 | That condition after any run of the safe fragment followed by any clones, restores into any volume, snapshots and writes to copies and to other volumes; until the delete nothing is missing |
| ArraySharing.SharingStepKeeps | pstorage/src/pstorage/core/volume_manager.py:280-323 | Clones, restores into any volume and all calls but deleting a volume keep every block backed by some claim |
| ArraySharing.SharedWrite | pstorage/src/pstorage/core/controller.py:139-181 | Writes to copies and to other volumes keep it |
| ArraySharing.SharingRunKeeps | pstorage/src/pstorage/core/volume_manager.py:280-323 | So does any run of them |
| ArraySharing.MarkerLosesData | pstorage/src/pstorage/purity/engine.py:116-153 | One write of marker bytes costs another volume its block: from any state of the safe fragment, write a pattern block, its marker and the pattern block to three volumes, delete the first two, and the third reads block-not-found |
| ArraySharing.MarkerStores | pstorage/src/pstorage/purity/engine.py:116-153 | The third store is found through the entry of the marker, whose count then is 2 |
| ArraySharing.MarkerReleases | pstorage/src/pstorage/purity/deduplication.py:149-172 | The first release takes the reference the third store relies on |
| ArraySharing.UnreleasedStays | pstorage/src/pstorage/purity/engine.py:206-223 | A block nobody releases stays |
| ArraySharing.CloneDeletionExactly | pstorage/src/pstorage/core/volume_manager.py:280-323 | That condition for a clone deleted right after cloning |
| ArraySharing.RestoreElsewhereExactly | pstorage/src/pstorage/core/controller.py:284-294 | That condition for a snapshot restored into another volume which is then deleted right away |
| ArraySharing.CloneBreaksSource | pstorage/src/pstorage/core/volume_manager.py:309-321 | The concrete run: write new data, clone, delete the clone, and the source reads block-not-found |
| ArraySharing.IndexedOutlives | pstorage/src/pstorage/purity/deduplication.py:149-172 | A counted block outlives a series of releases if and only if it has more references than releases |
| ArraySharing.UnindexedGoes | pstorage/src/pstorage/purity/deduplication.py:159-161 | A block the table does not know goes with its first release |
| ArrayModel.BackedReads | pstorage/src/pstorage/core/controller.py:183-213 | Every claimed block record reads as its data reads, is never missing, and carries the fingerprint and length of the data |
| ArrayModel.ContentsStable | pstorage/src/pstorage/core/controller.py:183-213 | While a volume keeps its claims its blocks read the same from one store to the next |
| StorageArray.DeduplicationEngine.CheckDuplicate | pstorage/src/pstorage/purity/deduplication.py:83-110 | The fingerprint, and the block and count it is known by if any |
| StorageArray.DeduplicationEngine.RegisterBlock | pstorage/src/pstorage/purity/deduplication.py:112-147 | One more reference for known data, a new entry otherwise |
| StorageArray.DeduplicationEngine.DereferenceBlock | pstorage/src/pstorage/purity/deduplication.py:149-172 | The count left; the entry goes with its last reference |
| StorageArray.PurityEngine.ReduceAndStore | pstorage/src/pstorage/purity/engine.py:91-180 | The pipeline makes the change of the model or fails and changes nothing |
| StorageArray.PurityEngine.Retrieve | pstorage/src/pstorage/purity/engine.py:182-204 | The decode chain of the model, with its failures |
| StorageArray.PurityEngine.Delete | pstorage/src/pstorage/purity/engine.py:206-223 | Releases one reference and reports whether a block really went |
| StorageArray.StorageController.CreateVolume | pstorage/src/pstorage/core/controller.py:81-106 | Adds an empty volume |
| StorageArray.StorageController.Write | pstorage/src/pstorage/core/controller.py:139-181 | State and reply of the model, with all four refusals |
| StorageArray.StorageController.RecordBlock | pstorage/src/pstorage/core/volume_manager.py:220-270 | Checks the size and points one offset at the block |
| StorageArray.StorageController.Read | pstorage/src/pstorage/core/controller.py:183-213 | Answers as the model |
| StorageArray.StorageController.DeleteVolume | pstorage/src/pstorage/core/controller.py:119-129 | Releases every block once and drops the volume |
| StorageArray.StorageController.ReleaseBlocks | pstorage/src/pstorage/core/controller.py:125-127 | The loop releases the blocks in some order, each once |
| StorageArray.StorageController.ReleaseAllSnoc | pstorage/src/pstorage/core/controller.py:125-127 | Releasing one block more is one more release at the end |
| StorageArray.StorageController.CopyBlocks | pstorage/src/pstorage/core/snapshot_manager.py:110-117 | The copying loop yields the same block map |
| StorageArray.StorageController.CreateSnapshot | pstorage/src/pstorage/core/controller.py:217-242 | New state as the model; fails exactly without the volume |
| StorageArray.StorageController.DeleteSnapshot | pstorage/src/pstorage/core/controller.py:255-264 | New state as the model; fails exactly without the snapshot |
| StorageArray.StorageController.RestoreSnapshot | pstorage/src/pstorage/core/controller.py:266-294 | New state as the model; fails exactly without snapshot or volume |
| StorageArray.StorageController.CloneVolume | pstorage/src/pstorage/core/volume_manager.py:280-323 | Copies block references and no counts |
| Chunking.EditsBeforeCutAreLocal | unity/objstorage.go:1165-1205 | Two byte strings with a common tail that are both cut where it begins end in the same chunks |
| Chunking.ChunksAfterCut | unity/objstorage.go:1165-1205 | The chunks after any cut are the chunks of the remaining bytes alone |
| Chunking.AppendKeepsChunks | unity/objstorage.go:1165-1205 | All chunks but the last are a prefix of the chunks of any extension |
| Chunking.CutIgnoresTail | unity/objstorage.go:1183-1194 | Bytes after a cut have no say in it |
| Chunking.CutIsFirstBoundary | unity/objstorage.go:1177-1198 | A chunk ends at the first content boundary from 8192 bytes on, at 16384 bytes, or with the data |
| Chunking.CutRule | unity/objstorage.go:1168-1198 | The rule with its numbers: the first position from 8192 on whose 48 bytes hash to a multiple of 8192, 16384, or the end |
| Chunking.PolynomialIsSum | unity/objstorage.go:1208-1214 | The hash of a window is the sum of its bytes weighted by powers of 31 |
| Chunking.ChunksCoverData | unity/objstorage.go:1165-1205 | The chunks concatenate to the data |
| Chunking.ChunkSizes | unity/objstorage.go:1165-1205 | Sizes 8192 to 16384, the last 1 to 16384, and at most one more chunk than the data holds 8192s |
| Chunking.WrapKeepsCuts | unity/objstorage.go:1188-1190 | The 32-bit hash cuts exactly where the unbounded polynomial would |
| Chunking.RollingHash | unity/objstorage.go:1208-1214 | The wrapping loop holds the low 32 bits of the base-31 polynomial |
| Chunking.ChunkData | unity/objstorage.go:1165-1205 | The nested loops over absolute positions compute the chunks |
| Chunking.FindEnd | unity/objstorage.go:1177-1198 | The inner loop finds the cut of what is left |
| DataDomainModel.RunInvariant | unity/objstorage.go:1042-1162 | Over every history each issued recipe rebuilds its data, each RefCount is the number of references issued to the segment, fingerprints and segments are in bijection, unique bytes are the size of what is stored, and unique plus duplicate bytes are the bytes ingested |
| DataDomainModel.RebuildAnswers | unity/objstorage.go:1131-1162 | Rebuilding a recipe issued earlier answers with exactly the bytes it was issued for |
| DataDomainModel.StepKeeps | unity/objstorage.go:1042-1162 | Each ingest, rebuild and collection keeps all of this |
| DataDomainModel.IngestKeeps | unity/objstorage.go:1042-1128 | An ingest keeps every earlier recipe and adds its own, with position, fingerprint and length on each reference |
| DataDomainModel.CollectChangesNothing | unity/objstorage.go:1333-1349 | No reference is ever taken back, so a collection never removes anything |
| DataDomainModel.WithoutOneMore | unity/objstorage.go:1341-1345 | Dropping a fingerprint drops its entry and its segment and nothing else |
| DataDomain.DataDomainEngine.StoreSegment | unity/objstorage.go:1083-1111 | Number, segment, backend bytes and index entry of a new segment |
| DataDomain.DataDomainEngine.TakeChunk | unity/objstorage.go:1061-1111 | Reuses a known segment or stores a new one, as the model |
| DataDomain.DataDomainEngine.DeduplicateAndStore | unity/objstorage.go:1042-1128 | The loop over the chunks yields the state and the recipe of the model |
| DataDomain.DataDomainEngine.ReconstructData | unity/objstorage.go:1131-1162 | Concatenates the segments in order, failing at a missing one |
| DataDomain.DataDomainEngine.CollectGarbage | unity/objstorage.go:1333-1349 | The loop over the index removes exactly the segments with count 0 |
| NvmeQueue.RunDeliversOnce | cpp-legacy/nvmedri.cpp:413-493 | In every run, with posts falling between any two takes, and over any number of wraps, the callbacks fired are those of the posted entries in posting order, each submission once and with the posted completion, and a handler call takes everything posted |
| NvmeQueue.PhaseTestIsExact | cpp-legacy/nvmedri.cpp:446-453 | The phase test succeeds if and only if an entry is unconsumed, and then the slot holds the oldest one; no stale slot is ever read |
| NvmeQueue.RunInvariant | cpp-legacy/nvmedri.cpp:413-493 | Ring and callback invariants hold at every point of every run |
| NvmeQueue.StepKeeps | cpp-legacy/nvmedri.cpp:413-493 | Submitting, posting, taking, ringing and handling keep them |
| NvmeQueue.SubmitKeepsExactly | cpp-legacy/nvmedri.cpp:413-429 | Submitting keeps the callbacks in order if and only if the id drawn is not still pending |
| NvmeQueue.SubmitKeeps | cpp-legacy/nvmedri.cpp:413-443 | The id drawn and its callback are tracked from then on |
| NvmeQueue.IdsGoRound | cpp-legacy/nvmedri.cpp:418-422 | In every run the k-th submission gets the id left of k after whole laps of the size |
| NvmeQueue.SlotIsRemainder | cpp-legacy/nvmedri.cpp:480-487 | The slot of entry k is what is left of k after whole laps |
| NvmeQueue.ReuseLosesCallback | cpp-legacy/nvmedri.cpp:416-429 | With an id reused while pending the older callback is lost and the newer one fires in its place |
| NvmeQueue.PostKeeps | cpp-legacy/nvmedri.cpp:449-453 | A controller that tags with the phase of the lap and stays within the acknowledged room never overwrites an unread entry |
| NvmeQueue.ConsumeKeeps | cpp-legacy/nvmedri.cpp:455-487 | Taking an entry fires exactly the callback of the submission it completes |
| NvmeQueue.ConsumeNKeeps | cpp-legacy/nvmedri.cpp:446-488 | Taking n entries fires the next n callbacks in posting order |
| NvmeQueue.ProcessKeeps | cpp-legacy/nvmedri.cpp:446-493 | After a handler call nothing posted is left |
| NvmeQueue.DoorbellKeeps | cpp-legacy/nvmedri.cpp:489-492 | A doorbell that is skipped at head 0 with phase 1 only lags |
| NvmeQueue.DoorbellIsUnambiguous | cpp-legacy/nvmedri.cpp:489-492 | From the register value alone the controller can tell how many entries were taken |
| NvmeQueue.RoomAfterProcess | cpp-legacy/nvmedri.cpp:489-492 | After a handler call the controller has room again if and only if the call did not end on head 0 with phase 1 with the queue full since the last doorbell |
| NvmeQueue.StallStays | cpp-legacy/nvmedri.cpp:489-492 | From a stalled state no step of host or controller leads out |
| NvmeQueue.StallIsForever | cpp-legacy/nvmedri.cpp:489-492 | A run that stalls never gets another completion |
| NvmeQueue.TwoSlotsStall | cpp-legacy/nvmedri.cpp:446-493 | A queue of two that handles one completion per call stalls for good after the fourth |
| NvmeQueue.OneAtATime | cpp-legacy/nvmedri.cpp:413-493 | What one submit, post and handler call do to head, phase and doorbell |
| NvmeQueue.Ahead | cpp-legacy/nvmedri.cpp:480-487 | Slot and phase of every position up to one lap on |
| NvmeQueue.Queue.constructor | cpp-legacy/nvmedri.cpp:376-396 | Starts at head 0 with phase 1 and a zeroed queue, where the invariant holds |
| NvmeQueue.Queue.SubmitCommand | cpp-legacy/nvmedri.cpp:413-443 | Draws the next id, stores the callback under it and puts the command into the slot of that id, so that the slot of every pending id holds the command whose callback is pending |
| NvmeQueue.Queue.DrawId | cpp-legacy/nvmedri.cpp:418-422 | The next id, starting again at 0 before it reaches the size |
| NvmeQueue.Queue.PushSubmission | cpp-legacy/nvmedri.cpp:431-440 | Writes the tail slot, advances the tail around the queue and rings its doorbell |
| NvmeQueue.Queue.ProcessCompletions | cpp-legacy/nvmedri.cpp:446-493 | The drain loop takes everything posted and rings the doorbell |
| NvmeQueue.Queue.TakeOne | cpp-legacy/nvmedri.cpp:447-488 | One turn of the loop, stopping exactly when nothing is left |
| EmulatedNvme.RunIsFifo | nvmedrv/driver_cgo.go:98-217 | Over all runs completions are polled in the order of the submits that returned 0, none lost or repeated; outstanding is accepted minus polled and at most depth - 1 |
| EmulatedNvme.PollsAnswerSubmits | nvmedrv/driver_cgo.go:138-217 | The k-th answered poll gives the command id of the k-th submit that returned 0 and the status it deserves |
| EmulatedNvme.RunAnswers | nvmedrv/driver_cgo.go:138-217 | The same of every completion accepted, with the status written out in the fields of the command: 0 for a flush, 0 or 1 for identify, 1 for an unknown opcode, and for a read or write 0 exactly when the buffer is long enough and the blocks lie within the device, else 2 |
| EmulatedNvme.ExecuteDeserves | nvmedrv/driver_cgo.go:129-210 | Executing a command gives that status |
| EmulatedNvme.SubmitRefusedExactly | nvmedrv/driver_cgo.go:110-118 | A submit returns -3 exactly when depth - 1 completions wait, otherwise 0 |
| EmulatedNvme.RunCounts | nvmedrv/driver_cgo.go:169-192 | The four counters are the numbers and bytes of successful reads and writes |
| EmulatedNvme.RunKeepsLastWrite | nvmedrv/driver_cgo.go:51-66 | Over all runs of commands with defined behaviour every byte of the device is what the last accepted write that touched it, by the 64-bit offset, put there, also when its completion found no room, or what it was at the start |
| EmulatedNvme.RunIsByteArray | nvmedrv/driver_cgo.go:51-66 | When the bound test can be trusted for every write of the run, the same by true block addresses: a byte is what the last write to a block holding it, within the device and with a buffer long enough, put there |
| EmulatedNvme.WritesAreTrue | nvmedrv/driver_cgo.go:51-66 | For a trusted write, accepted and touching is the same as within the device and covering |
| EmulatedNvme.BoundTestExactly | nvmedrv/driver_cgo.go:39-46 | The 64-bit bound test agrees with the real one if and only if the end of the command fits in 64 bits or its low 64 bits still exceed the device |
| EmulatedNvme.TestedEnd | nvmedrv/driver_cgo.go:39-46 | The test looks at the low 64 bits of the end of the command |
| EmulatedNvme.TrustedAddresses | nvmedrv/driver_cgo.go:39-46 | A trusted command that passes the test addresses the bytes it means |
| EmulatedNvme.DefinedExactly | nvmedrv/driver_cgo.go:39-48 | With a sufficient buffer the copy stays inside the device if and only if the sum does not wrap or is refused all the same |
| EmulatedNvme.WrappedSumPasses | nvmedrv/driver_cgo.go:56-65 | The input: two blocks from block 2^55 - 1 of a 4096-byte device pass the test |
| EmulatedNvme.AliasedWrite | nvmedrv/driver_cgo.go:56-65 | The other input: a write to block 2^55 overwrites block 0 |
| EmulatedNvme.WriteSetsByte | nvmedrv/driver_cgo.go:51-66 | One event sets exactly the bytes an accepted write touches |
| EmulatedNvme.ReadDelivers | nvmedrv/driver_cgo.go:34-49 | A successful trusted read delivers, byte by byte, the blocks it names |
| EmulatedNvme.ReadAfterWrite | nvmedrv/driver_cgo.go:34-66 | Reading the blocks just written delivers the bytes written |
| EmulatedNvme.OtherBytesUntouched | nvmedrv/driver_cgo.go:51-66 | Bytes outside the blocks a trusted write names, and all bytes on a failure, stay |
| EmulatedNvme.OverwriteBytes | nvmedrv/driver_cgo.go:64-65 | Copying changes the addressed bytes and no other |
| EmulatedNvme.StepKeepsFifo | nvmedrv/driver_cgo.go:146-217 | Each submit and poll keeps the queue order and the bound |
| EmulatedNvme.CompletionRing.constructor | nvmedrv/driver_cgo.go:98-108 | An empty ring; depths 0 and beyond 256 become 64 |
| EmulatedNvme.CompletionRing.Push | nvmedrv/driver_cgo.go:110-118 | Appends, or refuses exactly when depth - 1 entries are queued |
| EmulatedNvme.CompletionRing.Pop | nvmedrv/driver_cgo.go:120-127 | Takes the oldest entry, or nothing when empty |
| EmulatedNvme.Controller.constructor | nvmedrv/driver_cgo.go:219-234 | A zeroed device and an empty ring |
| EmulatedNvme.Controller.Transfer | nvmedrv/driver_cgo.go:34-66 | Copies between buffer and device, or reports status 2, whenever the copy the code makes stays inside the device |
| EmulatedNvme.Controller.SubmitCommand | nvmedrv/driver_cgo.go:146-217 | One submit event of the run relation and the bytes delivered to the caller |
| EmulatedNvme.Controller.PollCompletion | nvmedrv/driver_cgo.go:281-286 | One poll event of the run relation |
| ReplicationJournal.RunLosesNothing | pstorage/src/pstorage/activecluster/replication.py:120-285 | Under every interleaving of queueing, passes, aborted passes and peer changes, an accepted operation is in the journal exactly once until it has reached a peer or met none; sequence numbers are distinct; operations_pending is the journal length |
| ReplicationJournal.PassSendsJournal | pstorage/src/pstorage/activecluster/replication.py:271-285 | At every point of a pass what it has begun to send, in order, and what it still has to send make up the journal at its start |
| ReplicationJournal.PassTriesAll | pstorage/src/pstorage/activecluster/replication.py:271-285 | A pass that was not aborted and has nothing left has tried every entry once, in order |
| ReplicationJournal.PassKeepsOrder | pstorage/src/pstorage/activecluster/replication.py:271-285 | Of two operations one pass sends, the one queued first is sent first |
| ReplicationJournal.RunOrders | pstorage/src/pstorage/activecluster/replication.py:120-212 | In every run the journal is in the order of queueing, each operation is queued once, and the sequence number counts the draws |
| ReplicationJournal.AcknowledgedIsSent | pstorage/src/pstorage/activecluster/replication.py:194-206 | A send succeeds exactly when a peer acknowledged or there was none at its start or end |
| ReplicationJournal.AcknowledgedLeaves | pstorage/src/pstorage/activecluster/replication.py:279-285 | An operation sent successfully leaves the journal, which loses nothing else |
| ReplicationJournal.RunInvariant | pstorage/src/pstorage/activecluster/replication.py:120-285 | The invariant behind it at every point of every run |
| ReplicationJournal.StepKeeps | pstorage/src/pstorage/activecluster/replication.py:120-285 | Each critical section keeps it |
| ReplicationJournal.RemoveFirstExact | pstorage/src/pstorage/activecluster/replication.py:281-285 | Removal takes out exactly one entry |
| ReplicationJournal.JournalCanBeOutOfOrder | pstorage/src/pstorage/activecluster/replication.py:141-159 | Numbers are drawn and queued in separate sections, so a journal can end up out of sequence order |
| ReplicationJournal.QueueKeepsOrderExactly | pstorage/src/pstorage/activecluster/replication.py:208-212 | Queueing keeps sequence order if and only if the number is beyond the last one queued |
| ReplicationJournal.ReplicationEngine.constructor | pstorage/src/pstorage/activecluster/replication.py:72-96 | Starts with an empty journal |
| ReplicationJournal.ReplicationEngine.AddPeer | pstorage/src/pstorage/activecluster/replication.py:98-110 | One peer-added step |
| ReplicationJournal.ReplicationEngine.RemovePeer | pstorage/src/pstorage/activecluster/replication.py:112-118 | One peer-removed step |
| ReplicationJournal.ReplicationEngine.NextOperation | pstorage/src/pstorage/activecluster/replication.py:141-153 | Draws a number no operation has |
| ReplicationJournal.ReplicationEngine.QueueForAsync | pstorage/src/pstorage/activecluster/replication.py:208-212 | One queueing step |
| ReplicationJournal.ReplicationEngine.StartPass | pstorage/src/pstorage/activecluster/replication.py:271-277 | A pass works on a copy of the journal |
| ReplicationJournal.ReplicationEngine.BeginSend | pstorage/src/pstorage/activecluster/replication.py:178-192 | Starts one send and notes whether there was any peer |
| ReplicationJournal.ReplicationEngine.EndSend | pstorage/src/pstorage/activecluster/replication.py:194-206 | Succeeds exactly when a peer acknowledged or there was none, at start or end |
| ReplicationJournal.ReplicationEngine.RemoveReplicated | pstorage/src/pstorage/activecluster/replication.py:281-285 | The search and removal is one removal step |
| ReplicationJournal.RemoveAtFirst | pstorage/src/pstorage/activecluster/replication.py:283-284 | Removal cuts at the first occurrence and keeps the order of the others |
| ReplicationJournal.ReplicationEngine.AbortPass | pstorage/src/pstorage/activecluster/replication.py:244-269 | A cancelled or failed pass leaves the journal alone |
| ClusterModel.RunKeepsOnePrimary | pstorage/src/pstorage/activecluster/mediator.py:208-284 | In every run from cluster initialisation at most one node has role PRIMARY, and it is the current primary; every failover is counted as successful or failed |
| ClusterModel.FailoverIsSafe | pstorage/src/pstorage/activecluster/failover.py:102-208 | A due failover succeeds if and only if there is a healthy majority and a candidate; it then picks the lowest-id healthy non-witness, never the failed primary, and makes it the only primary |
| ClusterModel.ElectionAnswers | pstorage/src/pstorage/activecluster/mediator.py:227-263 | An election answers if and only if more than half of the members are healthy and one of these is no witness; the answer is then the only primary, and health and membership stay |
| ClusterModel.NoNeedlessFailover | pstorage/src/pstorage/activecluster/failover.py:110-127 | With a healthy or unknown primary, or a failover already made, nothing happens |
| ClusterModel.NoNeedlessFailback | pstorage/src/pstorage/activecluster/failover.py:217-237 | Failback happens only when enabled, after a failover, with the original known and healthy |
| ClusterModel.ManualFailoverIs | pstorage/src/pstorage/activecluster/failover.py:134-155 | A known target becomes the only primary; an unknown one changes no role and is recorded all the same |
| ClusterModel.FailbackRestores | pstorage/src/pstorage/activecluster/failover.py:210-278 | Failback makes the recovered original the only primary |
| ClusterModel.ViewsAgreeExactly | pstorage/src/pstorage/activecluster/mediator.py:227-263 | Two views of one membership elect the same node if and only if the lowest-id node that is a candidate in either view is a candidate in both, and if and only if each winner is healthy in the view of the other |
| ClusterModel.ViewsCanDisagree | pstorage/src/pstorage/activecluster/mediator.py:227-263 | For any three secondaries two quorate views exist that elect different primaries |
| ClusterModel.QuorumsIntersect | pstorage/src/pstorage/activecluster/mediator.py:208-225 | Two quorate views share a healthy node |
| ClusterModel.StepKeeps | pstorage/src/pstorage/activecluster/mediator.py:227-284 | Each membership, health, election, failover and failback step keeps the single primary |
| ClusterModel.PromotedHasOnePrimary | pstorage/src/pstorage/activecluster/mediator.py:256-261 | Updating the roles leaves one primary and the same members |
| ClusterModel.LessIsTotal | pstorage/src/pstorage/activecluster/mediator.py:249-251 | Node ids are totally ordered, so the election has one winner |
| ClusterModel.LessExactly | pstorage/src/pstorage/activecluster/mediator.py:249-251 | One id is lower than another exactly when it is a proper prefix of it or has the smaller character where they first differ |
| ClusterModel.LessIsTransitive | pstorage/src/pstorage/activecluster/mediator.py:249-251 | The order is transitive |
| ActiveCluster.Mediator.AddNode | pstorage/src/pstorage/activecluster/mediator.py:100-113 | Adds a healthy node |
| ActiveCluster.Mediator.RemoveNode | pstorage/src/pstorage/activecluster/mediator.py:115-121 | Removes a node, keeping the current primary as it is |
| ActiveCluster.Mediator.Quorate | pstorage/src/pstorage/activecluster/mediator.py:208-225 | The count finds a quorum exactly when a strict majority is healthy |
| ActiveCluster.Mediator.LowestCandidate | pstorage/src/pstorage/activecluster/mediator.py:239-252 | The healthy non-witness with the lowest id |
| ActiveCluster.Mediator.UpdateRoles | pstorage/src/pstorage/activecluster/mediator.py:254-261 | The loop promotes one node and demotes every other primary |
| ActiveCluster.Mediator.InitiateElection | pstorage/src/pstorage/activecluster/mediator.py:227-263 | The election relation; counted exactly when there is a quorum |
| ActiveCluster.Mediator.SetPrimary | pstorage/src/pstorage/activecluster/mediator.py:269-284 | Fails exactly for an unknown node |
| ActiveCluster.FailoverController.CheckAndFailover | pstorage/src/pstorage/activecluster/failover.py:102-132 | One failover-check step |
| ActiveCluster.FailoverController.ExecuteFailover | pstorage/src/pstorage/activecluster/failover.py:157-208 | Elects unless a node is named, and records the outcome |
| ActiveCluster.FailoverController.ManualFailover | pstorage/src/pstorage/activecluster/failover.py:134-155 | One manual failover step; an unknown target is still recorded |
| ActiveCluster.FailoverController.CheckAndFailback | pstorage/src/pstorage/activecluster/failover.py:210-240 | Fails back exactly when enabled, failed over and the original is healthy |
| ActiveCluster.FailoverController.ExecuteFailback | pstorage/src/pstorage/activecluster/failover.py:242-278 | Makes the original primary again and returns to NORMAL |
| ActiveCluster.FailoverController.ManualFailback | pstorage/src/pstorage/activecluster/failover.py:280-289 | Fails back exactly when failed over with a known original |
| Forecast.FitIsOptimal | pstorage/src/pstorage/analytics/predictor.py:186-202 | No line has smaller squared residuals than the fitted one, also when all times coincide |
| Forecast.ConfidenceNeedsNoClamp | pstorage/src/pstorage/analytics/predictor.py:226-231 | R-squared lies in 0 to 1 by itself; the clamp never acts |
| Forecast.DenominatorSign | pstorage/src/pstorage/analytics/predictor.py:193-197 | The denominator is never negative and zero if and only if all timestamps coincide |
| Forecast.NormalEquations | pstorage/src/pstorage/analytics/predictor.py:193-202 | The fitted line balances the residuals and their moments |
| Forecast.ResidualsMove | pstorage/src/pstorage/analytics/predictor.py:227-230 | Moving away from a line changes the residuals by a linear and a square part |
| Forecast.PredictIsMonotone | pstorage/src/pstorage/analytics/predictor.py:210-213 | With slope at least 0 a longer horizon never predicts less; predictions stay between usage and capacity |
| Forecast.ThresholdsAreOrdered | pstorage/src/pstorage/analytics/predictor.py:216-224 | A higher threshold is never reached earlier; days are given for both or neither |
| Forecast.ForecastIsConsistent | pstorage/src/pstorage/analytics/predictor.py:154-245 | The whole forecast: never below usage, horizons and threshold days ordered, confidence a fraction |
| Forecast.ForecastMeaning | pstorage/src/pstorage/analytics/predictor.py:154-245 | Every number: the predictions are the whole bytes of the line 7, 30 and 90 days from now, kept between usage and capacity; the day counts bracket 80, 90 and 99 percent of the capacity at the daily growth, at least a byte; confidence times the squared deviations is what the line explains of them |
| Forecast.PredictMeaning | pstorage/src/pstorage/analytics/predictor.py:210-213 | One prediction |
| Forecast.DaysMeaning | pstorage/src/pstorage/analytics/predictor.py:216-224 | One threshold |
| Forecast.ConfidenceMeaning | pstorage/src/pstorage/analytics/predictor.py:226-231 | The share of the squared deviations the line explains, 0 if there are none |
| Forecast.FitIsUnique | pstorage/src/pstorage/analytics/predictor.py:193-202 | With two different times no other line satisfies the normal equations |
| StripePlacement.PlacementCovers | powerscale/powerscale.go:364-395 | After i shards the chosen nodes cover exactly the smaller of i and the number of fault domains |
| StripePlacement.ProbeVisitsAll | powerscale/powerscale.go:380-388 | The wrapping probe gives up only when every domain is used |
| StripePlacement.ProbeCovers | powerscale/powerscale.go:380-391 | Each shard adds a domain unless all are used |
| StripePlacement.FewShardsFewDomains | powerscale/powerscale.go:364-395 | With no more shards than domains no two shards share one |
| StripePlacement.ShardsInDifferentRanges | powerscale/powerscale.go:364-395 | With no more shards than ranges 4k to 4k + 3 that hold a node, no two shards are placed in one range |
| StripePlacement.DomainRange | powerscale/powerscale.go:563-567 | Which node ids make up a domain, negative ones included |
| StripePlacement.DomainsAreRanges | powerscale/powerscale.go:563-567 | The domains are the ranges that hold a node |
| StripePlacement.PlacementIsFirst | powerscale/powerscale.go:373-391 | Each shard goes to the first node, from the one its hash names on, whose domain no earlier shard uses, or to the one its hash names |
| StripePlacement.ProbeIsFirst | powerscale/powerscale.go:380-388 | The probe takes the first such node around the ring |
| StripePlacement.PlacementPrefix | powerscale/powerscale.go:364-395 | Later shards do not move earlier ones |
| StripePlacement.SelectNodesForStripe | powerscale/powerscale.go:364-395 | The nested loops compute the placement, and every prefix of it covers as many domains as possible |
| DirectFlash.WearLeveling.constructor | pstorage/src/pstorage/directflash/wear_leveling.py:39-53 | Starts with no block moved and no write counted |
| StorageArray.DeduplicationEngine.constructor | pstorage/src/pstorage/purity/deduplication.py:55-69 | Starts with an empty table |
| StorageArray.PurityEngine.constructor | pstorage/src/pstorage/purity/engine.py:65-89 | Starts with an empty store |
| StorageArray.StorageController.constructor | pstorage/src/pstorage/core/controller.py:48-61 | Starts as the empty array of the runs |
| DataDomain.DataDomainEngine.constructor | unity/objstorage.go:1017-1039 | Starts as the new engine of the histories |
| ActiveCluster.Mediator.constructor | pstorage/src/pstorage/activecluster/mediator.py:63-82 | Starts without nodes and without a primary |
| ActiveCluster.FailoverController.constructor | pstorage/src/pstorage/activecluster/failover.py:66-87 | Starts NORMAL with all counters at 0 |

## Left out

- FlashRuns.RunRefinesMap: simulator operations are taken as atomic; none of them suspends while it holds or takes a free lock, so the single event loop cannot interleave them, and the stop test inside the collector's loop never sees a change. The background loop's timing is not modelled; each of its cycles is a collection event.
- FlashMaintenance.CollectMakesSpace: utilization is an exact fraction, not a float.
- DirectFlash.BlockManager.LeastWorn: ties between equally worn free blocks are left open, since they follow the set's iteration order.
- DirectFlash: block objects are values in a sequence, so aliasing of block objects is not modelled. `allocate_block`, hot-data queries, wear distribution, capacity, health and latency figures are left out as one-branch facts.
- Reduction.RoundTripExactly: the compression ratio is an exact fraction, not a float; the algorithm setting "none", which no engine setting selects, is not modelled, and all three reduction stages are enabled, as by default.
- DedupModel.StoreKeeps: markers are excluded, exactly as DedupModel.StoreKeepsExactly says; counts are lower bounds here and exact in ArrayCounts.CountsAreExact, where overwritten blocks, writes refused for size and pattern blocks stay counted.
- StorageArray: the counters of bytes saved, used, logical and physical bytes, names, tags and timestamps, volume resizing and the file backend's paths and metadata; the backend is a map from block id to bytes. Each controller call is taken as atomic although the file backend suspends.
- ArrayRuns.RunRefinesMaps: covers every write but that of marker bytes, which can cost other volumes their data (ArraySharing.MarkerLosesData), and restores into the own volume of the snapshot, with no clone. A restore without a target volume is a volume creation followed by a restore into it, up to the float conversion of its size.
- ArraySharing.SharingRunDeletion: states the effect of the first volume deletion after copies were made; restores of a snapshot whose volume is already gone are not covered.
- ArrayModel: a block size of 0, on which the code fails with a division error, is treated as misaligned.
- DataDomainModel.RunInvariant: segment numbers do not wrap at 64 bits; the index maps a fingerprint to the number of the segment where the code keeps the segment object; stored segments are values, where the code keeps slices of the buffer of the caller, so a caller that reuses its buffer changes stored segments (objstorage.go:1086 and 1200); ingests are atomic, so two concurrent ingests of the same new chunk are not modelled; the compressor is the stand-in of the code that returns its input; timestamps, recipe ids and ratios are left out.
- NvmeQueue.RunDeliversOnce: DMA addresses and latency are left out, and so is how the controller fetches commands from the submission queue.
- EmulatedNvme.Execute: the contents of the identify page are not modelled, only its status.
- EmulatedNvme.Controller.SubmitCommand: excludes exactly the reads and writes whose copy would leave the memory of the device, which have no defined behaviour (EmulatedNvme.DefinedExactly); the counters do not wrap at 64 bits.
- EmulatedNvme.Controller.Transfer: the same exclusion.
- ReplicationJournal.RunLosesNothing: peer health states, HTTP and latency become the number of acknowledgements of a send; synchronous mode sends without a journal and is left out.
- ClusterModel.RunKeepsOnePrimary: heartbeats and timeouts become arbitrary health changes; callbacks, event history, averages and the transient FAILING_OVER and FAILING_BACK states are left out; node ids are taken to be non-empty, since the code treats an empty one as absent.
- Forecast.FitIsOptimal: exact reals instead of floats.
- StripePlacement.SelectNodesForStripe: the FNV hashes of stripe and shard number are parameters; the node count is the length of the node list.
- REST routes, command-line tools, deployment files, S3 buckets and versions, VPLEX, ZNS zones, OneFS file reads and writes, Reed-Solomon coding, the NVMe-oF wire path and the declared-only C++ allocators are left out: they are input and output, stubs, or would only add easy members.
