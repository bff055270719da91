# Verified models of the NVDEC VA-API driver core

The driver keeps its decode state in a handful of small data structures and
protocols. This project models them in Dafny and proves what they are for:

- `AppendableBuffer.dfy`: the growable buffer, its overflow guards and the amortised
  cost of its growth.
- `IntervalTree.dfy`, `IntervalIndex.dfy`: the arena-allocated AVL index of byte ranges,
  shown to behave as a plain set of disjoint ranges over any run.
- `ResolveQueue.dfy`, `ResolveQueueThreads.dfy`, `ResolveQueueRuns.dfy`: the bounded queue
  between decode and resolve threads; no wakeup is lost, every accepted item is the one
  its thread pushed, and it is delivered once and in order, for any number of threads.
- `ObjectTable.dfy`, `ObjectTableRuns.dfy`: the generational handle table, shown to be a
  finite map from ids to objects, and how long a stale id stays dead.
- `Av1Obu.dfy`, `Av1Units.dfy`, `Av1TileSizes.dfy`, `Av1SkipMode.dfy`: the AV1 header
  walk, tile layout and order-hint arithmetic, against the AV1 specification.
- `Av1Tiles.dfy`, `Av1Context.dfy`, `Av1Orders.dfy`, `Av1Arrivals.dfy`,
  `Av1LateData.dfy`: tile registration, its independence of submission order, bitstream
  compaction, parameters before data against data before parameters, and slice data that
  comes too late.
- `DetachedCache.dfy`: the cache of backing images without a surface.
- `JpegSegments.dfy`, `JpegTables.dfy`, `JpegFrame.dfy`, `JpegWriter.dfy`,
  `JpegReader.dfy`, `JpegScans.dfy`, `JpegSlices.dfy`: rebuilding a baseline JPEG stream from client
  buffers, inside a computed bound, such that a reader gets everything back.
- `SliceAssembly.dfy`: two-pass assembly of an H.264 bitstream.
- `TimingHistogram.dfy`: percentile bounds from a logarithmic histogram.
- `Basics.dfy`, `FiniteSets.dfy`: machine limits, the optional value, and counting facts
  about sets of indices.

State that the driver updates in place is a class whose methods are proved against
functions on values; what the driver promises is proved about those functions and about
whole runs. Outcomes of memory allocation, and which sleeper a signal wakes, are inputs,
so every theorem holds for all of them. Locked regions are atomic steps.

Where the code does less than one might expect, the exact condition and an input are
given:

- `Av1SkipMode.SecondIsPast` says when the second skip-mode reference really lies in the
  past (`SecondCanBeCurrent`).
- `Av1Arrivals.BothArrivals` says when parameters before data and data before parameters
  end alike: a record refused behind a complete set of tiles makes only one of them
  compact (`LateRejectionHappens`).
- `Av1LateData.LateDataSpares` says when slice data after compaction leaves every tile as
  it was; data as long as what was dropped never can (`LongLateDataHits`,
  `TwoLateBytesHarm`).
- `SliceAssembly.PassOutcome` says when slice assembly is all or nothing: the first pass
  adds the start code in 32 bits, so sizes above 0xFFFFFFFC are measured too small
  (`LargestSliceMeasuresNothing`, `WrappedOffset`).
- `JpegSlices.RegionHoldsFrame` says when the reserved region holds the frame: its size is
  summed in 64 bits (`BoundCanWrap`).
- `JpegFrames.FrameParses` says when the frame header keeps the sampling factors
  (`WideFactorIsLost`).
- `JpegScans.AllRestartsInForce` says when every scan is decoded with its own restart
  interval (`RestartLost`).

## Model

| member | source | states |
|---|---|---|
| `AppendableBuffers.Grown` | src/appendable-buffer.c:13-21 | the growth loop ends for every starting capacity and never settles below what was required or what was held |
| `AppendableBuffers.AppendableBuffer.Reserve` | src/appendable-buffer.c:8-37 | succeeds exactly when the block is large enough or memory is granted; the logical contents survive reallocation; the new capacity is the growth loop's; a failure only sets the failed flag |
| `AppendableBuffers.AppendableBuffer.ReserveAdditional` | src/appendable-buffer.c:39-45 | the same for room behind the contents, and refusal exactly when the byte count would pass SIZE_MAX |
| `AppendableBuffers.AppendableBuffer.ReserveElements` | src/appendable-buffer.c:47-53 | refusal exactly when elements times element size, added to the size, leaves the size type; the division test is shown to be that overflow test |
| `AppendableBuffers.AppendableBuffer.Append` | src/appendable-buffer.c:55-72 | all or nothing: contents gain exactly the data or stay as they were; the result in terms of null data, overflow, capacity and the allocation; the byte ledger follows `AppendStep` |
| `AppendableBuffers.AppendableBuffer.Trim` | src/appendable-buffer.c:74-104 | contents unchanged; capacity becomes the larger of target and size when that is smaller; a failed allocation keeps the old block |
| `AppendableBuffers.GrowthIsGeometric` | src/appendable-buffer.c:14-21 | one reallocation multiplies the capacity by at least 3/2 (less one byte), short of two thirds of SIZE_MAX |
| `AppendableBuffers.GrowthIsTight` | src/appendable-buffer.c:14-21 | and it settles on at most half as much again as was required |
| `AppendableBuffers.FirstBlocks` | src/appendable-buffer.c:13-21 | the first block has 256 bytes and each step adds half, rounded down; a block too small to halve gets exactly what was asked |
| `AppendableBuffers.GrowthSaturates` | src/appendable-buffer.c:16-19 | past that point the block gets exactly what was asked |
| `AppendableBuffers.AppendStepAmortised` | src/appendable-buffer.c:55-72 | one append keeps the potential that bounds the bytes copied by the capacity and by the size |
| `AppendableBuffers.AppendRunAmortised` | src/appendable-buffer.c:8-37 | every append-only run from an empty buffer keeps that potential, refused allocations included |
| `AppendableBuffers.AppendAll` | src/appendable-buffer.c:55-72 | a whole run on a real buffer: the contents are the accepted chunks end to end, and all reallocations together copied at most 3.01 times the final size |
| `IntervalTrees.InsertAdds` | src/av1-interval-index.c:32-49 | inserting a clear range adds exactly that range and keeps the search order, through every rotation case |
| `IntervalTrees.InsertAddsId` | src/av1-interval-index.c:32-49 | inserting adds exactly one slot id and leaves all ids distinct |
| `IntervalTrees.InsertBalances` | src/av1-interval-index.c:32-49 | sibling heights differ by at most one after every insertion, the height grows by at most one, and the rotations never meet a missing child |
| `IntervalTrees.RebalanceLeft` | src/av1-interval-index.c:39-43 | the single or double rotation on the left restores balance; which grandchild grew is what makes the choice by start value right |
| `IntervalTrees.RebalanceRight` | src/av1-interval-index.c:44-47 | the mirror case |
| `IntervalTrees.HeightBound` | src/av1-interval-index.c:9-13 | a balanced tree of at most 4096 nodes has at most 16 levels, so the 8-bit height never wraps |
| `IntervalTrees.InOrderIncreases` | src/av1-interval-index.c:36-37 | an in-order walk meets strictly increasing starts |
| `IntervalTrees.OrderedIsDisjoint` | src/av1-interval-index.c:57-62 | two different stored ranges never overlap |
| `IntervalTrees.OverlapIsCommonByte` | src/av1-interval-index.c:51-60 | ranges count as overlapping exactly when they have a byte in common |
| `IntervalIndexes.IntervalIndex.UpdateHeight` | src/av1-interval-index.c:9-13 | the stored height of a node becomes exact and nothing else in the arena changes; the 8-bit truncation is written out |
| `IntervalIndexes.IntervalIndex.RotateLeftAt` | src/av1-interval-index.c:14-22 | the link writes in the arena realise a left rotation of the tree it spells, touching two nodes only |
| `IntervalIndexes.IntervalIndex.RotateRightAt` | src/av1-interval-index.c:23-31 | the mirror image |
| `IntervalIndexes.IntervalIndex.Settle` | src/av1-interval-index.c:38-48 | deciding from stored heights gives the tree's own rebalancing; only nodes of the subtree change |
| `IntervalIndexes.IntervalIndex.InsertAt` | src/av1-interval-index.c:32-49 | the recursive in-place insertion leaves the arena spelling the balanced insertion of the new slot, and touches only that subtree and the new node |
| `IntervalIndexes.IntervalIndex.FindsOverlap` | src/av1-interval-index.c:56-62 | the descent along one path finds an overlap exactly when some stored range overlaps |
| `IntervalIndexes.IntervalIndex.Add` | src/av1-interval-index.c:51-72 | true exactly when the range is non-empty, fewer than 4096 are stored, it is clear of every stored range, and storage was available; then exactly that range is added, otherwise the set is unchanged; so the `maxEnd` shortcut is complete |
| `IntervalIndexes.IntervalIndex.Accept` | src/av1-interval-index.c:64-71 | reallocating the arena loses no node; the range goes in exactly when storage was obtained |
| `IntervalIndexes.IntervalIndex.Reset` | src/av1-interval-index.c:74-79 | the index is empty, its flag cleared, and its storage kept |
| `IntervalIndexes.KeptByPrefix` | src/av1-interval-index.c:64-68 | the tree below `count` survives any reallocation that copies those nodes |
| `IntervalIndexes.NodesExact` | src/av1-interval-index.c:9-13 | every node of the arena stores the range and the exact height of its subtree, and its children differ by at most one level |
| `IntervalIndexes.ArenaIsAvl` | src/av1-interval-index.c:9-49 | in every valid index the ids 1..count are each used by exactly one node, every stored height is exact and at most 16, siblings differ by at most one level, the in-order walk meets strictly increasing starts, ranges are pairwise disjoint |
| `IntervalIndexes.RunIndex` | src/av1-interval-index.c:51-79 | over any run of insertions and resets, and any allocation outcomes, the index gives the answers and ends with the ranges of a plain set, which takes a range exactly when it is not empty, fewer than 4096 are stored, storage was obtained, and every stored range ends before it or begins behind it |
| `ResolveQueues.PutAppends` | src/resolve-queue.c:79-85 | writing at the write index appends to the queue and keeps unused slots null |
| `ResolveQueues.TakeRemovesOldest` | src/resolve-queue.c:108-111 | clearing the read slot removes the oldest item and keeps unused slots null |
| `ResolveQueues.ResolveQueue.TryPush` | src/resolve-queue.c:54-93 | one pass of the locked region: wait, refuse after exit, or append; the whole new ring state |
| `ResolveQueues.ResolveQueue.TryPop` | src/resolve-queue.c:95-118 | one pass: sleep, finish only when empty and exiting, or hand out the oldest item |
| `ResolveQueues.ResolveQueue.Shutdown` | src/resolve-queue.c:120-130 | only the exit flag changes, so accepted items stay queued |
| `ResolveQueues.ResolveQueue.Cancel` | src/resolve-queue.c:132-158 | drains the ring; hands back the oldest items in order, all of them when there is room for 16; every slot is null afterwards |
| `ResolveQueueThreads.PushRegionKeeps` | src/resolve-queue.c:58-91 | a push, fresh or woken, keeps the wakeup bookkeeping and the item history |
| `ResolveQueueThreads.PopRegionKeeps` | src/resolve-queue.c:97-116 | the same for a pop |
| `ResolveQueueThreads.StirKeeps` | src/resolve-queue.c:58-65 | spurious wakeups keep it too |
| `ResolveQueueThreads.NextKeeps` | src/resolve-queue.c:54-158 | every step of any number of threads keeps the whole invariant: well-formed ring, wakeup bookkeeping, exactly-once history |
| `ResolveQueueThreads.NeverStuck` | src/resolve-queue.c:54-130 | in every reachable open state a sleeping producer means at most as many free slots as woken producers, a sleeping consumer at most as many items as woken consumers; with nobody woken the two never sleep together |
| `ResolveQueueThreads.ExitIsFinal` | src/resolve-queue.c:74-158 | after shutdown or cancel nobody is asleep or falls asleep again, no push is accepted, and histories only grow |
| `ResolveQueueThreads.FifoExactlyOnce` | src/resolve-queue.c:79-158 | over any run the accepted items are the popped, then the cancelled, then the queued ones, in order; that they are what the callers pushed is `ResolveQueueRuns.DeliveredIsPushed` |
| `ResolveQueueThreads.HighWaterIsPeak` | src/resolve-queue.c:84-85 | `highWater` is the largest depth the run has reached, and was reached |
| `ResolveQueueRuns.PushInRun` | src/resolve-queue.c:54-93 | over any run, each pass of a push is about the item that its own thread last asked to push: refused when exiting, asleep when full, otherwise that item and no other goes behind the rest |
| `ResolveQueueRuns.OnlyPushesAccept` | src/resolve-queue.c:54-93 | nothing else is ever accepted |
| `ResolveQueueRuns.PopInRun` | src/resolve-queue.c:95-118 | over any run, a pass of a pop hands out what has been queued longest, shutdown or not; with nothing queued it sleeps while the queue is open and ends when it is not |
| `ResolveQueueRuns.DeliveredIsPushed` | src/resolve-queue.c:54-158 | over any run, what consumers received, then what cancel handed back, then what is queued, is exactly the items the producers asked to push, in the order in which the queue took them |
| `ResolveQueueRuns.PushOnce` | src/resolve-queue.c:54-93 | a pass of a push on the real ring does to it what the step system does, and its outcome decides what becomes of the thread |
| `ResolveQueueRuns.PopOnce` | src/resolve-queue.c:95-118 | the same for a pop, whose outcome carries the item |
| `ResolveQueueRuns.CancelOnce` | src/resolve-queue.c:132-158 | cancel with room for sixteen hands back exactly what the step drains |
| `ResolveQueueRuns.ShutdownOnce` | src/resolve-queue.c:120-130 | and shutdown leaves the ring of the shutdown step |
| `ResolveQueueRuns.StepsAvailable` | src/resolve-queue.c:54-158 | only its own sleep keeps a thread from going on; a signal may go to any one sleeper, and any sleeper may wake by itself |
| `ObjectTables.IdRoundTrip` | src/object-table.c:14-23 | decoding gives a generation and index exactly when the id, modulo 2^31, is their encoding |
| `ObjectTables.LookupDecides` | src/object-table.c:95-104 | slot, generation and object together decide whether an id is live |
| `ObjectTables.GrownKeeps` | src/object-table.c:31-59 | growth keeps the invariant and leaves a free slot |
| `ObjectTables.GrownKeepsLive` | src/object-table.c:31-59 | growth neither adds nor loses an object |
| `ObjectTables.TakeSlotAdds` | src/object-table.c:69-93 | a successful allocation adds exactly one object under a non-zero id that was not live |
| `ObjectTables.TakeSlotFails` | src/object-table.c:75-85 | a failed object allocation only moves the slot to the back of the free list |
| `ObjectTables.RemovedTakesAway` | src/object-table.c:106-134 | a removal takes away exactly the object with that id modulo 2^31 |
| `ObjectTables.ObjectTable.Grow` | src/object-table.c:31-59 | the concrete growth, with the old tail linked to the fresh slots, is the growth of the value model |
| `ObjectTables.ObjectTable.Allocate` | src/object-table.c:61-93 | every branch: refused kind or payload, no slot, failed payload allocation, success; an object comes out exactly when kind and payload are in range, a slot is free or can be added, and memory is granted, and then it has that kind and payload under an id that was not live and now is |
| `ObjectTables.ObjectTable.Get` | src/object-table.c:95-104 | finds an object exactly when a live one has that type and that id modulo 2^31 |
| `ObjectTables.ObjectTable.Remove` | src/object-table.c:106-134 | removes exactly that object, advances the generation skipping zero, and links the slot last; the chain from head to tail holds exactly the free slots, and live count plus chain length is the capacity |
| `ObjectTables.ObjectTable.RemoveTyped` | src/object-table.c:136-139 | the same, only when the type matches |
| `ObjectTableRuns.RunTable` | src/object-table.c:31-139 | any run from an empty table ends in the state the value model gives |
| `ObjectTableRuns.LiveIdsDiffer` | src/object-table.c:14-16 | live ids are distinct and non-zero |
| `ObjectTableRuns.RunGeneration` | src/object-table.c:118-122 | along any run a slot's generation counts its removals modulo 65535 |
| `ObjectTableRuns.StaleGeneration` | src/object-table.c:118-122 | after a removal the slot spells the old id again exactly when its removals, that one included, are a multiple of 65535 |
| `ObjectTableRuns.StaleIdMisses` | src/object-table.c:61-134 | until then the id resolves to nothing and is not issued, whatever the run |
| `ObjectTableRuns.FreedSlotWaits` | src/object-table.c:69-74 | a slot behind p free slots is not handed out before p further attempts have taken a slot |
| `ObjectTableRuns.StepCapacity` | src/object-table.c:31-58 | the table grows only when no slot is free, to 4096 slots or to twice as many, up to 32768 |
| `ObjectTableRuns.RunCapacity` | src/object-table.c:31-58 | so along any run it has 0, 4096, 8192, 16384 or 32768 slots |
| `Av1Obu.LebRoundTrip` | src/av1.c:58-71 | reading inverts encoding exactly for the values that fit in the remaining bytes, and fails otherwise |
| `Av1Obu.LebInverts` | src/av1.c:58-71 | values below 2^56 survive a write and a read; larger ones are refused |
| `Av1Obu.LebBytes` | src/av1.c:58-71 | the bytes of some numbers: groups of seven bits, low group first |
| `Av1Obu.ReadLeb128` | src/av1.c:58-71 | the accumulating loop reads the same value and position as the recursive definition, and fails in the same cases |
| `Av1Obu.ChainIsContiguous` | src/av1.c:78-110 | units on the header chain follow each other without gaps and stay in the buffer |
| `Av1Obu.OneCarrier` | src/av1.c:102-104 | at most one unit of the chain carries a given byte |
| `Av1Obu.ParseObu` | src/av1.c:79-101 | one header is read as sections 5.3.1 to 5.3.3 of the AV1 specification lay it out, or refused when it is not whole |
| `Av1Obu.FindObuStart` | src/av1.c:73-113 | the walk ends and returns the start of the unit that carries the tile, or of its predecessor exactly when a tile group follows a frame header, zero when no unit carries it; a start for a located tile lies strictly before it |
| `Av1Units.HeaderBits` | src/av1.c:80-83 | kind, extension flag and size flag are read from the bits where section 5.3.2 puts them, whatever the two ignored bits are |
| `Av1Units.UnitReads` | src/av1.c:78-101 | a unit written with header, optional extension, leb128 size and payload is read back whole exactly when its size is below 2^56 |
| `Av1Units.ChainInverts` | src/av1.c:73-113 | the header chain over a buffer of written units gives back exactly those units, each at its place, if and only if every size can be stated |
| `Av1Units.OpenChainInverts` | src/av1.c:92-95 | the same with a last unit that states no size and runs to the end of the buffer |
| `Av1Units.UnitCutShort` | src/av1.c:79-99 | a unit of which only a part is there is refused, wherever it is cut |
| `Av1Units.ChainCutShort` | src/av1.c:73-113 | so over a buffer that is cut short the chain is exactly the whole units |
| `Av1Units.TileUnitFound` | src/av1.c:102-112 | a byte of a written unit's payload leads back to the start of that unit, or of the frame header written just before a tile group |
| `Av1TileSizes.CalcTileLog2` | src/av1.c:17-23 | the loop finds the least exponent whose power of two reaches the tile count |
| `Av1TileSizes.FillUniform` | src/av1.c:46-56 | for every 32-bit superblock count the array holds the sizes of the value model, each truncated to 16 bits, and nothing past them is written; the width is the source's 32-bit one |
| `Av1TileSizes.WidthIsExact` | src/av1.c:48 | that width is the rounded-up quotient exactly when the rounding sum stays below 2^32 |
| `Av1TileSizes.WidthIsLeast` | src/av1.c:48 | the rounded-up quotient is the least width with which 2^k tiles cover the superblocks |
| `Av1TileSizes.FilledIsSpec` | src/av1.c:46-56 | given the specification's tile count the loop fills in the specification's sizes |
| `Av1TileSizes.SpecLayout` | src/av1.c:46-56 | the layout of section 5.9.15: full tiles, a last one between 1 and the width, summing to the superblock count |
| `Av1TileSizes.ExponentRecovered` | src/av1.c:17-23 | recomputing the exponent from the tile count gives the stream's own exactly when it is at most the rounded-up log2 of the superblock count |
| `Av1TileSizes.UniformSizesMatchSpec` | src/av1.c:46-56 | for every such stream, sizes computed from the count alone are the stream's layout |
| `Av1TileSizes.WidthInRange` | src/av1.c:29-36 | for every accepted picture the width after super-resolution is between 1 and 65536 |
| `Av1TileSizes.WidthIsRounded` | src/av1.c:29-36 | super-resolution scales the width by 8 over the denominator, rounded to the nearest integer and up from half |
| `Av1TileSizes.SuperblocksCover` | src/av1.c:38-44 | alignment and shifts count exactly the 64 or 128 pixel superblocks that cover the picture, at most 1024 |
| `Av1TileSizes.PictureStaysExact` | src/av1.c:46-56 | so no accepted picture reaches the 32-bit wrap of the width or the 16-bit truncation of a size |
| `Av1TileSizes.FillDimension` | src/av1.c:431-437 | for every accepted picture with uniform spacing the array gets the layout of section 5.9.15 that the stream itself used, and nothing past it is written |
| `Av1SkipMode.MaskIsSignedResidue` | src/av1.c:8-15 | the mask formula is the signed residue of the hint difference (section 5.9.3) |
| `Av1SkipMode.DistancesSubtract` | src/av1.c:8-15 | distances to a common frame subtract whenever the result is in range |
| `Av1SkipMode.SameSideAgrees` | src/av1.c:300-309 | comparing two past, or two future, candidates with each other agrees with comparing their distances to the current frame |
| `Av1SkipMode.FindNearest` | src/av1.c:298-311 | the loop picks the first nearest past and the first nearest future reference |
| `Av1SkipMode.FindSecond` | src/av1.c:319-329 | the second loop picks the first nearest reference before the forward one |
| `Av1SkipMode.SkipModeFrames` | src/av1.c:285-338 | for every input the pair written is the nearest past and nearest future reference, or the nearest past and the nearest before it, in index order, and zero exactly when neither pair exists |
| `Av1SkipMode.NearestUnique` | src/av1.c:298-311 | each choice is unique |
| `Av1SkipMode.NearestIs` | src/av1.c:298-311 | the chosen reference has a distance on its side of zero that none is nearer than and that does not occur before it |
| `Av1SkipMode.BehindForward` | src/av1.c:323-326 | being behind the forward reference means being farther from the current frame, except at exactly half a cycle |
| `Av1SkipMode.SecondIsPast` | src/av1.c:318-336 | the second choice is a past reference beyond the first exactly when the first is less than half a cycle away or no reference repeats the current hint |
| `Av1SkipMode.SecondCanBeCurrent` | src/av1.c:318-336 | the exception is real: seven references on which one with the current hint is taken for a past one |
| `Av1Tiles.AcceptableIsCompatible` | src/av1.c:588-652 | one more record is accepted exactly when it fits by itself and conflicts with nothing registered |
| `Av1Tiles.BatchesAccepted` | src/av1.c:588-652 | any batching on top of what is registered is fully accepted exactly when everything together is compatible |
| `Av1Tiles.OrderDoesNotMatter` | src/av1.c:588-652 | two ways to submit the same records are fully accepted together, namely exactly when coordinates are distinct and in range and ranges non-empty, in bounds and pairwise disjoint; the resulting table is the same |
| `Av1Tiles.IndexIsInjective` | src/av1.c:555-565 | in-range coordinates are distinct exactly when their indices are |
| `Av1Tiles.IndexInLayout` | src/av1.c:555-565 | and the index is below the tile count |
| `Av1Tiles.IndexIsRasterOrder` | src/av1.c:555-565 | indices count the tiles in raster order: by row, then by column |
| `Av1Tiles.IndexIsOnto` | src/av1.c:555-565 | and every index below the tile count is the index of a tile of the layout |
| `Av1Tiles.AcceptedInPlain` | src/av1.c:588-652 | any batching of records is fully accepted exactly when each names a tile of the layout and a non-empty 32-bit range inside its own slice data, and no two name the same tile or share a byte |
| `Av1Tiles.RegisteredComesFrom` | src/av1.c:588-652 | every registered tile is the range of a submitted record at that record's place in raster order, also when a later record is refused |
| `Av1Contexts.EnteredAgrees` | src/av1.c:642-651 | entering one tile keeps bitmap, count, offset table, interval set and extremes in step |
| `Av1Contexts.Av1Context.StartPicture` | src/av1.c:266-275 | the reset of the tile state by the picture parameters, with an empty table and the layout's tile count |
| `Av1Contexts.Av1Context.EnsureOffsetStorage` | src/av1.c:526-553 | the table is cut or padded with zeros to two offsets per tile, so registered entries are kept; failure empties it and is only possible while no tile is registered |
| `Av1Contexts.Av1Context.RegisterTile` | src/av1.c:588-651 | a tile is registered exactly when it is acceptable and the index has storage; its start and end are written at row times columns plus column, whose bit is set; all views agree either way |
| `Av1Contexts.Av1Context.SetSliceOffsets` | src/av1.c:567-657 | a zero tile count is taken from the records or the layout; a batch registers a prefix and stops at its first rejection, with a failure flag set and all views agreeing; with memory granted the result is the value model's; an accepted batch that completes the picture decides compaction; an attempt at the end of existing data never compacts |
| `Av1Contexts.AllRegistered` | src/av1.c:654-656 | when the seen count reaches the tile count every tile slot is filled |
| `Av1Contexts.Av1Context.Compact` | src/av1.c:115-145 | fires exactly when it has not yet, the data reaches the last tile, and the frame of the first tile does not start at zero; then the buffer starts at that frame, ends with the last tile, and every offset is shifted by the start; otherwise nothing changes |
| `Av1Contexts.ShiftedKeeps` | src/av1.c:132-144 | re-basing below every tile keeps all views in step and frames every tile in the shortened buffer |
| `Av1Contexts.TileReads` | src/av1.c:132-144 | before and after compaction, reading a tile through the offset table from `bitstreamDataOffset` gives the bytes of its range in the submitted data, inside the compacted length |
| `Av1Contexts.ParamsLand` | src/av1.c:588-651 | after an accepted batch, compacted or not, the offset table gives at the place of each record's tile where that record's bytes lie |
| `Av1Contexts.Av1Context.CopySliceParam` | src/av1.c:669-681 | parameters after data are registered at once against all of that data, and an accepted batch that completes the picture compacts exactly when that can fire, a refused one never; otherwise they are kept pending and nothing else changes |
| `Av1Contexts.Av1Context.CopySliceData` | src/av1.c:683-709 | pending parameters are registered against the place the data is about to take; the attempt before the append changes nothing else; the committed length is the size in every case; a complete picture is compacted exactly when that can fire; count and length of the table |
| `Av1Orders.RegisterAll` | src/av1.c:567-657 | with allocations granted the context ends with the value model's tiles and answer for any list of batches, rejections included, and compaction decided once the picture is complete |
| `Av1Orders.SameTilesSameViews` | src/av1.c:642-651 | the registered tiles determine extremes, ranges, bitmap and count, and the offset table of a given length and base, complete or not |
| `Av1Orders.SameOutcome` | src/av1.c:115-145 | contexts with the same tiles over the same data are compacted alike, to the same start and size |
| `Av1Orders.RegisterBothWays` | src/av1.c:567-657 | two fresh pictures over the same data, given the same tiles in different orders and batches, are accepted together, exactly when the tiles are compatible, and end with the same tiles, extremes, compaction, size and offset table |
| `Av1Arrivals.ParametersFirst` | src/av1.c:669-709 | a fresh picture that gets its records and then its data holds the value model's tiles, and is compacted exactly when they fill the layout and compaction can fire |
| `Av1Arrivals.DataFirst` | src/av1.c:669-709 | the other way round the tiles are the same, and compaction also needs every record to be accepted |
| `Av1Arrivals.BothArrivals` | src/av1.c:669-709 | both ways end with the same tiles and extremes, and with the same offset table, start and size if and only if no record is refused behind a complete set of tiles whose compaction can fire |
| `Av1Arrivals.LateRejectionHappens` | src/av1.c:654-656 | the exception is real: a delimiter and a frame of one tile that is submitted twice |
| `Av1LateData.CopyLateSliceData` | src/av1.c:683-709 | slice data after compaction: pending records are all refused, nothing is compacted again, and the bytes land at the shortened size, inside the frame |
| `Av1LateData.LateDataSpares` | src/av1.c:683-709 | in a block that stays, late bytes leave every tile readable as submitted, whatever they are, if and only if no tile meets the bytes behind the shortened size |
| `Av1LateData.LongLateDataHits` | src/av1.c:139-141 | data at least as long as what compaction dropped always meets the last tile |
| `Av1LateData.TwoLateBytesHarm` | src/av1.c:683-709 | an input: two bytes behind a compacted frame of one tile change the tile |
| `Av1LateData.MovedBlockLosesTile` | src/appendable-buffer.c:22-35 | shorter data loses the end of the last tile when the block moves, since only the shortened size is copied |
| `DetachedCaches.RemovedKeeps` | src/export-buf.c:530-537 | taking a detached image off the list lowers the counters by exactly its share, so the saturating subtractions do not saturate |
| `DetachedCaches.DetachedKeeps` | src/export-buf.c:559-570 | detaching raises them by exactly its share, under a serial larger than every other |
| `DetachedCaches.AttachedKeeps` | src/export-buf.c:611-630 | reuse lowers them by exactly its share |
| `DetachedCaches.AddedKeeps` | src/export-buf.c:832-839 | listing a new attached image leaves them alone |
| `DetachedCaches.DetachedCache.FindVictim` | src/export-buf.c:517-527 | the image without a surface and without borrows that was detached first, or none exactly when every image has a surface or is borrowed |
| `DetachedCaches.DetachedCache.PruneOnce` | src/export-buf.c:509-538 | one pass under the lock: stop within limits, stop with everything borrowed, or evict exactly the oldest |
| `DetachedCaches.DetachedCache.Prune` | src/export-buf.c:507-543 | pruning ends, within the limits or with every image attached or borrowed; it evicts images without a surface and without borrows, in detachment order and each while over a limit, and keeps every image that is attached or borrowed; within the limits it does nothing |
| `DetachedCaches.PrunedExtends` | src/export-buf.c:507-543 | one more eviction of the oldest keeps that description |
| `DetachedCaches.PrunedSpares` | src/export-buf.c:517-527 | an image with a surface or with borrows is never evicted |
| `DetachedCaches.PrunedOnlyIdle` | src/export-buf.c:517-527 | whatever is evicted had no surface and no borrows |
| `DetachedCaches.OverLimitIs` | src/export-buf.c:488-505 | the test with its subtraction fails exactly when nothing is detached, or the cache is on and count, bytes and the budget shared with the scratch buffers are all kept |
| `DetachedCaches.MeasureImage` | src/export-buf.c:474-486 | the size of an image is its total when it has one, else its planes added up |
| `DetachedCaches.CountIsCardinality` | src/export-buf.c:564-566 | the count that the counter follows is the number of listed images without a surface |
| `DetachedCaches.DetachedCache.MarkDetached` | src/export-buf.c:557-575 | the locked region: the image of the surface becomes detached under the next serial, counters and links follow |
| `DetachedCaches.DetachedCache.Detach` | src/export-buf.c:545-577 | the image of the surface joins the cache, the surface loses it, and pruning follows; nothing else changes |
| `DetachedCaches.DetachedCache.FindFree` | src/export-buf.c:606-633 | the first detached image of the right size, format and plane count is attached, or none matches |
| `DetachedCaches.DetachedCache.ListImage` | src/export-buf.c:832-846 | the locked region that lists a new image with its surface, or leaves list and links alone when the list cannot grow |
| `DetachedCaches.DetachedCache.Realise` | src/export-buf.c:792-852 | a surface keeps its image, reuses one, or gets the new one listed; a failure leaves list, links and counters alone |
| `DetachedCaches.DetachedCache.Borrow` | src/vabackend.c:231 | pinning an image leaves list, links and counters alone |
| `DetachedCaches.DetachedCache.Release` | src/backend-common.c:98-101 | unpinning stops at zero and leaves list, links and counters alone |
| `JpegSegments.Be16RoundTrip` | src/jpeg.c:89-93 | 16-bit big-endian writing can be read back |
| `JpegSegments.NibblesSplit` | src/jpeg.c:226-227 | two 4-bit parts packed into a byte can be read back |
| `JpegSegments.WalkInverts` | src/jpeg.c:197-255 | a marker-segment walk recovers exactly the segments that were written, up to the first start of scan |
| `JpegFrames.FrameWalks` | src/jpeg.c:527-594 | walking a finished frame finds exactly the planned segments and ends at the first scan's data, whether or not an end of image was added |
| `JpegFrames.FrameParses` | src/jpeg.c:208-232 | the frame header gives back the picture exactly when its sampling factors fit in four bits |
| `JpegFrames.WideFactorIsLost` | src/jpeg.c:226-227 | a picture whose sampling factor of 16 does not come back |
| `JpegFrames.QuantParses` | src/jpeg.c:184-190 | a quantiser segment gives back its number and table |
| `JpegFrames.HuffmanParses` | src/jpeg.c:234-255 | a Huffman segment gives back class, number, code counts and values |
| `JpegFrames.ScanParses` | src/jpeg.c:369-391 | a scan header gives back its component selectors |
| `JpegReaders.FrameReadsBack` | src/jpeg.c:527-594 | a reader of the finished frame learns the used quantiser tables, the picture, the Huffman tables, the restart interval and the first scan header, each once and nothing else; when scans share a header but not an interval, no interval is written |
| `JpegReaders.FrameOpens` | src/jpeg.c:41-51 | every frame opens with a start of image and a JFIF 1.1 segment of square pixels and no thumbnail |
| `JpegReaders.FrameCloses` | src/jpeg.c:590-594 | and ends with an end of image, which is added exactly when the data does not already end with one |
| `JpegReaders.SelectedTablesDefined` | src/jpeg.c:541-560 | every Huffman table that an accepted scan selects is defined before the first scan, whichever tables were chosen |
| `JpegReaders.SoundIsUsed` | src/jpeg.c:541-560 | the client's tables are used exactly when every table that a scan selects was sent and has a code count that fits its values |
| `JpegReaders.SelectedTableIs` | src/jpeg.c:541-560 | every selected table is read as the client sent it in that case, and as the standard one otherwise |
| `JpegReaders.UsedTablesHold` | src/jpeg.c:169-191 | the quantiser tables written are exactly those that some component selects |
| `JpegScans.ScanFound` | src/jpeg.c:575-588 | when scans keep headers of their own, behind what earlier scans take a walk finds exactly the head of each scan, then the bytes at the scan's offset and size in the client's data, up to the next head |
| `JpegScans.HeadSays` | src/jpeg.c:369-391 | and that head gives back the scan's own components |
| `JpegScans.JoinedScanFound` | src/jpeg.c:568-574 | when scans share a header, the bytes at each scan's offset and size in the client's data stand behind it, in turn and with nothing between |
| `JpegScans.JoinedHeader` | src/jpeg.c:568-574 | and that header is the header of each of them |
| `JpegScans.RestartInForce` | src/jpeg.c:562-588 | the restart interval in force at a scan is the client's own exactly when all intervals agree, or the headers differ and no earlier scan left an interval that this one would have to switch off, or one header covers all and this scan has no interval |
| `JpegScans.AllRestartsInForce` | src/jpeg.c:562-588 | so every scan is decoded with its own interval exactly when the intervals agree, or the headers differ and no scan without one follows a scan with one |
| `JpegScans.RestartLost` | src/jpeg.c:562-588 | accepted scan lists on which it is not: an interval left in force, and one never written |
| `JpegWriters.TableIsEmpty` | src/jpeg.c:175-182 | the byte sum is zero exactly when the table is all zero |
| `JpegWriters.CountCodes` | src/jpeg.c:266-277 | succeeds exactly when the total of the code counts is within the limit, and gives that total |
| `JpegWriters.UsedMask` | src/jpeg.c:135-150 | fails exactly on a selector above 3; otherwise the mask is the set of tables in use |
| `JpegWriters.WriteQuant` | src/jpeg.c:152-195 | within 276 bytes; succeeds exactly when the used tables are valid and none is empty; the bytes are their segments in order |
| `JpegWriters.WriteVa` | src/jpeg.c:279-336 | succeeds exactly when every required table is present and sound, and never writes past the room for the four standard tables even when it stops partway |
| `JpegWriters.WriteStandard` | src/jpeg.c:257-264 | the four standard tables, in exactly 432 bytes |
| `JpegWriters.WriteHuffman` | src/jpeg.c:541-560 | the client's tables or the standard ones over whatever a failed attempt left behind |
| `JpegWriters.CheckComponents` | src/jpeg.c:338-367 | accepts exactly one to four known components with selectors below 2, and collects the tables they need |
| `JpegWriters.CheckScans` | src/jpeg.c:435-474 | accepts exactly when every scan is whole, known and inside the data; gives the total size and the required tables |
| `JpegWriters.CompareScans` | src/jpeg.c:476-501 | decides whether all scans share the first one's header and its restart interval |
| `JpegWriters.WriteScans` | src/jpeg.c:567-588 | one header and all data, or header and data scan by scan, inside the reserved room |
| `JpegWriters.WriteFrame` | src/jpeg.c:527-594 | every write stays inside a region of the computed bound; only an empty quantiser table can stop it; the bytes are the frame |
| `JpegSlices.BoundFits` | src/jpeg.c:503-518 | the bound summed in 64 bits is exact for every total exactly up to 4294967274 scans |
| `JpegSlices.FrameWithinBound` | src/jpeg.c:503-513 | every frame has at least its scan data and at most the bound in unbounded arithmetic |
| `JpegSlices.RegionHoldsFrame` | src/jpeg.c:503-525 | the reserved region holds the frame exactly when the 64-bit bound does not wrap, for every list of checked scans |
| `JpegSlices.BoundCanWrap` | src/jpeg.c:503-525 | such lists exist: 4294967275 scans of the largest size pass every check, and the region reserved for them is smaller than the frame |
| `JpegSlices.SmallestAccepted` | src/jpeg.c:401-428 | a picture and a scan that meet what the last line asks |
| `JpegSlices.BoundInRange` | src/jpeg.c:503-518 | so no accepted picture with that many scans can make it wrap |
| `JpegSlices.CheckPicture` | src/jpeg.c:401-428 | accepts exactly a present, non-empty picture with one to four components whose quantiser tables are all valid |
| `JpegSlices.AcceptedInPlain` | src/jpeg.c:401-474 | everything a picture and its scans are checked for: dimensions, one to four components, quantiser tables sent and not all zero, scans that are whole, inside the data, of known components and with table numbers 0 or 1 |
| `JpegSlices.Reconstruct` | src/jpeg.c:394-609 | succeeds exactly on accepted input whose bound could be reserved and whose frame keeps the bitstream within 32 bits; then the bitstream gains exactly the frame, otherwise its contents are unchanged; excluded are only checked scans whose wrapped bound was reserved |
| `JpegSlices.CopySliceData` | src/jpeg.c:695-755 | both buffers gain their part, the frame and its start, or both are back to what they were and a failure flag is set; exactly when |
| `SliceAssembly.DecodeContext.ValidateSliceRange` | src/codec-utils.c:3-20 | true exactly for a present buffer that contains the slice |
| `SliceAssembly.DecodeContext.CanAppend` | src/codec-utils.c:34-43 | true exactly when the bitstream stays within 32 bits |
| `SliceAssembly.DecodeContext.MeasureSlices` | src/h264.c:94-108 | passes exactly when every slice is in range and no step of the sum leaves the size type, and gives the total as the source sums it, with each size plus three wrapping at 32 bits |
| `SliceAssembly.SumAlwaysFits` | src/h264.c:102-106 | with a 32-bit slice count the overflow test of the first pass never fires |
| `SliceAssembly.MeasuredIsBytes` | src/h264.c:107 | the measured total is the number of bytes to be appended exactly when every size is at most 0xFFFFFFFC; it is never larger |
| `SliceAssembly.LargestSliceMeasuresNothing` | src/h264.c:107 | an input on which it is not: a slice of 0xFFFFFFFD bytes measures zero and takes 2^32 |
| `SliceAssembly.WrappedOffset` | src/h264.c:92-124 | what that does with memory to spare: two slices measure 4 bytes, and from that reservation on the bitstream passes 32 bits and the second slice is recorded at offset 0 |
| `SliceAssembly.ReservedPass` | src/h264.c:115-124 | a second pass into room for all its bytes, within 32 bits, appends everything, records every start and moves nothing |
| `SliceAssembly.PassOutcome` | src/h264.c:109-125 | after a reservation of the measured total, the pass leaves exactly the assembled slices, their starts and a committable length if and only if no size wrapped |
| `SliceAssembly.DecodeContext.Prepare` | src/h264.c:94-114 | the exact condition for entering the second pass; otherwise both buffers keep their contents and a flag is set |
| `SliceAssembly.DecodeContext.Commit` | src/codec-utils.c:45-54 | publishes the length exactly when it fits 32 bits, otherwise keeps the old one and sets the flag |
| `SliceAssembly.DecodeContext.CopySliceData` | src/h264.c:92-126 | for every input: either both buffers keep their contents, or the second pass runs and leaves what the value model says; it is then exact, committed and free of allocation if and only if no slice size is above 0xFFFFFFFC |
| `SliceAssembly.DecodeContext.AppendSlices` | src/h264.c:115-124 | the loop does to both buffers what the value model of the second pass does, ignored append failures included; the offset buffer never reallocates |
| `SliceAssembly.StartsPointAtSlices` | src/h264.c:115-124 | at each recorded offset stand the bytes 00 00 01 and then the client's bytes from the slice's offset on; the first begins behind what was there, each ends where the next begins, and the last ends the bitstream |
| `TimingHistograms.BucketBound` | src/stats.c:21-29 | a sample's bucket is at most k exactly when the sample is at most bucket k's bound |
| `TimingHistograms.CountsAgree` | src/stats.c:21-29 | the buckets up to one hold exactly the samples up to its bound |
| `TimingHistograms.CountIsCardinality` | src/stats.c:21-29 | counting samples up to a bound is counting places in the history |
| `TimingHistograms.RankIsCeiling` | src/stats.c:66-67 | the split formula is the rounded-up percentage |
| `TimingHistograms.TimingHistogram.Add` | src/stats.c:21-29 | the counters describe the sample history extended by the sample |
| `TimingHistograms.TimingHistogram.Percentile` | src/stats.c:65-76 | for every history, at least the rounded-up percentage of samples is at or below the reported bound, and fewer at or below the next smaller one, which is half of it when it is finite |
| `TimingHistograms.BucketsInOrder` | src/stats.c:63-76 | a larger percentile never reports a smaller bound |
| `TimingHistograms.TimingHistogram.Log` | src/stats.c:54-76 | nothing for an empty history; otherwise p50 <= p95 <= p99, each the least bound, of the doublings of one microsecond and the unbounded last one, that its percentage of the samples reaches |

## Left out

- Other codecs (MPEG-2, MPEG-4, VC-1, VP8, VP9, HEVC): the same assembly as H.264 or a simpler one.
- Picture-parameter copying in all codecs: assignments without an invariant.
- `src/vabackend.c` and the direct backend: picture submission, surface lifetimes and the search for an image to borrow are not part of this model.
- CUDA, NVDEC, EGL and DRM calls, GPU kernels, logging, statistics counters, clocks and environment parsing.
- C11 memory orders, queue telemetry and timestamps: each locked region is one atomic step between two waits.
- Payload storage and pointer identity of table objects: an object is its id, type and payload size.
- 64-bit wrap-around of histogram counters and of the detachment serial.
- NV21 images and imported external images: listed images are neither.
- Av1Contexts.Av1Context.CopySliceData: requires that the picture is not compacted yet; slice data after that is `Av1LateData.CopyLateSliceData`. Bitstream and offset table are plain sequences here, their growth is the buffer's own model.
- Av1Contexts.EnteredAgrees: words of the seen-bitmap are sets of bit positions, not machine words.
- Av1TileSizes.CalcTileLog2: requires at most 2^31 tiles, beyond which the source's 32-bit shift has no defined value.
- Av1TileSizes.FillUniform: requires at most 2^31 tiles, for the same reason.
- DetachedCaches.DetachedCache.Prune: like `Detach` and `Realise`, describes one thread without others in between; `PruneOnce`, `MarkDetached`, `FindFree` and `ListImage` are the locked regions that interleave, and the invariant holds after each.
- DetachedCaches.DetachedCache.Realise: requires that the listed images, which exist in memory together, stay below 2^64 bytes.
- DetachedCaches.DetachedCache.ListImage: requires the same.
- ResolveQueues.ResolveQueue.Cancel: a missing output array is the case of no room; the count returned is then the length of what was handed back.
- JpegSlices.Reconstruct: does not model the writes outside the region that follow when checked scans make the bound wrap and the wrapped bound can be reserved; `RegionHoldsFrame` and `BoundInRange` say when that is; the reserved region is an array of its own that is copied on commit.
- JpegSlices.CopySliceData: excludes the same case.
- JpegWriters.CheckScans: leaves out the 64-bit overflow test on the running total, which 32-bit sizes and counts cannot trigger.
- JpegFrames.FrameWalks: table masks are sets of table numbers, and the entropy-coded data is not parsed; `JpegScans.ScanFound` takes its lengths from the scans.
