# Verified model of the storage stack

This project models, in Dafny, the storage stack of the repository and proves what it is
for: the buddy allocator, the storage manager that places private buffers in one backing
file with its help, the chunked file transfer over an unreliable network, and the id pool.

## The model

- `Bits.dfy`, `Tree.dfy`, `Sizes.dfy`: powers of two, AND, OR, XOR and shifts as recursive
  functions on naturals; the tree of blocks with its byte intervals, XOR buddies and slot
  numbers; rounding of requests and the size and level conversions. 32-bit words are the
  subset type `uint32`; where the C code can wrap, `% WORD` is written out, everywhere else
  the verifier proves that it does not.
- `Sequences.dfy`, `Status.dfy`: duplicate-free sequences, error codes and results.
- `BuddyState.dfy`: the abstract state. `tree` says of every block of the current
  subdivision whether it is free, live (allocated) or split, `lists` are the free lists,
  head first. A block that an operation holds in its hand counts as live, so the invariant
  `Inv` is local, and it speaks of every iteration of the splitting and merging loops.
- `BuddyPartition.dfy`, `BuddyOps.dfy`, `BuddyRuns.dfy`: what `Inv` means and what the
  operations do: partition of the pool, canonical form, completeness of failure, exact
  undo, conservation, work accounting, and the same over arbitrary runs.
- `BuddyMemory.dfy`, `BuddyRep.dfy`: the slot array and the intrusive lists. A block
  pointer is the number of its slot; an array element is a `Block` record, updated in place.
  `Rep` relates memory and abstract state; its `hole` is the block in hand, whose slot is
  empty.
- `BuddyAllocator.dfy`: the class with the slot array and the list heads. Its methods
  follow the C functions; `ListRoot`, `TakeHead`, `SplitOnce`, `ListNewBlock`,
  `AllocateBySplitting`, `DropBlock`, `MergeOnce` and `AddMergedBlock` are stretches of
  `buddy_alloc_create`, `split_block_down`, `buddy_alloc_allocate` and `buddy_alloc_free`. Calls whose
  error return is proved unreachable use the result directly.
- `RamFile.dfy`, `StoreState.dfy`, `StorageManager.dfy`: the backing file as a byte
  sequence, the map of private buffers, and the storage manager class.
- `Transfer.dfy`: sender, network trace, receiver. `IdPool.dfy`: the id pool class.

Out of the model's hands and therefore parameters: the contents a file already has when it
is opened, and the outcome of each network send (`net`).

The documentation says that exhaustion returns `-ENOMEM` (BUDDY_ALLOCATOR/README.md, line
105); the code returns `-ENFILE`, and the model follows the code.

## Three properties that do not hold everywhere

- Slot addresses are 32-bit products. Slots are disjoint in memory exactly for allocators of
  at most 27 levels (`SlotAddressBound`), that is, exactly when creation is asked for a pool
  of less than 2^27 least blocks (`SlotsOfCreation`). Creation does not check this: a pool of
  2^31 bytes in blocks of 16 is accepted and has overlapping slots (`AcceptedSlotsOverlap`).
  The class indexes its slots directly, so its results speak of the pools below that bound.
- The range test of `id_pool_free` adds start and capacity in 32 bits. Ids can be freed
  exactly when that sum stays below 2^32 (`AllAcceptedIffNoWrap`; `WrapLosesIds` is an
  instance that fails).
- The size of the id pool's memory block is summed in 32 bits. Stack and flags fit it exactly
  up to capacity 858993454 (`LayoutBound`), while creation accepts every capacity above zero;
  for 858993455 the block comes out as three bytes (`TooSmallBlock`). The class keeps stack
  and flags in two arrays, so its results speak of the pools up to that capacity. Among these
  the used count never reaches the signed counter's limit: the error branch of
  `GetUsedIdCount` belongs to larger pools only.

## Model

| member | source | states |
|---|---|---|
| Bits.PowerTest | BUDDY_ALLOCATOR/src/buddy_allocator.c:110-113 | for v > 0, `v & (v - 1)` is zero exactly for powers of two |
| Sizes.SmearStep | BUDDY_ALLOCATOR/src/buddy_allocator.c:81-85 | a `v \|= v >> w` step doubles the run of leading ones |
| Sizes.NextPow2 | BUDDY_ALLOCATOR/src/buddy_allocator.c:78-87 | the least power of two at or above every request from 1 to 2^31, zero for 0 and above 2^31 |
| Sizes.BlockSize | BUDDY_ALLOCATOR/src/buddy_allocator.c:59-61 | the shift loses no bit: the result is the level's size, a power of two |
| Sizes.FitsExists | BUDDY_ALLOCATOR/src/buddy_allocator.c:103-129 | a request has a level exactly when it is more than half the least block and at most the pool |
| Sizes.FitsUnique | BUDDY_ALLOCATOR/src/buddy_allocator.c:103-129 | a request has at most one level |
| Sizes.GetBlockLevel | BUDDY_ALLOCATOR/src/buddy_allocator.c:103-129 | returns the level whose blocks have that size, an error exactly when no level has |
| Sizes.SizeInjective | BUDDY_ALLOCATOR/src/buddy_allocator.c:59-61 | different levels have different sizes, so the level found for a level's size is that level |
| Sizes.CalcNumOfLevels | BUDDY_ALLOCATOR/src/buddy_allocator.c:63-76 | the bit length of the quotient, an error for a zero block size |
| Sizes.LevelsOfRatio | BUDDY_ALLOCATOR/src/buddy_allocator.c:427-437 | for powers of two the level count is between 1 and 32 and gives back the pool size |
| Sizes.CalcMaxNodes | BUDDY_ALLOCATOR/src/buddy_allocator.c:89-101 | the level-by-level sum in two's complement words is `2^levels - 1` for up to 32 levels; an error exactly for 0 and above 64 |
| Tree.OverlapIsAncestry | BUDDY_ALLOCATOR/src/buddy_allocator.c:131-134 | two blocks share a byte exactly when one is an ancestor of the other |
| Tree.SiblingsTileParent | BUDDY_ALLOCATOR/src/buddy_allocator.c:611-613 | a block and its sibling partition the parent's bytes |
| Tree.XorIsSibling | BUDDY_ALLOCATOR/src/buddy_allocator.c:52-57 | XOR of offset and size is the offset of the tree sibling |
| Tree.BuddyIsUniqueSibling | BUDDY_ALLOCATOR/src/buddy_allocator.c:611-613 | the buddy computation is an involution inside the pool, names the only other child of the parent, and MIN gives the parent's offset at doubled size |
| Tree.SlotsAreNodes | BUDDY_ALLOCATOR/src/buddy_allocator.c:131-134 | tree nodes and slots below `2^levels - 1` correspond one to one |
| Tree.SlotFromOffset | BUDDY_ALLOCATOR/src/buddy_allocator.c:131-134 | the slot computed from an aligned offset is the node's slot |
| Tree.SlotAddressBound | BUDDY_ALLOCATOR/src/buddy_allocator.c:187 | the 32-bit slot addresses keep slots apart exactly up to 27 levels |
| Sizes.SlotsOfCreation | BUDDY_ALLOCATOR/src/buddy_allocator.c:412-466 | for accepted creation arguments the slots are disjoint exactly when the pool holds less than 2^27 least blocks |
| Sizes.AcceptedSlotsOverlap | BUDDY_ALLOCATOR/src/buddy_allocator.c:412-466 | pool size 2^31 with blocks of 16 is accepted, has 28 levels, and two of its slots overlap |
| BuddyState.InitOk | BUDDY_ALLOCATOR/src/buddy_allocator.c:472-481 | a fresh allocator satisfies the invariant |
| BuddyState.TakeOk | BUDDY_ALLOCATOR/src/buddy_allocator.c:294-320 | taking a free block keeps the invariant |
| BuddyState.SplitStepOk | BUDDY_ALLOCATOR/src/buddy_allocator.c:373-387 | each iteration of the splitting loop keeps the invariant, with the left half in hand |
| BuddyState.MergeStepOk | BUDDY_ALLOCATOR/src/buddy_allocator.c:599-614 | each iteration of the merging loop keeps the invariant, with the parent in hand |
| BuddyState.GiveOk | BUDDY_ALLOCATOR/src/buddy_allocator.c:616-624 | putting back a block whose buddy is not free keeps the invariant |
| BuddyPartition.Partition | BUDDY_ALLOCATOR/src/buddy_allocator.c:373-392 | every byte of the pool is in exactly one active block; active blocks are size-aligned and inside the pool |
| BuddyPartition.ActiveDisjoint | BUDDY_ALLOCATOR/src/buddy_allocator.c:597-616 | different active blocks share no byte |
| BuddyPartition.FreeIsMaximalClear | BUDDY_ALLOCATOR/src/buddy_allocator.c:599-616 | canonical form: the free blocks are exactly the maximal buddy regions without a live byte |
| BuddyPartition.LiveDeterminesTree | BUDDY_ALLOCATOR/src/buddy_allocator.c:576-628 | the live blocks alone determine the whole subdivision |
| BuddyPartition.LiveDeterminesLists | BUDDY_ALLOCATOR/src/buddy_allocator.c:576-628 | same live blocks, same free list of every level up to order |
| BuddyPartition.DrainedIsInitial | BUDDY_ALLOCATOR/src/buddy_allocator.c:576-628 | with nothing live the state is the initial one: a single free root block |
| BuddyPartition.FailureIsComplete | BUDDY_ALLOCATOR/src/buddy_allocator.c:322-337 | the upward search fails exactly when every aligned region of the size meets a live block |
| BuddyOps.AllocateOk | BUDDY_ALLOCATOR/src/buddy_allocator.c:519-574 | an allocation keeps the invariant and makes one new block live, the first part of the head of the nearest non-empty list |
| BuddyOps.AllocateLists | BUDDY_ALLOCATOR/src/buddy_allocator.c:519-574 | the free lists after an allocation: the source list lost its head, every level below it was empty and holds its one right half, all others are unchanged |
| BuddyOps.ReleaseOk | BUDDY_ALLOCATOR/src/buddy_allocator.c:576-628 | a release keeps the invariant and takes exactly its block from the live ones |
| BuddyOps.ReleaseLists | BUDDY_ALLOCATOR/src/buddy_allocator.c:576-628 | the free lists after a release, order included: the coalesced block is the new head of its list, each level below lost exactly the buddy met there and kept its order, all others are unchanged |
| BuddyOps.ReleaseUndoesAllocate | BUDDY_ALLOCATOR/src/buddy_allocator.c:339-395 | exact undo: freeing the block just allocated restores tree and lists with their order |
| BuddyOps.Conservation | BUDDY_ALLOCATOR/src/buddy_allocator.c:519-659 | in every state free counts times sizes plus the live sizes make the pool size |
| BuddyOps.FreeBytesChange | BUDDY_ALLOCATOR/src/buddy_allocator.c:519-628 | an allocation lowers the free bytes by exactly its block, a release raises them by it |
| BuddyOps.AllocateCount | BUDDY_ALLOCATOR/src/buddy_allocator.c:373-387 | an allocation adds one active block per level between source and target |
| BuddyOps.ReleaseCount | BUDDY_ALLOCATOR/src/buddy_allocator.c:599-614 | a release removes one active block per level it climbs |
| BuddyRuns.StepLive | BUDDY_ALLOCATOR/src/buddy_allocator.c:519-628 | the exact effect of a step on the live blocks; a refused request changes nothing |
| BuddyRuns.StaysLive | BUDDY_ALLOCATOR/src/buddy_allocator.c:519-628 | a step leaves every live block live except the one it gives back |
| BuddyRuns.RequestAt | BUDDY_ALLOCATOR/src/buddy_allocator.c:535-541 | a request steps as an allocation at its only level, or not at all when it has none |
| BuddyRuns.RefusalIsComplete | BUDDY_ALLOCATOR/src/buddy_allocator.c:519-574 | a request is refused exactly when no region of its level is clear of live blocks |
| BuddyRuns.LiveIsStable | BUDDY_ALLOCATOR/src/buddy_allocator.c:519-628 | over any run without its release a block stays live at its place, and no block granted overlaps it |
| BuddyRuns.SameLiveSameState | BUDDY_ALLOCATOR/src/buddy_allocator.c:576-628 | runs with the same live blocks end in the same subdivision and the same lists up to order; freeing everything restores the fresh state |
| BuddyRuns.ReleasesRun | BUDDY_ALLOCATOR/src/buddy_allocator.c:576-628 | live blocks may be released in any order, and exactly they are gone |
| BuddyRuns.WorkAccounting | BUDDY_ALLOCATOR/src/buddy_allocator.c:373-387 | over every run the active blocks number one plus splits minus merges, and merges never exceed splits |
| BuddyMemory.PushKeepsLinks | BUDDY_ALLOCATOR/src/buddy_allocator.c:225-241 | head insertion keeps every list linked in both directions |
| BuddyMemory.UnlinkKeepsLinks | BUDDY_ALLOCATOR/src/buddy_allocator.c:243-260 | removal from any position through the block's own pointers keeps every list linked |
| BuddyRep.FreeFlags | BUDDY_ALLOCATOR/src/buddy_allocator.c:277-280 | active and not allocated means exactly: on the free list |
| BuddyRep.SplitRep | BUDDY_ALLOCATOR/src/buddy_allocator.c:378-386 | the slot of the new buddy is empty, and memory and state agree after the round |
| BuddyRep.MergeRep | BUDDY_ALLOCATOR/src/buddy_allocator.c:264-292 | unlinking a free buddy keeps memory and state in agreement |
| BuddyRep.ListsAgreeWithFlags | BUDDY_ALLOCATOR/src/buddy_allocator.c:642-659 | following `next` ends and visits exactly the active non-allocated slots of the level, each once, and no slot of another level |
| BuddyRep.FreeAtMostHalf | BUDDY_ALLOCATOR/src/buddy_allocator.c:642-659 | below the root at most half the blocks of a level are free |
| BuddyRep.PrevInvertsNext | BUDDY_ALLOCATOR/src/buddy_allocator.c:243-260 | in every list `prev` is the inverse of `next` |
| BuddyRep.LiveSlot | BUDDY_ALLOCATOR/src/buddy_allocator.c:215-221 | the slot of a live block keeps its level, offset and flags |
| BuddyAllocator.CalcSlotIsSlot | BUDDY_ALLOCATOR/src/buddy_allocator.c:131-134 | the 32-bit slot computation does not wrap on any block of any pool |
| BuddyAllocator.LevelFitsField | BUDDY_ALLOCATOR/src/buddy_allocator.c:35 | every level is below 32 and fits the six bits of the level field |
| BuddyAllocator.BuddyAllocator.Create | BUDDY_ALLOCATOR/src/buddy_allocator.c:399-494 | succeeds exactly for powers of two with the block no larger than the pool, with one free root block (the C slots do not overlap exactly under `Sizes.SlotsOfCreation`) |
| BuddyAllocator.BuddyAllocator.CreateNewBlock | BUDDY_ALLOCATOR/src/buddy_allocator.c:194-223 | writes a free block, or fails and changes nothing when the slot is missing or in use |
| BuddyAllocator.BuddyAllocator.LinkedListAddBlock | BUDDY_ALLOCATOR/src/buddy_allocator.c:225-241 | memory becomes that of head insertion |
| BuddyAllocator.BuddyAllocator.LinkedListExtractBlock | BUDDY_ALLOCATOR/src/buddy_allocator.c:243-260 | memory becomes that of unlinking |
| BuddyAllocator.BuddyAllocator.RemoveBuddyBlock | BUDDY_ALLOCATOR/src/buddy_allocator.c:264-292 | never fails; merges exactly when the sibling is on its free list |
| BuddyAllocator.BuddyAllocator.AllocateAtLevel | BUDDY_ALLOCATOR/src/buddy_allocator.c:294-320 | hands out the head of the level's list, nothing when it is empty |
| BuddyAllocator.BuddyAllocator.FindNonEmptyLevel | BUDDY_ALLOCATOR/src/buddy_allocator.c:322-337 | the nearest level towards the root with a free block, `ENFILE` when there is none |
| BuddyAllocator.BuddyAllocator.SplitBlockDown | BUDDY_ALLOCATOR/src/buddy_allocator.c:339-395 | splits the head of the source level down to the target; errors exactly for bad levels or an empty source |
| BuddyAllocator.BuddyAllocator.Allocate | BUDDY_ALLOCATOR/src/buddy_allocator.c:519-574 | a block of exactly the least size, `EINVAL` exactly for sizes without a level, `ENFILE` exactly when every region of the size meets a live block; an error changes nothing; the state moves by the run step of the request, the lists as `AllocatedLists` says; every live handle stays one |
| BuddyAllocator.BuddyAllocator.Free | BUDDY_ALLOCATOR/src/buddy_allocator.c:576-628 | freeing a live block always succeeds and moves the state by the run step of its release; the lists change as `ReleasedLists` says, with the coalesced block as the new head of its list; every other live handle stays one |
| BuddyAllocator.BuddyAllocator.CountFreeBlocks | BUDDY_ALLOCATOR/src/buddy_allocator.c:642-659 | the walk ends with the number of free blocks of the level, at most 2^30 and so inside the signed counter |
| BuddyAllocator.BuddyAllocator.GetBlockOffset | BUDDY_ALLOCATOR/src/buddy_allocator.c:672-681 | the stored offset of a live block is its place in the pool, its index times its size |
| BuddyAllocator.AllocateThenFree | BUDDY_ALLOCATOR/src/buddy_allocator.c:519-628 | allocating and freeing at once leaves the class's state as it was |
| RamFile.OverwriteBytes | CLIENT_SERVER/src/ram_file_ctrl.c:150-158 | a write changes exactly its range, zero-fills a gap and never shrinks the file |
| RamFile.RamFile.constructor | CLIENT_SERVER/src/ram_file_ctrl.c:58-75 | existing contents are kept; a configured limit of zero means 10 MB |
| RamFile.RamFile.Read | CLIENT_SERVER/src/ram_file_ctrl.c:104-132 | succeeds exactly within limit and file end with the file's bytes; which error otherwise, what a short read leaves in the buffer, and when it is untouched |
| RamFile.RamFile.Write | CLIENT_SERVER/src/ram_file_ctrl.c:134-166 | succeeds exactly for non-empty data within the limit, overwriting the range; otherwise nothing changes |
| StoreState.WriteIsPrivate | STORAGE_MANAGER/src/store_mngr.c:133-156 | a write inside its block splices that block's buffer and changes no other buffer |
| StoreState.WriteAnywhere | STORAGE_MANAGER/src/store_mngr.c:148-149 | any write gives a buffer exactly the bytes of its range that fall into the buffer's block; a disjoint one leaves it as it was |
| StoreState.AnyWriteRefines | STORAGE_MANAGER/src/store_mngr.c:148-149 | the effect of any write on the map of all buffers |
| StoreState.StepRefines | STORAGE_MANAGER/src/store_mngr.c:91-156 | every operation acts on the map of private buffers alone; a write that strays from its block patches each buffer with the bytes that fall into it |
| StoreState.ReadBack | STORAGE_MANAGER/src/store_mngr.c:133-181 | over any run, with writes that stray from their blocks too, a written range holds its bytes, in buffer and file, until its block is freed or a write meets the range |
| StorageManager.HeldIsReadable | STORAGE_MANAGER/src/store_mngr.c:158-181 | what a buffer holds lies inside pool and file at the place a read goes to, so the read succeeds with these bytes |
| StorageManager.StorageManager.Create | STORAGE_MANAGER/src/store_mngr.c:21-73 | succeeds exactly for legal sizes, with the configured pool and least block, a fresh allocator, no buffers and the file limited to the pool; it then serves exactly the requests above half the least block and up to the pool |
| StorageManager.StorageManager.BlockAlloc | STORAGE_MANAGER/src/store_mngr.c:91-117 | adds one buffer of the least sufficient size, or fails exactly as the allocator does and changes nothing |
| StorageManager.StorageManager.BlockFree | STORAGE_MANAGER/src/store_mngr.c:119-131 | removes exactly the handle's buffer |
| StorageManager.StorageManager.BlockWrite | STORAGE_MANAGER/src/store_mngr.c:133-156 | succeeds exactly for data ending inside the pool, and then every buffer gets the bytes that fall into it; which error otherwise; each success is a step of the runs; an in-block write always succeeds, splices the handle's own buffer only, and is the write step of the runs |
| StorageManager.StorageManager.BlockRead | STORAGE_MANAGER/src/store_mngr.c:158-181 | succeeds exactly for a range inside pool and file, with the file's bytes; which error otherwise and what a short read leaves; in the block the bytes are the buffer's |
| Transfer.MessageRoundTrip | APPS/FILE_TRANSFER_INFRA/file_transfer_protocol.h:7-11 | unpacking a packed header and payload gives back every datagram |
| Transfer.PackedBytes | APPS/FILE_TRANSFER_INFRA/file_transfer_protocol.h:7-11 | a packed message starts with eight zero bytes, has the offset in bytes 8 to 15 and the payload from byte 16 on |
| Transfer.SendFile | APPS/FILE_SENDER_CLIENT_APP/file_sender_client.c:93-123 | the loop ends and no read fails; without a failing send all (n + 1023) / 1024 messages go out in order, otherwise those before the failure, whose code is returned; message k is on the wire as `MessageOnWire` says |
| Transfer.MessageOnWire | APPS/FILE_SENDER_CLIENT_APP/file_sender_client.c:96-119 | a file of n bytes makes (n + 1023) / 1024 messages; message k is eight zero bytes, the little-endian offset 1024 k and the file's bytes from there, up to 1024 |
| Transfer.MessagesAreChunks | APPS/FILE_SENDER_CLIENT_APP/file_sender_client.c:106-110 | the k-th message is the packed k-th chunk |
| Transfer.MessageDelivers | APPS/FILE_SENDER_SERVER_APP/file_sender_server.c:48-71 | the receiver acts on each of the sender's messages as on its chunk |
| Transfer.ChunksTile | APPS/FILE_SENDER_CLIENT_APP/file_sender_client.c:96-119 | a file of n bytes has (n + 1023) / 1024 chunks; chunk k starts at 1024 k, has 1 to 1024 bytes, the file's own, and ends where the next one starts |
| Transfer.ByteInOneChunk | APPS/FILE_SENDER_CLIENT_APP/file_sender_client.c:96-119 | every byte of the file is in exactly one chunk |
| Transfer.OnDatagram | APPS/FILE_SENDER_SERVER_APP/file_sender_server.c:48-71 | on bytes: of a message of at least 16 bytes, a payload of 1 to 1024 bytes that ends within the first 1048576 is written at the little-endian offset of bytes 8 to 15; any other message is ignored |
| Transfer.DeliverNext | APPS/FILE_SENDER_SERVER_APP/file_sender_server.c:48-71 | one message more in a series is one delivery more, or none when it is too short for the header |
| Transfer.Receive | APPS/FILE_SENDER_SERVER_APP/file_sender_server.c:48-71 | the callback run over any series of messages performs their deliveries |
| Transfer.UnpackedTrace | APPS/FILE_SENDER_SERVER_APP/file_sender_server.c:48-71 | messages taken from the sender's unpack to a delivery trace of its chunks, with every chunk whose message is there |
| Transfer.ReceiveTransfer | APPS/FILE_SENDER_SERVER_APP/file_sender_server.c:48-71 | end to end on bytes: once every message has arrived, in any order and number, the file is the source up to 1 MB, then the rest of the initial file |
| Transfer.TransferSafety | APPS/FILE_SENDER_SERVER_APP/file_sender_server.c:59-70 | for any trace with loss, repetition and reordering: covered bytes are the source's, others initial or zero, the length the larger of the initial one and the furthest end |
| Transfer.DeliveryOrderIrrelevant | APPS/FILE_SENDER_SERVER_APP/file_sender_server.c:59-70 | only the set of delivered chunks matters |
| Transfer.TransferExact | APPS/FILE_SENDER_SERVER_APP/file_sender_server.c:59-70 | for any trace the receiver ends with the source exactly when length and uncovered bytes agree |
| Transfer.CompleteDelivery | APPS/FILE_SENDER_SERVER_APP/file_sender_server.c:59-70 | with every chunk delivered: the source up to 1 MB, then the rest of the initial file |
| Transfer.TransferConverges | APPS/FILE_SENDER_SERVER_APP/file_sender_server.c:59-70 | with every chunk delivered the files are equal exactly when the initial file was no longer and, beyond 1 MB, already equal |
| IdPool.AcceptsExactly | INFRA/src/id_pool.c:93-99 | the range test accepts exactly the pool's ids when the range does not wrap, and nothing when it does |
| IdPool.AllAcceptedIffNoWrap | INFRA/src/id_pool.c:93-99 | every id can be freed exactly when start plus capacity stays below 2^32 |
| IdPool.WrapLosesIds | INFRA/src/id_pool.c:93-99 | a pool of one id that can never be freed |
| IdPool.LayoutBound | INFRA/src/id_pool.c:35-48 | stack and flags fit the one memory block exactly up to capacity 858993454 |
| IdPool.TooSmallBlock | INFRA/src/id_pool.c:35-48 | at capacity 858993455, which is accepted, the block is three bytes and does not hold them |
| IdPool.FreeAndUsedFillPool | INFRA/src/id_pool.c:125-141 | pigeonhole: free ids and flagged ids together make the capacity |
| IdPool.FullStack | INFRA/src/id_pool.c:51-61 | the initial stack holds every id once |
| IdPool.PopKeeps | INFRA/src/id_pool.c:80-82 | allocating keeps stack and flags complementary; the id was not in use |
| IdPool.PushKeeps | INFRA/src/id_pool.c:106-108 | freeing keeps them complementary, and the push fits |
| IdPool.IdPool.Create | INFRA/src/id_pool.c:18-66 | fails exactly for capacity zero, otherwise a valid full pool with no id in use, stacked so that the first id is on top (in the C layout exactly while `LayoutFits`) |
| IdPool.IdPool.Allocate | INFRA/src/id_pool.c:68-84 | an id in range that was not in use, `ENOENT` exactly for an empty stack |
| IdPool.FirstIds | INFRA/src/id_pool.c:58-84 | a fresh pool hands out its ids in ascending order: the j-th is start plus j in 32 bits |
| IdPool.IdPool.Free | INFRA/src/id_pool.c:86-111 | succeeds exactly for an in-use id of a range that does not wrap; which error otherwise |
| IdPool.IdPool.GetUsedIdCount | INFRA/src/id_pool.c:125-141 | the number of in-use flags, an error from 2^31 on, which no pool with a large enough block reaches |
| IdPool.FreeThenAllocate | INFRA/src/id_pool.c:68-111 | freeing and allocating again returns the same id and restores the pool |

## Left out

- `BuddyAllocator.BuddyAllocator.Free`: misuse (double free, foreign handles) is excluded by its precondition; the code checks only the level range.
- `BuddyAllocator.BuddyAllocator.CountFreeBlocks`: a level outside the tree is excluded by its precondition; the code does not check it.
- `Sizes.CalcMaxNodes`: the C shift is undefined from 32 levels on. The value stated for 32 is that of two's complement words, and none is stated for 33 to 64. Creation has at most 32 levels (`Sizes.LevelsOfRatio`), and its results speak of at most 27.
- `IdPool.IdPool.Create`: what the C code does with a memory block that is too small for its capacity; `IdPool.LayoutBound` says exactly when that is.
- `Transfer.MessageRoundTrip`: the header layout of other machines; the model packs it as on a little-endian 64-bit one, with zero padding.
- Block pointers are slot numbers and the slot array is indexed directly; raw addresses appear only in `Tree.SlotAddressBound`.
- Handles of the storage manager are values; the heap record around the block pointer is not modelled.
- Failing memory allocation, destroy functions, NULL checks, logging: easy members.
- Failing file calls (`fseek` apart from negative offsets, `fwrite`, `fflush`), paths, opening and deleting files.
- Sockets, threads and timeouts of `CLIENT_SERVER/src/net_server.c` and `net_client.c`; the network is a trace of deliveries.
- `CLIENTS_MANAGER/src/client_mngr.c`, `STACK/stack.c`, `APPS/FILE_CREATOR_APP/file_creator.c`, `INFRA/src/infra_log.c`: range checks around the id pool, and plain input and output.
