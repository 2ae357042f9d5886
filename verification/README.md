# BadLands kernel: allocators, page tables, scheduler and index structures

This project models the parts of the BadLands kernel whose correctness rests on hand-written data
structures, and proves what they are for. Each module follows one part of the kernel:

- `AvlTree`, `HeapMemory`, `HeapBlocks`, `KernelHeap`: the kernel heap. Free blocks are the nodes of
  an AVL tree that is stored in the blocks themselves, with parent pointers and heights. `AvlTree`
  is insertion and deletion on trees as values; `HeapMemory` says what it means that a tree lies in
  memory at an address below a path of ancestors, and what rewriting a few cells does to it;
  `KernelHeap.AVLHeap` holds the in-place algorithms, each proved to leave the tree that the
  recursive operation gives; `HeapBlocks` says that free and live blocks tile the memory obtained.
- `PageTables`, `RecursiveWindows`, `TableTree`, `AccessRights`, `AddressSpace`, `SecondaryWindow`,
  `GeneralMapping`, `DemandPaging`: four-level paging. `PageTables` is the walk of the processor (section 4.5 of the
  Intel 64 and IA-32 Architectures Software Developer's Manual, volume 3A). The kernel reads and
  writes entries only through virtual addresses, so `AddressSpace.MMU` translates every access by
  that same walk; the tables it edits are the tables it walks. `AccessRights` is what the entries of a
  walk allow (section 4.6 of the same volume).
- `FrameBitmaps`, `PhysicalMemory`, `DmaZone`: the physical frame allocator, its invariant, and the
  runs of frames in the DMA zone.
- `BlockTree`, `DataNodes`, `NodeLifetime`, `Directories`: the block index, the reference counts and
  the directories of NPFS.
- `RoundRobin`, `TaskManager`: the scheduler as a sequence of tasks and events, and the linked ring.
- `Crc32`, `PartitionTables`: the table-driven checksum (section 8 of RFC 1952) and the readers of a
  GUID partition table (section 5.3 of the UEFI Specification 2.10). `EntryCache` says where the cached
  reader finds each entry.
- `HashTable`, `BasicHashMap`: the chunked hash map and its iterator.
- `ScanCodes`: the keyboard's three scan-code sets.
- `Common` and `Divisions` hold what several of these share.

Code that changes state is a class whose methods are proved against functions on values; the lemmas
state what those functions promise over all inputs and all runs. Calls into other parts of the
kernel (the heap under NPFS and the hash map, the frame allocator under paging, a device under the
partition reader, locks) are parameters or fields that fix their outcome, for every outcome.

## What is false of the code

Where the code does less than one would expect, the model keeps the code, a lemma shows an input, and
the exact condition is proved:

- The best-fit search of the heap misses free blocks that fit: the method `KernelHeap.SearchMissesAFit` is a
  run from a new heap in which a request is refused although a free block fits it. A block is found exactly
  when `Findable` holds (`KernelHeap.AVLHeap.BestFind`).
- Heap requests near the top of the 64-bit range wrap around; exactly the requests up to `MAX_REQUEST`
  are served correctly: `HeapBlocks.RequestsThatFit`.
- The summaries of the frame bitmaps can hide free frames: the method `PhysicalMemory.SummariesLoseFrames`
  is a run of the allocator in which a free frame is refused. `PhysicalMemory.FrameAllocator.Allocate` and
  `Allocate2MB` state exactly when null is returned.
- The divisor of a block-index junction wraps to zero from depth 12 on: `BlockTree.Reductor`. Lookups and
  `DataNodes.DataNode.GetBlock` fault exactly then; a 64-bit block number reaches that depth only through
  refusals of the heap.
- Removing a directory entry whose node was already removed leaves the entry: `Directories.Directory.Remove`
  states that the entry goes exactly when the node had not been removed.
- The check of the partition array reads the wrong blocks when there is more than one batch and a batch
  is no whole number of blocks: `PartitionTables.CheckReadsTheArray`, both ways.
- The cached reader of partition entries can misread them: with blocks of 512 bytes, the 34th entry of 136
  bytes (`EntryCache.SizesThatDoNotDivide`). With C cached blocks of size b and P whole entries of
  size e in them, all n entries are read from their places if and only if n is at most P, or C * b or, for C
  above 1, (C - 1) * b is a multiple of e, or C is 1 and n is P + 1 and the first 128 bytes of the last entry
  still lie in the block: `EntryCache.ReadsInStep`. Entries need not divide blocks for this: entries of 384
  bytes are always in step with blocks of 512.
- A malformed byte stream takes the decoder of set 2 out of its tables: `ScanCodes.MalformedLeavesTables2` is
  an instance, `ScanCodes.LeavesTables2` says for which streams it happens, and `ScanCodes.BeyondShapes` lists
  the three ways in which a key can start such a stream.
- The zone check of `FreeDMA` has no effect, because its failure is not returned: the call always succeeds,
  and clears bits outside the zone exactly when the range is not empty and reaches beyond it
  (`DmaZone.DmaAllocator.FreeDMA`, `DmaZone.StraysBeyondTheZone`). The runs that are handed out survive exactly
  the ranges that meet none of them and not page 0 (`DmaZone.ClearingKeepsOwned`).
- The comment in `kernel/src/mm/PhysicalMemory.cpp:79-87` reads the `AnyFree` flags as exact; after marking,
  the flag of a 32MB group follows the `AnyUsed` flags of its regions, and the flag of a live 2MB region is clear.

## Model

| member | source | states |
|---|---|---|
| AvlTree.InsertOrdered | kernel/src/mm/Heap.cpp:181-232 | insertion keeps strict address order and adds exactly the new address |
| AvlTree.InsertAvl | kernel/src/mm/Heap.cpp:158-232 | choosing the rotation by comparing addresses alone restores balance: every insertion keeps balances in -1..1 with exact heights, the height grows by at most one, and a grown tree leans to the side of the new address |
| AvlTree.DeleteOrdered | kernel/src/mm/Heap.cpp:234-365 | deletion keeps strict address order and removes exactly the given address, also when the node has two children |
| AvlTree.DeleteAvl | kernel/src/mm/Heap.cpp:234-365 | deletion keeps the tree balanced and its height drops by at most one |
| AvlTree.AvlIsShallow | kernel/src/mm/Heap.cpp:55-74 | a tree of height h holds at least Fib(h+2)-1 blocks, so searches are logarithmic |
| HeapMemory.RotateLeftCorrect | kernel/src/mm/Heap.cpp:76-107 | rewriting the links and heights of the three nodes involved turns the stored tree into its rotation, parent pointers included, and changes no cell outside the subtree and its parent |
| HeapMemory.RotateRightCorrect | kernel/src/mm/Heap.cpp:109-140 | the mirror image, with the same frame |
| HeapMemory.InsertUp | kernel/src/mm/Heap.cpp:227-231 | one step of the loop from the new leaf up to the root equals one return of the recursive insertion, whatever the ancestors are |
| HeapMemory.ClimbDelete | kernel/src/mm/Heap.cpp:338-364 | repairing every ancestor from the place of the deleted node upwards gives the recursive deletion |
| HeapMemory.SpliceCorrect | kernel/src/mm/Heap.cpp:281-327 | putting the successor in the place of a node with two children leaves a well-formed stored tree at every address on the path, with the climb starting at the right parent |
| KernelHeap.AVLHeap.RotateLeft | kernel/src/mm/Heap.cpp:76-107 | the in-place left rotation leaves the rotated tree below the same ancestors and returns its root; without a right child nothing changes |
| KernelHeap.AVLHeap.RotateRight | kernel/src/mm/Heap.cpp:109-140 | the in-place right rotation, likewise |
| KernelHeap.AVLHeap.RotateRightLeft | kernel/src/mm/Heap.cpp:142-146 | the double rotation of a right-heavy node in place |
| KernelHeap.AVLHeap.RotateLeftRight | kernel/src/mm/Heap.cpp:148-152 | the double rotation of a left-heavy node in place |
| KernelHeap.AVLHeap.Rebalance | kernel/src/mm/Heap.cpp:158-179 | the rotation chosen from address comparisons is the one that the lean of the subtree calls for |
| KernelHeap.AVLHeap.Insert | kernel/src/mm/Heap.cpp:181-232 | the loop refines recursive insertion: the stored tree at the returned root is the tree with the new block, and a block already there changes nothing |
| KernelHeap.AVLHeap.ReplaceBySuccessor | kernel/src/mm/Heap.cpp:281-327 | the two-child case puts the leftmost node of the right subtree in the place of the deleted one and names the node from which the climb has to start |
| KernelHeap.AVLHeap.Delete | kernel/src/mm/Heap.cpp:234-365 | the in-place deletion refines recursive deletion; only cells of the tree change |
| KernelHeap.AVLHeap.BestFind | kernel/src/mm/Heap.cpp:367-403 | best fit: no block that fits, and above which all blocks of the tree fit, is smaller than the one found, which is such a block itself or fits exactly; a block is found exactly when the search condition holds, and an exact fit is returned exactly when the search meets one |
| HeapBlocks.BestOfThree | kernel/src/mm/Heap.cpp:384-402 | taking the smallest of a root that fits and of what its subtrees offer gives the best fit of the whole tree |
| HeapBlocks.RequestsThatFit | kernel/src/mm/Heap.cpp:405-434 | exactly the requests up to a bound get a payload as large as requested and an extension with room for a free node; above it the 64-bit size wraps |
| HeapBlocks.BlockSizeRounds | kernel/src/mm/Heap.cpp:423-434 | the block for a request is the smallest multiple of 8 that holds header and payload, and at least a node; header and payload fit exactly below the wrap |
| HeapBlocks.SplitState | kernel/src/mm/Heap.cpp:453-460 | cutting the requested block from the top of a free block keeps all blocks disjoint, aligned, large enough for a node and adding up to the arenas |
| HeapBlocks.TakeState | kernel/src/mm/Heap.cpp:461-466 | handing out a whole free block after deleting it from the tree keeps the tiling |
| HeapBlocks.ReturnState | kernel/src/mm/Heap.cpp:469-473 | inserting a returned block keeps the tiling and adds exactly that block to the free ones |
| HeapBlocks.ExtendState | kernel/src/mm/Heap.cpp:405-421 | a new arena whose top is handed out at once keeps the tiling, and the payload is new memory |
| HeapBlocks.FirstState | kernel/src/mm/Heap.cpp:498-513 | a heap of one fresh block satisfies the invariant |
| KernelHeap.AVLHeap.constructor | kernel/src/mm/Heap.cpp:498-513 | creating the heap establishes the invariant with no live block |
| KernelHeap.AVLHeap.ExtendArena | kernel/src/mm/Heap.cpp:405-421 | the new pages become one block: every cell of them is zero but for the size, which is the whole number of pages, at least twice the size asked for unless that wraps; no cell outside changes; a refusal changes nothing |
| KernelHeap.AVLHeap.AllocateFromExtension | kernel/src/mm/Heap.cpp:438-451 | serving from new pages hands out a block of the size asked for, returns the rest to the tree and leaves the contents of live blocks alone |
| KernelHeap.AVLHeap.AllocateFromBlock | kernel/src/mm/Heap.cpp:453-466 | serving from a free block cuts its top off exactly if what remains can hold a node, and takes all of it otherwise; the memory handed out is disjoint from live blocks, whose contents stay |
| KernelHeap.AVLHeap.Allocate | kernel/src/mm/Heap.cpp:423-467 | over every call the blocks tile the arenas; the payload is at least the request, overlaps no live block, and no live block is written to; the block that is cut or taken is the best fit; null exactly when the search finds nothing and no pages come |
| KernelHeap.AVLHeap.Free | kernel/src/mm/Heap.cpp:469-473 | freeing a live block moves exactly that block to the free ones, and keeps every size, the tiling and the contents of the other live blocks |
| KernelHeap.AVLHeap.OwnersWrite | kernel/src/mm/Heap.cpp:449-466 | whatever the owners of live blocks write in them between two calls, sizes in the headers apart, the tree and the tiling stay |
| HeapBlocks.OwnersKeepState | kernel/src/mm/Heap.cpp:449-466 | free blocks and their links share no cell with live blocks, so writing in live blocks keeps the whole heap state |
| KernelHeap.SearchMissesAFit | kernel/src/mm/Heap.cpp:384-402 | a run from a new heap of sixteen pages, two allocations and a free, after which a request is refused although a free block fits it exactly |
| PageTables.ParseComposed | common/include/shared/memory/defs.hpp:112-125 | parsing an address recovers the four indices and the offset it was composed of |
| RecursiveWindows.WindowIndices | kernel/src/mm/Paging.cpp:260-327 | the four window addresses take apart to one, two, three or four uses of the self-referencing slot followed by the indices of the address |
| RecursiveWindows.WindowLandsOnEntry | kernel/src/mm/Paging.cpp:260-327 | for every address, dereferencing each window address reaches the physical place of that level's entry and faults exactly when a level above is missing, for the running root and for a second one |
| TableTree.Install | kernel/src/mm/VirtualMemory.cpp:136-152 | linking an empty table into a slot that was not present keeps the tables a tree and changes no translation |
| TableTree.SetLeaf | kernel/src/mm/VirtualMemory.cpp:154-168 | writing one leaf entry changes the translation of exactly one page |
| TableTree.PathTables | kernel/src/mm/VirtualMemory.cpp:69-152 | the tables met on the way to a page are table frames that carry the page's own index path, so different paths never meet |
| AccessRights.InstallGrows | kernel/src/mm/VirtualMemory.cpp:79-152 | a new table leaves every entry above it as it was, on the way to every page, and is itself writable and for user mode exactly as asked |
| AccessRights.NewTablesAllow | kernel/src/mm/VirtualMemory.cpp:79-152 | new tables never take away the right to write, those for user mode take away no access, and a page that needed one not for user mode is not accessible in user mode |
| AccessRights.LeafAllows | kernel/src/mm/VirtualMemory.cpp:154-168 | a page that is given an entry is writable, or accessible in user mode, if and only if the entry and all tables on its way are |
| AccessRights.SameViewAllows | kernel/src/mm/VirtualMemory.cpp:154-168 | a page whose walk passes through the same entries keeps both rights |
| AddressSpace.MMU.ZeroPage | common/include/shared/memory/defs.hpp:127-137 | zeroing a page word by word through its own translation clears that frame and nothing else |
| AddressSpace.MMU.InstallTable | kernel/src/mm/VirtualMemory.cpp:136-152 | one missing level is linked and cleared through its window, without changing a translation, and leads to a writable table that is for user mode as asked; nothing happens when no frame is left |
| AddressSpace.MMU.EnsureTables | kernel/src/mm/VirtualMemory.cpp:71-152 | all levels on the way to a page exist afterwards exactly when there were frames enough for the missing ones, each taken in order; existing entries stay, every new one is writable and for user mode as asked; no translation changes either way |
| AddressSpace.MMU.SetPTE | kernel/src/mm/Paging.cpp:345-360 | writing an entry through its window sets the leaf entry of that page and touches no word outside the tables |
| AddressSpace.MMU.MapPage | kernel/src/mm/VirtualMemory.cpp:58-172 | refines a map update: success exactly for aligned addresses with frames for the missing tables; then the page lies on its frame, is writable if the tables that existed are, and accessible in user mode if and only if it was mapped with the lowest privilege and those tables are; all other pages outside the windows translate and allow what they did; on failure no translation changes; memory outside the tables is never touched |
| AddressSpace.EntryGivesRights | kernel/src/mm/VirtualMemory.cpp:79-168 | where all three tables were missing, a mapped page is writable, and accessible in user mode exactly with the lowest privilege |
| AddressSpace.FilterIsExact | kernel/src/mm/PhysicalMemory.cpp:38-47 | the filter of the processor's address width keeps exactly the page-aligned addresses below it, and of others their page |
| AddressSpace.MMU.IsMapped | kernel/src/mm/Paging.cpp:548-575 | true exactly when the processor translates the address |
| AddressSpace.MMU.GetPhysicalAddress | kernel/src/mm/Paging.cpp:508-534 | the same address as the processor's translation, for 4KB and 2MB pages, and none when it would fault |
| AddressSpace.MMU.MapOnDemand | kernel/src/mm/VirtualMemory.cpp:174-259 | a prefix of the range gets reserved entries, all of it unless frames for tables run out at the first page left over; new tables are writable and for user mode unless the privilege is the highest; every other page and all memory outside the tables is untouched |
| AddressSpace.MMU.HandlePageFault | kernel/src/interrupts/core/PageFault.cpp:40-122 | the outcome is decided by the error code, the present levels, the reserved entry and the supply, in that order; only a resolved fault changes memory, and then exactly one page, which allows what its reservation and its tables do |
| AddressSpace.FaultOutcomes | kernel/src/interrupts/core/PageFault.cpp:40-108 | a fault is resolved exactly if the present bit of the error code is clear, the page is reserved and a frame is left; each of the five panics has its exact condition on the error code and the leaf entry |
| AddressSpace.FaultWordBits | kernel/src/interrupts/core/PageFault.cpp:91-118 | bit by bit: the entry made for a reserved page holds the frame, keeps the four access and cache bits, moves PAT and global up by two, and sets no other bit but the present one |
| SecondaryWindow.BareRootIsSpace | kernel/src/mm/Paging.cpp:590-593 | a root with both self-referencing slots and nothing else is a well-formed address space with a window of its own |
| SecondaryWindow.UpdateSecondaryRecursiveMapping | kernel/src/mm/Paging.cpp:602-610 | slot 509 of the running root is set, and only that, through the primary window; no page translates differently |
| SecondaryWindow.CreateSecondaryRecursiveMapping | kernel/src/mm/Paging.cpp:577-600 | after mapping, filling and unmapping the new root every page translates and allows what it did, the root holds exactly its two slots, writable and not for user mode, and slot 509 shows the second space, ready to be edited like the first |
| SecondaryWindow.EditSecondary | kernel/src/mm/Paging.cpp:577-610 | the second space shown by slot 509 meets all that editing through the secondary window relies on, and shares no table with the running one |
| SecondaryWindow.MapInSecond | kernel/src/mm/VirtualMemory.cpp:58-172 | mapping a page in the second space maps it there with the rights of its privilege and keeps the tables and every translation of the running space, so edits of the second space can be repeated |
| SecondaryWindow.ForeignKeeps | kernel/src/mm/Paging.cpp:577-610 | what is written in frames that are no tables of a space changes none of its translations |
| GeneralMapping.ZonePageIndices | kernel/include/mm/VirtualMemoryLayout.hpp:40-44 | the zone lies in one slot of the root, outside the windows, and its pages are numbered consecutively |
| GeneralMapping.MapGeneralPages | kernel/src/mm/VirtualMemory.cpp:877-962 | exact first fit: the range is mapped at the lowest run of unmapped pages that is long enough, and the entry of each of its pages is present and has the flags passed in, bit by bit; new tables are writable and not for user mode; null leaves all translations and means that no run exists, that nothing was asked for, or that a table's frame was missing before one was found |
| GeneralMapping.GeneralWordFields | kernel/src/mm/VirtualMemory.cpp:944-947 | the entry of a mapped page is present, has the frame, and agrees with the flags on every other bit outside the address field |
| GeneralMapping.RunHasFlags | kernel/src/mm/VirtualMemory.cpp:934-951 | in a run that was mapped, the leaf entry of every page is present and has the flags |
| GeneralMapping.MappedRangeTranslates | kernel/src/mm/VirtualMemory.cpp:936-951 | every byte of the returned range translates to the byte of the physical range at the same distance |
| GeneralMapping.UnmapGeneralPages | kernel/src/mm/VirtualMemory.cpp:964-992 | the entries of the range are cleared up to the first page without a page table; nothing else changes, in or outside the tables |
| GeneralMapping.UnmapRestores | kernel/src/mm/VirtualMemory.cpp:877-992 | unmapping what was mapped restores the translation of every address |
| GeneralMapping.UnmapRestoresRights | kernel/src/mm/VirtualMemory.cpp:877-992 | and what every address allows |
| GeneralMapping.MappedIsReadable | kernel/src/mm/VirtualMemory.cpp:964-992 | what was mapped can be unmapped: all entries the loop reads without asking are there |
| DemandPaging.BackedWord | kernel/src/interrupts/core/PageFault.cpp:91-118 | the entry made at the first fault is present, has the new frame and the access bits of the reservation, and is no longer a reservation |
| DemandPaging.PagesTranslate | kernel/src/mm/VirtualMemory.cpp:174-259 | in every state of the pager, at every offset, a reserved page has no translation and a backed one translates to its own frame |
| DemandPaging.FirstFault | kernel/src/interrupts/core/PageFault.cpp:70-122 | the first fault moves exactly one page from reserved to backed, on a frame that no other page has |
| DemandPaging.DemandPager.Fault | kernel/src/interrupts/core/PageFault.cpp:70-122 | over every run of faults and reservations no two pages share a frame; a fault on a reserved page with a frame left is resolved, and the page is then writable, and accessible in user mode exactly as reserved, as far as its tables are; other pages are untouched |
| DemandPaging.DemandPager.Reserve | kernel/src/mm/VirtualMemory.cpp:174-259 | reserving keeps the invariant, and makes exactly the pages of the reserved prefix wait for their first fault; new tables are for user mode unless the privilege is the highest |
| FrameBitmaps.LiveBlocksAreDisjoint | kernel/src/mm/PhysicalMemory.cpp:722-836 | two live blocks that share a byte are the same block, 4KB frames and 2MB regions alike, and no live region lies in the DMA zone |
| FrameBitmaps.MarkKeeps | kernel/src/mm/PhysicalMemory.cpp:189-241 | marking a region keeps the invariant, and its group is flagged as free only if a region of it is untouched |
| FrameBitmaps.FrameKeeps | kernel/src/mm/PhysicalMemory.cpp:759-785 | taking any available frame of a marked region gives a frame that is not live and keeps the invariant |
| FrameBitmaps.FrameThenMarkKeeps | kernel/src/mm/PhysicalMemory.cpp:725-737 | so does taking the remembered frame before its region is marked |
| FrameBitmaps.RegionKeeps | kernel/src/mm/PhysicalMemory.cpp:338-361 | taking an untouched region keeps the invariant although none of its frames is marked |
| FrameBitmaps.FreeFrameKeeps | kernel/src/mm/PhysicalMemory.cpp:903-945 | freeing a frame keeps the invariant, with the summaries updated only as far as the code does |
| FrameBitmaps.FreeRegionKeeps | kernel/src/mm/PhysicalMemory.cpp:283-306 | freeing a region without live frames keeps the invariant |
| FrameBitmaps.MarkedRegionFlags | kernel/src/mm/PhysicalMemory.cpp:189-241 | every flag after marking a region: it and its group are in use; it stays open if it was and one of its frames is free, its group if it was and one of its regions is untouched |
| FrameBitmaps.WithRegionFlags | kernel/src/mm/PhysicalMemory.cpp:338-361 | every flag after handing out a region: it is in use and closed, and its group stays open only while another region of it is untouched |
| FrameBitmaps.WithoutFrameFlags | kernel/src/mm/PhysicalMemory.cpp:903-945 | every flag after giving back a frame: its region is open, and in use exactly if another of its frames is; both flags of the group are exact |
| FrameBitmaps.WithoutRegionFlags | kernel/src/mm/PhysicalMemory.cpp:283-306 | every flag after giving back a region: none of its frames is in use, it is open, and both flags of its group are exact |
| FrameBitmaps.SummarisedIsConsistent | kernel/src/mm/PhysicalMemory.cpp:605-671 | the summary loops establish the invariant for any bitmap that reserves the DMA zone |
| PhysicalMemory.LargeMemoryCache.Push | kernel/src/mm/PhysicalMemory.cpp:120-126 | the ring gains the entry at its end, unless it is full |
| PhysicalMemory.LargeMemoryCache.Pop | kernel/src/mm/PhysicalMemory.cpp:128-137 | the oldest entry leaves the ring, and the order of the rest stays |
| PhysicalMemory.FrameAllocator.constructor | kernel/src/mm/PhysicalMemory.cpp:373-674 | after setup a frame is free exactly if it lies above the DMA zone and some page-aligned descriptor of usable memory covers it; all summaries are exact, and the invariant holds |
| PhysicalMemory.DescribedIsInMemory | kernel/src/mm/PhysicalMemory.cpp:394-412 | cutting the DMA zone off a descriptor frees exactly the frames that the descriptor covers above the zone |
| PhysicalMemory.FrameAllocator.Allocate | kernel/src/mm/PhysicalMemory.cpp:722-794 | the answer is a frame that was not live, or null, exactly when the remembered frame cannot be used and no group is flagged as free; a usable remembered frame is returned; otherwise the lowest free frame in the open regions of a group, a partly used one if the first word of groups with free memory has any; every flag of every level afterwards is stated, and the next free frame of its word is remembered |
| PhysicalMemory.NextInWordIsFirst | kernel/src/mm/PhysicalMemory.cpp:779-783 | the frame remembered is the first free one of the word, and none only if the word is full |
| FrameBitmaps.SearchFinds | kernel/src/mm/PhysicalMemory.cpp:754-790 | a search of a group takes the lowest free frame of its open regions, closes exactly the regions it passed over, and opens nothing |
| PhysicalMemory.SummariesLoseFrames | kernel/src/mm/PhysicalMemory.cpp:203-211 | a run from setup in which two of three free frames are handed out and the third request is refused although the third frame stays free |
| FrameBitmaps.TakingCloses | kernel/src/mm/PhysicalMemory.cpp:203-211 | why: once every region is in use, taking any frame clears the flag of its group, whatever is free in it |
| PhysicalMemory.FrameAllocator.Free | kernel/src/mm/PhysicalMemory.cpp:903-948 | succeeds exactly for addresses above the DMA zone in range; the frame ceases to be live and is the one the next allocation returns; the flags of its region and group follow, and its region is cached exactly if nothing else in it is used; freeing a free frame changes nothing |
| PhysicalMemory.FrameAllocator.AllocateCached2MBPage | kernel/src/mm/PhysicalMemory.cpp:338-361 | the oldest cached region is handed out and closed if it is untouched; a stale or duplicate entry is dropped and changes no bitmap |
| PhysicalMemory.FrameAllocator.Allocate2MB | kernel/src/mm/PhysicalMemory.cpp:796-853 | the answer is a region that was not live; null exactly when the oldest cached entry is missing or stale and the next one is stale, or, without a next one, when no region is untouched; without a usable cached entry it is the first untouched region of all partly used groups, or, if those have none, the first region of the first unused group |
| PhysicalMemory.FrameAllocator.Free2MB | kernel/src/mm/PhysicalMemory.cpp:950-975 | succeeds exactly for used regions in range outside the DMA zone, which cease to be live; all their frames are cleared and their group is summarised |
| PhysicalMemory.FrameAllocator.Mark32MBRegionUsed | kernel/src/mm/PhysicalMemory.cpp:189-212 | the early-exit loop clears the free flag exactly when all sixteen regions are in use |
| PhysicalMemory.FrameAllocator.Mark2MBRegionUsed | kernel/src/mm/PhysicalMemory.cpp:214-241 | the flags of region and group afterwards, exact for full regions |
| PhysicalMemory.FrameAllocator.Update32MBFlags | kernel/src/mm/PhysicalMemory.cpp:243-281 | both flags of the group become exact summaries of its regions' flags |
| PhysicalMemory.FrameAllocator.Region2MBHasUsed | kernel/src/mm/PhysicalMemory.cpp:308-319 | true exactly if a frame of the region is marked |
| PhysicalMemory.FrameAllocator.Mark2MBRegionFreed | kernel/src/mm/PhysicalMemory.cpp:283-306 | all frames of the region are cleared, its group is summarised, and the region is cached |
| DmaZone.TakingKeepsOwned | kernel/src/mm/PhysicalMemory.cpp:685-720 | marking a free run keeps all handed-out runs in use and pairwise disjoint, and never takes page 0 |
| DmaZone.GivingBackKeepsOwned | kernel/src/mm/PhysicalMemory.cpp:883-901 | clearing one run leaves every bit of the others set |
| DmaZone.TakenAndGivenBack | kernel/src/mm/PhysicalMemory.cpp:685-720 | giving a run back restores the bitmap from before it was taken |
| DmaZone.ClearingKeepsOwned | kernel/src/mm/PhysicalMemory.cpp:883-901 | clearing a range leaves the handed-out runs intact if and only if it meets none of them and not page 0 |
| DmaZone.StraysBeyondTheZone | kernel/src/mm/PhysicalMemory.cpp:883-901 | bits outside the zone are cleared if and only if the range is not empty and ends beyond it, and its end does not wrap |
| DmaZone.DmaAllocator.AllocateDMA | kernel/src/mm/PhysicalMemory.cpp:685-720 | first fit: the lowest run of free pages that is long enough is marked and returned; null exactly when there is none or nothing was asked for |
| DmaZone.DmaAllocator.FreeDMA | kernel/src/mm/PhysicalMemory.cpp:883-901 | always succeeds, clears exactly the bits of the range inside the bitmap and exactly those beyond it, up to the 64-bit end; a live run becomes free again and the others stay |
| BlockTree.Reductor | kernel/src/fs/NPFS.cpp:120-148 | the divisor of a junction in 64-bit arithmetic is the number of blocks below a slot up to depth 11 and zero from depth 12 on |
| BlockTree.LookupAnswers | kernel/src/fs/NPFS.cpp:81-109 | walking down by division finds exactly the block placed under that number, for every number |
| BlockTree.AddChild | kernel/src/fs/NPFS.cpp:111-159 | hanging a vector in an empty slot keeps the index a tree in which every vector has one place |
| BlockTree.AddRoot | kernel/src/fs/NPFS.cpp:209-228 | so does growing at the root, where every block keeps its number |
| DataNodes.DataNode.GetWeakBlock | kernel/src/fs/NPFS.cpp:205-207 | refines a partial map: the answer is the one block of that number, or null; the processor faults exactly from depth 12 on |
| DataNodes.DataNode.JunctionGetBlock | kernel/src/fs/NPFS.cpp:111-159 | the block below a junction is found or created; out of bounds, out of memory and the division fault are told apart exactly, and nothing else moves |
| DataNodes.DataNode.Grow | kernel/src/fs/NPFS.cpp:214-225 | a new root raises the depth by one and loses no block; a refusal changes nothing |
| DataNodes.DataNode.GetBlock | kernel/src/fs/NPFS.cpp:209-228 | a block returned is what lookups of that number return from then on; all other lookups are unchanged, across root growth and failures; null only if the heap refused or four new roots are not enough; a fault from a depth below 12 only after a refusal |
| DataNodes.DataNode.BlocksDiffer | kernel/src/fs/NPFS.cpp:81-109 | different numbers never share a block |
| DataNodes.DataNode.Destroy | kernel/src/fs/NPFS.cpp:161-176 | every vector of the tree is freed exactly once |
| NodeLifetime.DestroyedOnce | kernel/src/fs/IFNode.cpp:21-49 | over every run of matched opens and closes a node is destroyed at most once, and has been exactly when it is removed and nobody holds it |
| NodeLifetime.DestroyedAtLastClose | kernel/src/fs/IFNode.cpp:31-37 | after any run, an event destroys the node exactly if it is the close that drops the last reference of a removed node, and then for the first time |
| NodeLifetime.RemovedForGood | kernel/src/fs/IFNode.cpp:21-49 | after removal no open succeeds and references only fall, by one per close |
| NodeLifetime.CountsReferences | kernel/src/fs/IFNode.cpp:21-49 | in every run without a removal the references are the opens less the closes |
| NodeLifetime.IFNode.Open | kernel/src/fs/IFNode.cpp:21-29 | opening follows the run model and succeeds exactly before removal |
| NodeLifetime.IFNode.Close | kernel/src/fs/IFNode.cpp:31-37 | closing follows the run model, wrap of the 64-bit counter included: the last close of a removed node destroys it |
| Directories.ListsEveryNameOnce | kernel/src/fs/NPFS.cpp:503-544 | the names listed from position 0 are distinct and are exactly the names of the directory |
| Directories.Directory.FindEntry | kernel/src/fs/NPFS.cpp:263-292 | the scan over contiguous blocks finds the slot of a name exactly when the map has it |
| Directories.Directory.CreateEntry | kernel/src/fs/NPFS.cpp:316-360 | success inserts the name into the map; each error has its exact condition or cause and leaves the map alone |
| Directories.Directory.AddNode | kernel/src/fs/NPFS.cpp:434-463 | adding an existing node inserts it under the name, once |
| Directories.Directory.Create | kernel/src/fs/NPFS.cpp:362-432 | success inserts a new node of the given type that nobody holds; each error, a refused type included, has its exact condition or cause and leaves the map alone |
| Directories.Directory.Find | kernel/src/fs/NPFS.cpp:296-314 | agrees with the map, and opens the node unless it has been removed |
| Directories.Directory.Remove | kernel/src/fs/NPFS.cpp:465-501 | deletes the name, marks its node, and destroys it now exactly if nobody holds it; no other node or name changes |
| Directories.Directory.List | kernel/src/fs/NPFS.cpp:503-544 | the names of the used slots from a position on, in order, as many as fit |
| RoundRobin.RunKeeps | kernel/src/sched/TaskManager.cpp:29-162 | over every run the ids of the n tasks are 1 to n, each once, and a task that may not be blocked is not |
| RoundRobin.ChosenIsNotBlocked | kernel/src/sched/TaskManager.cpp:130-162 | in every run with the idle task in the ring a switch never chooses a blocked task |
| RoundRobin.IdleStays | kernel/src/sched/Self.cpp:185-195 | the task that cannot be blocked stays in the ring and unblocked through every event |
| RoundRobin.BoundedWaiting | kernel/src/sched/TaskManager.cpp:130-162 | an unblocked task d places from the head runs within d switches, however other tasks are added, blocked and unblocked in between |
| RoundRobin.TasksAreOfRun | kernel/src/sched/TaskManager.cpp:52-162 | in every run from the empty ring each task has the address space, the start address and the kind that its creation gave it, and is blocked if and only if it can be and the last call to block or unblock it since then blocked it |
| RoundRobin.MarkingIsLocal | kernel/src/sched/TaskManager.cpp:110-128 | blocking and unblocking set the flag of the one task with the id, and leave every other task and field, the order and the count of switches as they are |
| RoundRobin.StartsNextReady | kernel/src/sched/TaskManager.cpp:130-162 | the first switch starts the head; a later one the next task round the ring that is not blocked, and none if and only if all others are blocked |
| RoundRobin.SwitchTurnsTheRing | kernel/src/sched/TaskManager.cpp:145-157 | a later switch keeps the order round the ring, saves the stack pointer in the head alone, and leaves every other task as it is |
| RoundRobin.ContextIntegrity | kernel/src/sched/TaskManager.cpp:130-162 | in every run, whenever a switch starts a task it returns the address space and the start address of that task's creation, and the stack pointer passed in when it was last left, or its first one; the very first switch saves nothing |
| TaskManager.TaskManager.FindTask | kernel/src/sched/TaskManager.cpp:29-50 | the walk around the ring finds the one task with the id, or null if there is none |
| TaskManager.TaskManager.AddTask | kernel/src/sched/TaskManager.cpp:52-91 | the linked ring gains the task in front of the head, with consistent links both ways |
| TaskManager.TaskManager.BlockTask | kernel/src/sched/TaskManager.cpp:110-118 | exactly the task with the id becomes blocked if it can be; every other flag and every context stays |
| TaskManager.TaskManager.UnblockTask | kernel/src/sched/TaskManager.cpp:120-128 | exactly the task with the id becomes unblocked; every other flag and every context stays |
| TaskManager.TaskManager.TaskSwitch | kernel/src/sched/TaskManager.cpp:130-162 | the linked ring follows the run model, and the task returned is the one the model starts; null exactly without tasks, under contention, or when no other task is to run; the head's stack pointer is all that is saved, and nothing under contention or by the first switch |
| Crc32.TableStep | kernel/src/crypto/crc.cpp:22-66 | one step with the constant table equals eight steps of the reflected polynomial 0xEDB88320, for every register value |
| Crc32.CRC32 | kernel/src/crypto/crc.cpp:59-70 | the table-driven loop computes the bit-by-bit checksum of every byte string |
| Crc32.CheckValues | kernel/src/crypto/crc.cpp:59-70 | the checksums of no byte and of the letter a are the standard ones |
| Crc32.CRC32Engine.Update | kernel/src/crypto/crc.cpp:72-77 | the register becomes the bit-by-bit update with the bytes |
| Crc32.UpdatedInPieces | kernel/src/crypto/crc.cpp:72-81 | any split into updates gives the checksum of the whole |
| Crc32.UpdatedInjective | kernel/src/crypto/crc.cpp:72-77 | equal bytes never merge different registers |
| Crc32.BurstsAreDetected | kernel/src/crypto/crc.cpp:59-70 | messages that differ only within four consecutive bytes have different checksums |
| Crc32.OneByteIsDetected | kernel/src/crypto/crc.cpp:59-70 | messages that differ in exactly one byte have different checksums |
| PartitionTables.CheckReadsTheArray | kernel/src/devices/Block/Device.cpp:162-186 | the batches read every byte of the array from its place if and only if there is one batch or a batch is a whole number of blocks |
| PartitionTables.CheckIsOfTheArray | kernel/src/devices/Block/Device.cpp:162-193 | under that condition the checksum compared is that of the first count times size bytes of the array |
| PartitionTables.IsPartitionArrayValid | kernel/src/devices/Block/Device.cpp:151-195 | true only for a plausible header whose batched checksum matches, and exactly then if memory is granted and the device reads |
| EntryCache.ReadsInStep | kernel/src/devices/Block/Device.cpp:255-333 | every one of n entries is read from its place and within the cache if and only if the table is in step with the cache, a condition on the sizes and n |
| EntryCache.SizesThatDoNotDivide | kernel/src/devices/Block/Device.cpp:255-333 | an entry size with which the 34th entry is misread, and one that does not divide blocks and is never misread |
| EntryCache.StaysAligned | kernel/src/devices/Block/Device.cpp:255-333 | if the first refill begins at an entry, all of them do |
| EntryCache.ThreeBlocksStay | kernel/src/devices/Block/Device.cpp:282-333 | with three cached blocks or more no entry is read from behind the cache, whatever the sizes |
| EntryCache.SameGeometry | kernel/src/devices/Block/Device.cpp:282-311 | sizing the cache again after a reset changes neither its blocks nor its entries |
| PartitionTables.GPTPartitionFetcher.Initialize | kernel/src/devices/Block/Device.cpp:282-305 | the cache holds the first blocks of the array and its sizes are those the entries call for, also when it is sized again; it fails only without memory or on a read error |
| PartitionTables.GPTPartitionFetcher.UpdateCache | kernel/src/devices/Block/Device.cpp:255-269 | a refill moves the cache to the block in which the entry begins, and numbers its first entry by rounding down |
| PartitionTables.GPTPartitionFetcher.Next | kernel/src/devices/Block/Device.cpp:317-333 | for every entry size, call i returns the bytes at the place that the cache model gives for entry i, or what lies behind the cache exactly when the entry reaches beyond it; it fails only at the end or on a read error |
| PartitionTables.CountPartitions | kernel/src/devices/Block/Device.cpp:553-577 | the first pass counts exactly the usable entries among what is read, in step with the table or not, as long as reads stay in the cache |
| PartitionTables.FillPartitions | kernel/src/devices/Block/Device.cpp:587-640 | the second pass reads the same and writes exactly the counted partitions, in order and never out of bounds: those of all entries in use, each with the blocks and identifiers that its bytes name |
| PartitionTables.LoadPartitions | kernel/src/devices/Block/Device.cpp:546-640 | both passes with the reset between them leave the partitions that are read: one for each entry in use, in order, with the blocks and identifiers that its bytes name; these are the entries of the table if it is in step with the cache; they fail only without memory or on a read error |
| PartitionTables.ReadsThePartitions | kernel/src/devices/Block/Device.cpp:553-640 | for a table in step with the cache what is read as its partitions are its partitions |
| PartitionTables.EntryDescribes | kernel/src/devices/Block/Device.cpp:597-622 | an entry makes a partition exactly if the two block numbers in its bytes are not both zero, in order and usable; its first and last block are the numbers in bytes 32 to 39 and 40 to 47, lowest byte first, and its identifiers are bytes 0 to 15 and 16 to 31 |
| PartitionTables.BlocksOfPartition | kernel/src/devices/Block/Device.cpp:602-610 | a block belongs to a partition if and only if it lies between those two, both included, and then it is a usable block of the device |
| PartitionTables.PartitionsAreListed | kernel/src/devices/Block/Device.cpp:587-622 | of any entries, the partitions are those of the entries in use, each once, in the order of the entries |
| HashTable.PutNew | kernel/include/ext/BasicHashMap.hpp:167-225 | a new key in any free slot of its bucket adds exactly that key to the map the table stands for |
| HashTable.PutOld | kernel/include/ext/BasicHashMap.hpp:167-225 | overwriting the slot of a key updates exactly that key |
| HashTable.VisitsEveryEntryOnce | kernel/include/ext/BasicHashMap.hpp:96-121 | the order of visit meets every key exactly once, whatever the hash function |
| BasicHashMap.Aggregate.Access | kernel/include/ext/BasicHashMap.hpp:38-49 | scanning by presence words finds the slot of a key exactly if the chunk has it |
| BasicHashMap.Aggregate.Insert | kernel/include/ext/BasicHashMap.hpp:51-65 | the first free slot takes the entry; none only if the chunk is full |
| BasicHashMap.BasicHashMap.At | kernel/include/ext/BasicHashMap.hpp:149-165 | looks up the map: the last value inserted, or nothing |
| BasicHashMap.BasicHashMap.Insert | kernel/include/ext/BasicHashMap.hpp:167-226 | updates the map; size counts the distinct keys; only a new key can fail, for want of memory, and then nothing changes |
| BasicHashMap.BasicHashMap.Begin | kernel/include/ext/BasicHashMap.hpp:228-261 | an iterator at the first entry, or at the end of an empty map |
| BasicHashMap.Iterator.Advance | kernel/include/ext/BasicHashMap.hpp:96-122 | moves to the next entry in the order of visit, across chunks and buckets |
| BasicHashMap.Visit | kernel/include/ext/BasicHashMap.hpp:96-134 | a loop from begin until equal to end meets each key of the map exactly once |
| ScanCodes.BackWithinSix1 | kernel/src/devices/PS2/Keypoints.cpp:394-523 | whatever the bytes, the handler of set 1 is back in its start state within six bytes of leaving it |
| ScanCodes.StaysInTables1 | kernel/src/devices/PS2/Keypoints.cpp:394-523 | no byte takes the handler of set 1 out of its tables |
| ScanCodes.DecodesSet1 | kernel/src/devices/PS2/Keypoints.cpp:394-523 | decoding inverts encoding for every sequence of key events, Print Screen and Pause included, and ends in the start state |
| ScanCodes.StreamOutcome1 | kernel/src/devices/PS2/Keypoints.cpp:407-447 | any byte that is no prefix, and any behind 0xE0 that starts no fixed sequence, gives its packet, whatever follows |
| ScanCodes.PrintOutcome1 | kernel/src/devices/PS2/Keypoints.cpp:426-495 | any two bytes behind the two that begin Print Screen are swallowed, and give its packet if and only if both match |
| ScanCodes.PauseOutcome1 | kernel/src/devices/PS2/Keypoints.cpp:496-519 | any five bytes behind the one that begins Pause are swallowed, and give its packet if and only if all of them match |
| ScanCodes.DecodesSet2 | kernel/src/devices/PS2/Keypoints.cpp:525-670 | the same for set 2, with its release prefixes and longer sequences |
| ScanCodes.FixedOutcome2 | kernel/src/devices/PS2/Keypoints.cpp:525-670 | the same for the fixed sequences of set 2, with what becomes of a release prefix that came before |
| ScanCodes.DecodesSet3 | kernel/src/devices/PS2/Keypoints.cpp:672-691 | the same for set 3 |
| ScanCodes.EventsAreTold1 | kernel/src/devices/PS2/Keypoints.cpp:394-523 | where keypoints tell apart the keys that share a last byte, different event sequences are decoded differently in set 1 |
| ScanCodes.EventsAreTold2 | kernel/src/devices/PS2/Keypoints.cpp:525-670 | the same for set 2 |
| ScanCodes.EventsAreTold3 | kernel/src/devices/PS2/Keypoints.cpp:672-691 | in set 3 different event sequences are decoded differently, whatever the keypoints |
| ScanCodes.LeavesTables2 | kernel/src/devices/PS2/Keypoints.cpp:525-670 | the handler of set 2 leaves its tables exactly on the streams in which, unit by unit from the start, one begins beyond them |
| ScanCodes.BeyondShapes | kernel/src/devices/PS2/Keypoints.cpp:549-662 | a unit begins beyond the tables if and only if it is an extended key with three release prefixes, or with two and the last code of Print Screen, or Pause behind seven of them, with a byte left to read |
| ScanCodes.MalformedLeavesTables2 | kernel/src/devices/PS2/Keypoints.cpp:549-570 | for instance any code behind 0xE0 and three release prefixes takes the handler of set 2 beyond its tables |
| ScanCodes.KeyboardScanCodeSet1Handler.Handle | kernel/src/devices/PS2/Keypoints.cpp:394-523 | the handler with its static state follows the state machine that the lemmas are about |
| ScanCodes.KeyboardScanCodeSet2Handler.Handle | kernel/src/devices/PS2/Keypoints.cpp:525-670 | likewise for set 2, for every byte in every state; reading behind a table is told apart exactly |
| ScanCodes.KeyboardScanCodeSet3Handler.Handle | kernel/src/devices/PS2/Keypoints.cpp:672-691 | likewise for set 3 |

## Left out
- Numbers: pointers, physical addresses and 64-bit words are natural numbers; an OR of disjoint bit
  fields is their sum. Widths are written out where they decide something (block sizes of the heap,
  the divisor of the block index, the checksum register).
- Outcomes of other parts of the kernel: memory from the heap under NPFS and the hash map, pages for
  the kernel heap, frames for page tables, reads of a device and the scheduler's lock are parameters or
  sequences in the state, for every outcome. The frames handed to paging are assumed to be distinct,
  non-zero and not in use as tables, which is what the frame allocator proves of its own answers.
- Methods cut out of one source function, such as `AllocateFromBlock`, `EnsurePT`, `SearchRegion`,
  `FillCache`, `LinkChunk` or `NextWithin`, are named pieces of that function's body; the source has the code inline.
- KernelHeap.AVLHeap.BestFind: completeness of the search, which is false; its exact condition is stated.
- KernelHeap.AVLHeap.Allocate: requests above `MAX_REQUEST`, whose sizes wrap around.
- AddressSpace.MMU.MapPage: mapping a 2MB page (`huge`), pages that lie behind an existing large page, and
  pages inside the recursive windows, where mapping would rewrite the tables themselves.
- AddressSpace.MMU.MapOnDemand: the same large pages and windows.
- AddressSpace.MMU.IsMapped: 1GB pages on the way, where the code checks presence only.
- AddressSpace.MMU.HandlePageFault: faults inside the recursive windows or behind a 1GB page, and reservations with a protection key, whose bits the handler would shift
  into the address field.
- GeneralMapping.MapGeneralPages: flags with bits in the address field, which would change the frame.
- GeneralMapping.UnmapGeneralPages: ranges whose second- or third-level tables are missing, where the
  code reads entries of absent tables.
- SecondaryWindow.CreateSecondaryRecursiveMapping: sharing the kernel's slots and the DMA pages with the
  new space, and tearing it down.
- Paging: the processor's translation caches and their invalidation; the bootloader's tables.
- PhysicalMemory.FrameAllocator.Allocate: that null means full memory, which is false; the exact condition
  is stated.
- PhysicalMemory.FrameAllocator.Free: what goes into the cache of 32MB regions, which only 32MB allocations read.
- PhysicalMemory.FrameAllocator.Mark2MBRegionFreed: the same.
- PhysicalMemory.FrameAllocator.constructor: taking the pages of the bitmaps out of the descriptors and mapping them;
  for descriptors that do not begin at a page boundary, which the firmware does not give, only `Described` says what is freed.
- PhysicalMemory.FrameAllocator.Free2MB: regions that hold live frames of their own.
- Physical memory: `Allocate32MB`, `Free32MB`, `Free1GB` and the cache of 32MB regions, which mark only
  the top level, so that smaller allocations can be served from inside.
- Virtual memory: `AllocateCore` and `FreeCore` with their block list, and the heap of I/O addresses,
  whose coalescing misplaces blocks.
- DataNodes.DataNode.GetBlock: nothing is claimed about lookups after a division fault at depth 12.
- NPFS: reading and writing files, path resolution, and block sizes other than the one used.
- NodeLifetime.DestroyedOnce: runs in which a node is closed or marked without being held, or opened 2^64 times.
- Directories.Directory.Remove: freeing the copy of the name.
- TaskManager: `RemoveTask`, which does not unlink the task; interrupts and other processors.
- PartitionTables.LoadPartitions: tables with an entry that is read from behind the cache, which takes fewer
  than three cached blocks; names of partitions and their entry in
  the device directory; the header's own checksum and the protective boot record.
- ScanCodes: the contents of the keypoint tables, which are parameters; the wrap of the byte counter of set 2
  after 2^32 release prefixes.
- Concurrent use of any structure: locks are taken as held.
- Devices, interrupts, ACPI, USB, SCSI, the shell and the framebuffer are not part of this model.
