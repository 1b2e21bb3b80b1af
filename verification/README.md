# LymadOS kernel: memory manager, ELF loader and scheduler

A Dafny model of the parts of the LymadOS kernel where correctness is hardest to see: the three
layers of its memory manager, the loader that fills user pages, and the round-robin task switch.
`dafny verify dfyconfig.toml` checks the whole project.

- **Frame allocator.** `BuddySpec` is the buddy system on values (one list of block starts per
  order); `Bitmap` is the packed pair bitmap; `Buddy.BuddyAllocator` is the allocator with its
  in-place lists and bitmap, proved against `BuddySpec`; `BuddyRuns` covers whole runs.
- **Slab caches and global heap.** `Slab` is one cache on values, `SlabCache.SCache` the cache with
  headers and links written into pages. `Heap` composes eight caches with the frame allocator,
  `GlobalHeap.SlubAllocator` is the in-place version, `HeapExtents` says what every byte is used for,
  `HeapRuns` covers runs, and `HeapAlignment` states when a requested alignment is honoured.
- **Boot allocator.** `BootRanges` and `BootRuns` are the range list on values, measured against the
  set of free bytes; `BootAllocator.BootInfoFrameAllocator` is the fixed array. `HandOff` feeds its
  frames to the heap and follows memory from the memory map to live regions.
- **Loader and scheduler.** `Elf` reads a file and loads it into an address space; `Scheduler` and
  `Switch` are the task switch, from register pushes to whole runs; `UserTask` makes a task of a file.
- `Bits`, `Blocks` and `Seqs` hold the facts about bit operations, power-of-two blocks and lists.

Each class method is proved equal to a function on values, and the theorems are about those
functions, so they hold of the in-place code.

## What the code does not do

Where a property one would expect fails, the code is modelled as it is and the exact limit is proved.

- `alloc` ignores the requested alignment. At every memory offset it is honoured in all heap states if
  and only if it does not exceed the block set aside for the size (`AlignmentExact`).
- A cache draws a page before it looks whether an object fits. The page is lost, in neither the free
  lists nor the cache, if and only if the first slot would end past the page (`PageLostExactly`), as it
  does for objects of 4096 bytes (`PageSizedObjects`). All eight classes have room (`ClassesFit`).
- `init` keeps the first 256 usable regions that hold a whole page and drops the rest. All whole pages
  of usable memory are collected if and only if there are at most 256 such regions
  (`CollectsAllExactly`).
- `free_contiguous` inserts before it coalesces, so it panics exactly when the array is full
  (`FreeCorrect`), also where merging would have made room. From a coalesced list with room, giving back
  the block just taken panics if and only if the split filled the array (`SplitThatFills`), as it does
  for a page taken from a memory map of 255 regions (`FreeMayPanic`).
- Initialisation leaves touching ranges apart, so allocation may miss a free run
  (`StartMayHideRuns`). It does so exactly when the block fits no range of the list as it stands and fits
  one of the merged list (`AllocateMissesExactly`).
- `allocate_contiguous_aligned` masks with the alignment minus one. For alignments up to half of the
  physical address range, results are multiples of it if and only if it is a power of two
  (`AlignmentHonouredExactly`).
- The boot allocator goes on counting the frames it handed over as free. A block of it shares a page
  with the heap if and only if one of its pages was free at hand-off and lies below one gigabyte
  (`SharesIffHandedOver`). For a power-of-two alignment with room in the array, the next block does so
  if and only if such a page lies at the lowest place where the block fits (`LateBlocksClash`); as long
  as nothing was freed since the hand-off, if and only if the block fits somewhere below one gigabyte
  (`LateAllocationsClash`). `LateClashExample` is a block that clashes, `LateReuseExample` one below one
  gigabyte that does not, because it was taken before the hand-off and freed after it.
- A file with a program header out of bounds, a page that two segments, the stack or an earlier mapping
  need, a missing byte or a segment at a non-canonical address never loads (`RefusedNeverLoads`); every
  other file with a good header loads unless frames run out (`LoadElf`).
- The first task enters user mode with the kernel's general-purpose registers. Its first register file
  is the context it was created with if and only if fifteen registers happen to agree
  (`CleanStartExact`), and for a context made by `new_user` they never do
  (`NewUserNeverStartsClean`).
- A second `start` keeps one running task only if the first task is current (`RestartKeepsOneRunning`).
- The comment on the pair bitmap says that a set bit means one buddy free and one used, and a clear bit
  both free or both used. What the bit means is that exactly one buddy is wholly free
  (`BitMeansOneWholeBuddy`). The comment holds of a pair if and only if neither buddy is partly free
  (`CommentHoldsExactly`); with page 0 alone free it fails for the first pair of two-page blocks
  (`CommentFails`).

## Hypotheses

- The pair bitmap starts zeroed and the heap is initialised once; the memory offset is a positive
  multiple of the page size.
- Callers free only what they hold, with the size or order it was allocated with; fed frames are
  neither free nor held.
- The 64-bit sums that the boot allocator forms up to the first range that serves a request, or for a
  usable region of the memory map, and the loader for a file, do not overflow (`NoOverflow` in
  `BootRuns`, `RegionFits`, `NoOverflow` in `Elf`). Physical addresses have at most 52 bits.
- The program headers of a loaded file lie at addresses aligned for their type.
- When the first task's frame is pushed, its five words are in general-purpose registers
  (`OperandsLoaded`).
- The mapper refuses an already mapped page and the frame source hands out distinct frames. How many
  frames the page tables take, and whether they run out, is left open.

## Model

| member | source | states |
|---|---|---|
| Blocks.BuddyFacts | kernel/src/mm/buddy.rs:77-86 | flipping the order's bit pairs each aligned block with exactly one other: buddies are mutual, distinct, and the lower one starts the merged block |
| Buddy.BuddyAllocator.BuddyAddress | kernel/src/mm/buddy.rs:77-86 | the XOR on the relative byte address of a page-aligned pointer gives the address of its buddy page |
| Bitmap.BitIndexInjective | kernel/src/mm/buddy.rs:53-64 | every index is inside the bitmap, and two (page, order) pairs share a bit if and only if they name the same buddy pair of the same order |
| Buddy.BuddyAllocator.GetBitIndex | kernel/src/mm/buddy.rs:53-64 | the summing loop yields MAX_PAGES minus MAX_PAGES shifted by the order, plus the pair number |
| Bitmap.FlipOne | kernel/src/mm/buddy.rs:68-75 | toggling a bit changes that bit and no other of the whole bitmap |
| Buddy.BuddyAllocator.ToggleBit | kernel/src/mm/buddy.rs:68-75 | flips the one bit of the pair and returns its new value |
| Bitmap.FlipAgrees | kernel/src/mm/buddy.rs:103-126 | if a list change turns whether one pair is listed and touches no other pair, flipping that pair's bit keeps bitmap and lists in agreement at all orders |
| Bitmap.BitMeansOneWholeBuddy | kernel/src/mm/buddy.rs:24-27 | a pair's bit is set if and only if exactly one of the two buddies is wholly free |
| Bitmap.FreePagesDetermineBits | kernel/src/mm/buddy.rs:24-27 | two states with the same free pages have the same bit for every pair, whatever their histories |
| Bitmap.CommentHoldsExactly | kernel/src/mm/buddy.rs:24-27 | a pair's bit is what the comment says, set for one free and one used, clear for both free or both used, if and only if neither buddy is partly free |
| Bitmap.CommentFails | kernel/src/mm/buddy.rs:24-27 | fed page 0 alone, the allocator keeps a clear bit for two blocks of which one is partly free and the other used |
| Buddy.PairStepBits | kernel/src/mm/buddy.rs:155-169 | before a block is freed, its pair's bit is set if and only if its buddy is on that order's list, so the merge removes a real node |
| Buddy.PushAgrees | kernel/src/mm/buddy.rs:190-202 | the pointer writes of a push represent exactly the list with the block in front, at every order |
| Buddy.RemoveAgrees | kernel/src/mm/buddy.rs:204-222 | the pointer writes of a removal, at head, middle or tail, represent exactly the list without that node, at every order |
| Buddy.BuddyAllocator.constructor | kernel/src/mm/buddy.rs:39-49 | an allocator with empty lists and a zeroed bitmap satisfies the global invariant |
| Buddy.BuddyAllocator.PushFree | kernel/src/mm/buddy.rs:190-202 | puts the block at the front of its order's list and leaves the other lists alone |
| Buddy.BuddyAllocator.RemoveFrame | kernel/src/mm/buddy.rs:204-222 | takes the node out of its order's list and leaves the other lists alone |
| Buddy.BuddyAllocator.Alloc | kernel/src/mm/buddy.rs:93-134 | keeps links, bitmap and lists in agreement and coalesced, and returns and leaves exactly what the value-level allocation says |
| Buddy.BuddyAllocator.Dealloc | kernel/src/mm/buddy.rs:140-175 | keeps the global invariant; out-of-range pointers change nothing, others give exactly the value-level release |
| Buddy.BuddyAllocator.AddFrame | kernel/src/mm/buddy.rs:182-188 | a frame in range that is not free is released as an order-0 block; one out of range is ignored |
| Buddy.BuddyAllocator.AllocateFrame | kernel/src/mm/buddy.rs:227-234 | an order-0 allocation, returned as a physical address |
| BuddySpec.ReleaseCorrect | kernel/src/mm/buddy.rs:140-175 | releasing any block with no free page keeps lists aligned, disjoint and merged, and adds exactly its pages to the free pages |
| BuddySpec.ReleaseShape | kernel/src/mm/buddy.rs:140-175 | the released block absorbs the listed buddies of each order up to the first that is missing, goes to the front of that list, and no other list changes |
| BuddySpec.TakeCorrect | kernel/src/mm/buddy.rs:93-134 | allocation keeps the invariant, removes exactly an aligned run of free pages, and fails only when every list of a sufficient order is empty |
| BuddySpec.TakeShape | kernel/src/mm/buddy.rs:98-131 | the block comes from the front of the smallest stocked order; exactly its upper half is listed at each order split through, and no other list changes |
| BuddySpec.TakeComplete | kernel/src/mm/buddy.rs:93-134 | allocation of an order fails if and only if no aligned run of that many free pages exists |
| BuddySpec.RunsAreCoalesced | kernel/src/mm/buddy.rs:162-174 | every aligned run of free pages lies inside a single listed block |
| BuddySpec.CanonicalForm | kernel/src/mm/buddy.rs:93-175 | the listed blocks are exactly the maximal aligned runs of the free pages |
| BuddySpec.FreePagesDetermineBlocks | kernel/src/mm/buddy.rs:93-175 | two states list the same blocks if and only if they have the same free pages |
| BuddySpec.TakeThenRelease | kernel/src/mm/buddy.rs:93-175 | freeing a block right after allocating it restores the free blocks, whatever it took to split one off |
| BuddySpec.ListedBlocksDisjoint | kernel/src/mm/buddy.rs:93-188 | two different listed blocks, of any orders, share no page |
| BuddyRuns.RunInvariant | kernel/src/mm/buddy.rs:93-188 | over any run of feeding, allocating and freeing, free and held blocks are aligned and pairwise disjoint, and together they are exactly the frames fed in |
| BuddyRuns.RunsConverge | kernel/src/mm/buddy.rs:93-188 | two runs that fed the same frames and leave the same pages held end with the same free blocks |
| Slab.ObjectStartOf | kernel/src/mm/slub.rs:76-91 | for power-of-two sizes from 16 the first slot starts at 32 bytes or one object size into the page |
| Slab.PageBaseIsMask | kernel/src/mm/slub.rs:143 | masking off the low 12 bits of an address is rounding it down to its page |
| Slab.SlotPage | kernel/src/mm/slub.rs:104-116 | every slot lies in its page, past the header, and leads back to that page |
| Slab.AllocCorrect | kernel/src/mm/slub.rs:45-139 | an allocation makes exactly one object live that was not, keeps the cache invariant, draws a page only if no slab is partial, and fails only if there is none to draw or nothing fits it |
| Slab.DeallocCorrect | kernel/src/mm/slub.rs:141-166 | giving back a live object makes exactly that object free, and the page goes back if and only if no other object of it is live |
| Slab.AllocServesFirst | kernel/src/mm/slub.rs:45-139 | served is the first free object of the first partial slab, or else the first slot of the page drawn; every other slab is unchanged, and a slab leaves the list only when it is full |
| Slab.AllocThenDealloc | kernel/src/mm/slub.rs:45-166 | giving back the object just served restores the cache exactly, and returns the page exactly if it was drawn for it |
| Slab.DeallocThenAlloc | kernel/src/mm/slub.rs:45-166 | an object given back to a slab that stays and is first in the list is the next one served, and serving it restores the cache exactly |
| Slab.DeallocShape | kernel/src/mm/slub.rs:141-182 | giving back leaves every other slab and the order of the list alone; an emptied slab leaves its place, one that was full goes to the front |
| Slab.ServesInAddressOrder | kernel/src/mm/slub.rs:104-138 | a fresh page serves its slots in address order until it is full |
| Slab.InUseCountsLive | kernel/src/mm/slub.rs:12-20 | free and live slots partition a slab, and the counter is the number of live ones |
| Slab.PartialIsExact | kernel/src/mm/slub.rs:130-134 | the partial list holds exactly the slabs that are neither empty nor full |
| Slab.HeldPagesAreUsed | kernel/src/mm/slub.rs:153-157 | a cache holds a page if and only if one of its live objects lies in it |
| Slab.LiveApart | kernel/src/mm/slub.rs:104-116 | two live objects of a cache never overlap, stay inside their page and off its header |
| Slab.CapacityExact | kernel/src/mm/slub.rs:93-102 | a page has room for an object if and only if the first slot ends inside it |
| Slab.DrawnPageIsKept | kernel/src/mm/slub.rs:71-102 | a page drawn from the provider ends up in the cache if and only if the first slot ends inside it; otherwise the allocation fails and the cache is unchanged |
| Slab.PageSizedObjects | kernel/src/mm/slub.rs:78-102 | objects of 4096 bytes start at the end of the page, so none fits |
| PageProvider.PageLostExactly | kernel/src/mm/slub.rs:71-102 | a page that was free is in neither the free lists nor the cache after a draw if and only if the object size does not fit |
| SlabCache.SCache.constructor | kernel/src/mm/slub.rs:38-43 | a new cache is empty and valid |
| SlabCache.SCache.Alloc | kernel/src/mm/slub.rs:45-139 | headers, free lists and the partial chain in memory represent exactly the value-level result, a partial slab always has a free object, and only this cache's pages are written |
| SlabCache.SCache.TakeFromPartial | kernel/src/mm/slub.rs:46-69 | pops the first free object of the first partial slab, unlinking the slab when it was its last; the branch for a partial slab without free objects is never reached |
| SlabCache.SCache.InitSlab | kernel/src/mm/slub.rs:104-138 | lays a fresh page out as a slab with its first object handed out |
| SlabCache.SCache.BuildFreeList | kernel/src/mm/slub.rs:104-116 | the backward loop links all slots in address order and writes nothing outside the page |
| SlabCache.SCache.Dealloc | kernel/src/mm/slub.rs:141-166 | memory represents exactly the value-level result, and an emptied page goes back to the frame allocator |
| SlabCache.SCache.RemoveSlabFromPartial | kernel/src/mm/slub.rs:168-182 | the chain walk removes the slab if it is on the partial list and changes only next-slab words |
| SlabCache.OtherCacheUndisturbed | kernel/src/mm/slub.rs:45-182 | what one cache writes leaves the representation of a cache with other pages intact |
| Heap.ClassIsTightest | kernel/src/mm/allocator.rs:68-85 | the chosen class is the smallest that holds the request |
| Heap.ClassesFit | kernel/src/mm/allocator.rs:33-46 | each of the eight classes is a power of two with room for at least one object |
| Heap.AllocSmall | kernel/src/mm/allocator.rs:68-94 | a slab request keeps the heap invariant, returns an address that was not live, conserves pages, and fails only when its cache has no partial slab and no page is free |
| Heap.AllocLarge | kernel/src/mm/allocator.rs:53-66 | a request above 2048 bytes takes a page that was free and that no cache, region or frame held, leaves every other page as it was, and conserves pages |
| Heap.DeallocSmall | kernel/src/mm/allocator.rs:106-129 | freeing a slab-sized region with its own size is always possible, keeps the invariant and conserves pages |
| Heap.DeallocLarge | kernel/src/mm/allocator.rs:96-104 | freeing a whole-page region with its own size is always possible, keeps the invariant and conserves pages |
| Heap.AllocChangesOnly | kernel/src/mm/allocator.rs:50-94 | a request records exactly its address with the size asked for; a whole page is the frame allocator's next single page and touches no cache, a smaller request is served by the cache of its class and touches no other |
| Heap.DeallocChangesOnly | kernel/src/mm/allocator.rs:96-129 | a free forgets exactly its address; a whole page goes back to the frame allocator and touches no cache, a smaller region goes back to the cache of its class and touches no other |
| Heap.AllocFrameStep | kernel/src/mm/allocator.rs:163-172 | a bare frame is a page that was free and that no cache, region or frame held; every other page stays as it was |
| Heap.RegionsApart | kernel/src/mm/allocator.rs:50-129 | two live regions of any sizes never overlap |
| Heap.RegionInPage | kernel/src/mm/allocator.rs:50-94 | a live region holds at least the bytes asked for, inside one page in use, held by the path its size leads to |
| Heap.RegionsOutsideFreeAndFrames | kernel/src/mm/allocator.rs:50-172 | every byte of a live region lies in one page, which is neither free nor a bare frame |
| HeapExtents.ExtentsApart | kernel/src/mm/slub.rs:12-25 | no byte has two uses: live regions, slab headers, free slots, free blocks and frames are pairwise disjoint |
| HeapExtents.RecordsFit | kernel/src/mm/buddy.rs:33-36 | the link word of a free object and the two links of a free block lie inside the slot or block they describe |
| HeapRuns.StepInv | kernel/src/mm/allocator.rs:50-172 | every legal request, free, frame request or feed keeps the invariant and accounts for exactly the same pages plus those fed |
| HeapRuns.RunSafety | kernel/src/mm/allocator.rs:50-172 | in every state any run reaches, a live region overlaps no other region, slab header, free slot, free block or frame, is large enough, lies inside one used page, and is live in exactly the cache its size will be freed to |
| HeapRuns.RunConservesPages | kernel/src/mm/allocator.rs:12-24 | over any run the heap accounts for exactly the pages it had and those fed in |
| HeapRuns.LiveRegionsDetermineHeap | kernel/src/mm/slub.rs:141-182 | two heaps over the same pages with the same live regions and frames hold the same slab pages and free blocks |
| HeapRuns.RunRestoresBlocks | kernel/src/mm/allocator.rs:50-129 | a run that feeds nothing in and ends with the live regions and frames it began with restores every free block |
| HeapRuns.AllocThenFree | kernel/src/mm/allocator.rs:50-129 | freeing what was just allocated restores every cache exactly, the live regions and every free block |
| HeapRuns.DrainRestoresFed | kernel/src/mm/slub.rs:141-182 | freeing every live region in any order is legal, empties every cache, and leaves exactly the maximal aligned runs of the pages the heap accounts for, less the bare frames |
| HeapRuns.RequestFailsExactly | kernel/src/mm/allocator.rs:50-94 | a request fails if and only if it exceeds a page, or no page is free and its cache has no partial slab; a failure changes nothing |
| HeapRuns.FrameRequestExact | kernel/src/mm/allocator.rs:163-172 | a frame request fails if and only if no page is free, and then changes nothing; a success takes the frame allocator's next single page, adds exactly it to the frames and keeps live regions and caches |
| HeapAlignment.AlignmentExact | kernel/src/mm/allocator.rs:50-94 | at every memory offset a power-of-two alignment is met in all heap states if and only if it is at most the block set aside for the size, hence whenever it is at most the size |
| GlobalHeap.SlubAllocator.constructor | kernel/src/mm/allocator.rs:32-47 | eight empty caches of the class sizes over no frame allocator |
| GlobalHeap.SlubAllocator.InitHeap | kernel/src/mm/allocator.rs:136-147 | the first initialisation gives the empty heap at that offset |
| GlobalHeap.SlubAllocator.Alloc | kernel/src/mm/allocator.rs:50-94 | null before initialisation; after it, result and heap are exactly the value-level allocation, whatever the alignment |
| GlobalHeap.SlubAllocator.Dealloc | kernel/src/mm/allocator.rs:96-129 | nothing before initialisation; after it, the heap is exactly the value-level deallocation |
| GlobalHeap.SlubAllocator.AddFrame | kernel/src/mm/allocator.rs:154-159 | feeds a page the heap does not account for |
| GlobalHeap.SlubAllocator.AllocateFrame | kernel/src/mm/allocator.rs:163-172 | hands out a free page as a physical address and records it as held |
| BootRanges.InsertCorrect | kernel/src/mm/memory.rs:311-332 | inserting a range that overlaps no other keeps the list sorted, aligned and disjoint, and adds exactly its bytes |
| BootRanges.CoalesceCorrect | kernel/src/mm/memory.rs:335-351 | coalescing keeps the free bytes and their count and leaves no two ranges touching |
| BootRanges.CoalescedIsUnique | kernel/src/mm/memory.rs:335-351 | a coalesced list is determined by its set of bytes |
| BootRanges.RunInOneRange | kernel/src/mm/memory.rs:335-351 | in a coalesced list every run of free bytes lies inside one range |
| BootRanges.AlignUpCorrect | kernel/src/mm/memory.rs:223-224 | the mask expression on 64-bit words is the least multiple of a power-of-two alignment not below the start |
| BootRanges.CarveCorrect | kernel/src/mm/memory.rs:226-253 | carving a block out of a range removes exactly its bytes and keeps the list valid and, if it was, coalesced |
| BootRuns.AllocateCorrect | kernel/src/mm/memory.rs:208-260 | for every alignment allocation keeps the run invariant, returns a page-aligned free block and removes exactly its bytes, and never needs more than the array holds; a power-of-two alignment is honoured |
| BootRuns.AllocateLowest | kernel/src/mm/memory.rs:219-260 | for a power-of-two alignment, with room in the array, the result is the lowest aligned address whose block fits one range, and there is none if and only if no such address exists |
| BootRuns.AllocateFirst | kernel/src/mm/memory.rs:208-260 | for every alignment and a list of any length, the result is the rounded start of the first range in which the block there leaves at most one piece or the array has room, none if and only if there is no such range; what is left takes the range's place and the others stay |
| BootRuns.FullArrayFailsExactly | kernel/src/mm/memory.rs:230-240 | with 256 ranges a request at a power-of-two alignment fails if and only if the lowest fit of every range would leave two pieces |
| BootRuns.AllocateComplete | kernel/src/mm/memory.rs:208-260 | in a coalesced state with room a request at a power-of-two alignment fails if and only if no aligned run of that many free bytes exists |
| BootRuns.AllocateMissesExactly | kernel/src/mm/memory.rs:208-260 | in any state with room an aligned free run exists if and only if the merged list serves the request; allocation misses one exactly when the block fits no range of the list as it stands and fits one of the merged list |
| BootRuns.AlignmentHonouredExactly | kernel/src/mm/memory.rs:223-227 | for alignments up to half of the physical address range, every result is a multiple of the alignment if and only if the alignment is a power of two |
| BootRuns.FreeCorrect | kernel/src/mm/memory.rs:274-289 | a legal free panics if and only if it frees something and the array is full, never saturates the counter, and otherwise adds exactly its bytes and leaves the list coalesced; freeing nothing changes nothing |
| BootRuns.AllocateThenFree | kernel/src/mm/memory.rs:208-289 | from a coalesced state, putting back what was just allocated and merging gives the old ranges; the free restores the state exactly, or panics if the split filled the array |
| BootAllocator.SplitThatFills | kernel/src/mm/memory.rs:208-315 | from a coalesced list with room, giving back the block just taken panics, although merging would have made room, if and only if the split filled the array |
| BootAllocator.FreeMayPanic | kernel/src/mm/memory.rs:135-315 | so it is for a page taken from what initialisation makes of a sound memory map of 255 regions |
| BootRuns.RunInvariant | kernel/src/mm/memory.rs:208-332 | over any run ranges stay sorted, page-aligned, non-empty and disjoint with lengths adding up to total minus allocated, and are coalesced from the first free on |
| BootRuns.RunsConverge | kernel/src/mm/memory.rs:208-351 | two runs from a coalesced state that leave the same bytes free end in the same state |
| BootRuns.RunConservesBytes | kernel/src/mm/memory.rs:208-289 | over any run the bytes callers hold and the free bytes are exactly the memory the allocator was given, and share nothing |
| BootAllocator.SortRangesSorted | kernel/src/mm/memory.rs:155-164 | insertion sort orders the ranges by start and keeps exactly the same ranges |
| BootAllocator.InitialInv | kernel/src/mm/memory.rs:135-172 | from a sound memory map initialisation establishes the run invariant over exactly the bytes of the collected page-aligned regions |
| BootAllocator.WholePagesByMask | kernel/src/mm/memory.rs:142-145 | the two mask expressions round a usable region to its whole pages |
| BootAllocator.CollectedIsUsable | kernel/src/mm/memory.rs:140-153 | nothing outside the usable regions of a sound memory map is collected |
| BootAllocator.CollectsAllExactly | kernel/src/mm/memory.rs:140-153 | every whole page of usable memory is collected if and only if at most 256 regions hold one |
| BootAllocator.CollectIsFirst | kernel/src/mm/memory.rs:140-153 | collected are the first regions with a whole page, in memory-map order, as many as there is room for |
| BootAllocator.StartFrom | kernel/src/mm/memory.rs:135-172 | every valid list of ranges in physical memory is what initialisation makes of some sound memory map |
| BootAllocator.StartMayHideRuns | kernel/src/mm/memory.rs:140-164 | a sound memory map with two touching usable pages leaves a free two-page run that the first allocation does not find |
| BootAllocator.BootInfoFrameAllocator.Init | kernel/src/mm/memory.rs:135-172 | the array holds the whole pages of the first 256 usable regions, sorted, with their total length |
| BootAllocator.BootInfoFrameAllocator.RemoveRange | kernel/src/mm/memory.rs:302-308 | the shift loop removes exactly the range at the index |
| BootAllocator.BootInfoFrameAllocator.InsertRangeSorted | kernel/src/mm/memory.rs:311-332 | panics exactly when full, otherwise inserts before the first range that starts higher |
| BootAllocator.BootInfoFrameAllocator.CoalesceRanges | kernel/src/mm/memory.rs:335-351 | the in-place loop gives exactly the coalesced list |
| BootAllocator.BootInfoFrameAllocator.FindFit | kernel/src/mm/memory.rs:219-240 | the scan finds the first range that fits and whose split has room |
| BootAllocator.BootInfoFrameAllocator.AllocateContiguousAligned | kernel/src/mm/memory.rs:208-260 | for every count and alignment for which the sums formed up to the first fit stay in 64 bits, result and state are exactly the value-level allocation, and reinserting the pieces never panics |
| BootAllocator.BootInfoFrameAllocator.FreeContiguous | kernel/src/mm/memory.rs:274-289 | result and state are exactly the value-level free, panic included |
| BootAllocator.BootInfoFrameAllocator.FreeMemory | kernel/src/mm/memory.rs:175-177 | total minus allocated is the number of free bytes |
| HandOff.UsableFramesExact | kernel/src/mm/memory.rs:190-198 | the frame iterator lists every free page exactly once, ascending, and nothing else |
| HandOff.FeedOrderIrrelevant | kernel/src/main.rs:69-75 | feeding the same frames in another order gives the same free blocks |
| HandOff.HandOffExact | kernel/src/main.rs:69-75 | after feeding, the free blocks are exactly the maximal aligned runs of the boot allocator's free pages below one gigabyte |
| HandOff.FeedHeap | kernel/src/main.rs:66-75 | the feeding loop reaches that state on the in-place heap |
| HandOff.LiveBytesAreUsable | kernel/src/main.rs:37-75 | from a sound memory map, through any boot run, the hand-off and any heap run that feeds nothing more in, every byte of every live region and frame is usable memory below one gigabyte that no block handed out at boot covers |
| HandOff.SharesIffHandedOver | kernel/src/main.rs:69-111 | any block shares a page with the heap if and only if one of its pages was free at hand-off and lies below one gigabyte |
| HandOff.LateBlocksClash | kernel/src/main.rs:69-111 | after any boot events since the hand-off, frees included, the next block at a power-of-two alignment with room shares a page with the heap if and only if such a page lies at the lowest place where the block fits |
| HandOff.LateAllocationsClash | kernel/src/main.rs:69-111 | if only allocations happened since the hand-off, the next such block shares a page with the heap if and only if the block fits somewhere below one gigabyte |
| HandOff.LateClashExample | kernel/src/main.rs:69-111 | with one usable page at address 0 the page handed over is the next the boot allocator hands out |
| HandOff.LateReuseExample | kernel/src/main.rs:69-111 | the same page, taken before the hand-off and freed after it, is handed out again without sharing a page with the heap |
| Elf.ProgramHeaderRoundTrip | kernel/src/tasks/elf.rs:78-88 | a program header encoded field by field in the order of the ELF-64 structure is read back as written, wherever it lies in the file |
| Elf.HeaderRoundTrip | kernel/src/tasks/elf.rs:48-63 | entry, table offset, entry size and count of an encoded ELF-64 file header are read back as written, and magic and class are its identification bytes |
| Elf.FileIsRead | kernel/src/tasks/elf.rs:60-83 | in a file of the format the loader reads every program header of the table in turn, and takes as loadable exactly those of type 1 |
| Elf.SegmentPagesExact | kernel/src/tasks/elf.rs:109-114 | the pages of a segment are exactly those that hold a byte of its memory; one without memory has at most the page it starts in the middle of |
| Elf.CanonicalExact | kernel/src/tasks/elf.rs:116-119 | canonical are exactly the words whose upper 17 bits are equal |
| Elf.CopyGivesImage | kernel/src/tasks/elf.rs:127-165 | zeroing a page and copying the overlap gives, byte by byte, file bytes inside the segment's file part and zeros elsewhere |
| Elf.FillPage | kernel/src/tasks/elf.rs:132-165 | yields the page's image, and panics if and only if the file lacks a byte the segment keeps in this page |
| Elf.AddressSpace.MapUserPage | kernel/src/mm/user.rs:24-48 | a success maps one new page to a frame nobody else has; an already mapped page or a missing frame is an error that maps nothing |
| Elf.LoadSegment | kernel/src/tasks/elf.rs:109-166 | a success adds exactly the segment's pages with their images, all of them new, and the file holds every byte of them; a panic only when the file lacks one of its bytes or one of its pages is not canonical; in any case earlier pages keep their bytes |
| Elf.LoadSegments | kernel/src/tasks/elf.rs:71-168 | a success leaves every loadable segment in place, no two sharing a page, and nothing else mapped; a failure stops at the first bad header, with every earlier segment in place, and its kind is that header's fault |
| Elf.MapStack | kernel/src/tasks/elf.rs:170-199 | a success adds exactly the sixteen stack pages, zeroed and new |
| Elf.LoadElf | kernel/src/tasks/elf.rs:37-207 | each header error exactly when its condition holds; a mapping error only when frames ran out or a page is needed twice, a panic only when the file is too short or a segment has a non-canonical page; a success returns the entry point and stack top with the whole image in place, and a file that is not refused always loads while frames last; a failure stops at the first bad header or at the stack; earlier pages are kept in every outcome |
| Elf.LoadedImage | kernel/src/tasks/elf.rs:109-166 | in a loaded image every byte of every page of every loadable segment is the file's inside the segment's file part and zero elsewhere |
| Elf.SegmentInMemory | kernel/src/tasks/elf.rs:109-166 | for every loadable segment the first filesz bytes of its memory are the file's and the rest up to memsz are zero |
| Elf.FileInMemory | kernel/src/tasks/elf.rs:71-168 | for a file of the format, every byte of every type-1 segment's memory is the file's up to filesz and zero after it |
| Elf.PaddingExact | kernel/src/tasks/elf.rs:127-165 | outside the segment's memory the bytes of its pages are zero when filesz is at most memsz; otherwise those the file part covers are the file's and the rest zero |
| Elf.RefusedNeverLoads | kernel/src/tasks/elf.rs:71-150 | a file with a program header out of bounds, a page needed twice, a missing byte or a segment on a non-canonical page never loads |
| Scheduler.TickIsInvisible | kernel/src/tasks/switch.rs:19-68 | a tick moves to the next task, keeps exactly one running, and leaves every task's register file as it was |
| Scheduler.TickExact | kernel/src/tasks/switch.rs:19-68 | whatever the states of the tasks, a tick changes nothing if the scheduler is not started or has no other task; else it hands over to the next task in turn, saves only the preempted task's context, and changes no register file, id or other state |
| Scheduler.TicksBeforeStartAreInvisible | kernel/src/tasks/switch.rs:28-39 | before the start, over any run, ticks leave no trace: the registers are those kernel code left, and the tasks those added, in order |
| Scheduler.StartKeepsTasks | kernel/src/tasks/scheduler.rs:32-37 | a start changes the first task's state and no id, no context and no other state |
| Scheduler.StartUp | kernel/src/main.rs:148-157 | from a new scheduler, whatever ticks come between, adding ready tasks and starting launches exactly those tasks in order with their ids and contexts, the first of them current |
| Scheduler.StartLaunches | kernel/src/tasks/scheduler.rs:32-37 | the first start on ready tasks leaves exactly the first running |
| Scheduler.RestartKeepsOneRunning | kernel/src/tasks/scheduler.rs:32-37 | a repeated start keeps one running task if and only if the first is current |
| Scheduler.StepKeepsLaunched | kernel/src/tasks/scheduler.rs:22-100 | each event touches one register file at most: the current task's on a user step, none on a tick, a new one on an addition |
| Scheduler.TasksAreIsolated | kernel/src/tasks/switch.rs:19-118 | over any interleaving of user code, ticks and additions every task, there from the start or added on the way, finds at each step exactly the registers it left at its previous one, and at its first those it began the run with or was added with |
| Scheduler.SavedContextIsCurrent | kernel/src/tasks/switch.rs:47-62 | after any run the CPU holds the current task's last registers and every other task's context holds what it had when last preempted or created |
| Scheduler.CurrentAfterRun | kernel/src/tasks/scheduler.rs:82-100 | with a fixed set of tasks the current one is the starting one advanced by the number of ticks, modulo the number of tasks |
| Scheduler.RoundRobinIsFair | kernel/src/tasks/scheduler.rs:82-100 | in any run with as many ticks as tasks each task becomes current after exactly one of the ticks |
| Switch.PushesMatchLayout | kernel/src/tasks/switch.rs:75-97 | the pushes of the CPU and the entry code build exactly the memory layout of a saved context |
| Switch.PopsMatchLayout | kernel/src/tasks/switch.rs:99-118 | the fifteen pops and the interrupt return load exactly the context at the low end of the stack, whatever the registers held |
| Switch.LayoutRoundTrip | kernel/src/tasks/task.rs:17-43 | reading a laid-out context back gives it unchanged, and conversely |
| Switch.Kernel.constructor | kernel/src/tasks/scheduler.rs:13-19 | a new scheduler has no tasks and is not initialised |
| Switch.Kernel.Add | kernel/src/tasks/scheduler.rs:22-24 | appends the task |
| Switch.Kernel.Start | kernel/src/tasks/scheduler.rs:32-37 | marks the first task running and the scheduler initialised, unless there are no tasks |
| Switch.Kernel.ScheduleNext | kernel/src/tasks/scheduler.rs:82-100 | hands over to the next task in turn and reports the two contexts to exchange |
| Switch.Kernel.TimerTick | kernel/src/tasks/switch.rs:19-68 | the in-place exchange of the stack frame and the saved contexts is exactly the value-level tick; before the start it changes nothing |
| Switch.Kernel.TimerInterrupt | kernel/src/tasks/switch.rs:74-118 | the pushes, the tick, the pops and the interrupt return together are exactly the value-level tick on the CPU's registers; before the start it changes nothing |
| Switch.LaunchLoads | kernel/src/tasks/switch.rs:154-180 | pushing the frame and returning through it loads its five registers and leaves the other fifteen as they were |
| Switch.CleanStartExact | kernel/src/tasks/switch.rs:125-180 | the launched task's register file is the context it was created with if and only if the kernel's fifteen general-purpose registers agree with it |
| Switch.NewUserNeverStartsClean | kernel/src/tasks/task.rs:47-76 | a context made for a new user task never agrees: one register holds a non-zero selector where the context has zero |
| Switch.Kernel.SwitchToFirstTask | kernel/src/tasks/switch.rs:125-180 | panics if and only if there are no tasks; otherwise the pushes and the interrupt return load the frame of the current context and keep the general-purpose registers |
| UserTask.NewUserEnters | kernel/src/tasks/task.rs:47-76 | a new user context enters at the entry point on the given stack, in ring 3 of the given selectors, with only the interrupt flag set and zeros elsewhere |
| UserTask.FromElf | kernel/src/tasks/task.rs:102-130 | a success gives a ready task with the given id that enters the file's entry point on the user stack, with the file loaded; the errors and panics are the loader's |
| UserTask.LaunchEnters | kernel/src/tasks/switch.rs:125-180 | launching such a task continues at that entry point, on that stack, in ring 3, with only the interrupt flag set |

## Left out

- Memory contents are kept as records (block links, slab headers, object links, page bytes), not as one
  byte array; that each record lies in an extent disjoint from every live region is proved on addresses.
- Spin locks and interrupt masking: each allocator call and each tick is one atomic step.
- Huge pages and `allocate_contiguous`, `free_frame`: one-line calls of the modelled operations.
- Page table internals, address translation and page protection flags.
- Task state segment updates, kernel stacks, how task ids are numbered, and floating-point state.
- Frames taken by a failed load: the loader does not undo earlier mappings.
- System calls, drivers, graphics, descriptor tables, build scripts and user programs.
