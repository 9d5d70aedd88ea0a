# Kernel memory, verified

A Dafny model of the memory stack of the kernel and of three smaller cores, with proofs of what they promise.
`dafny verify dfyconfig.toml` checks the whole project.

* **Heap** (`mm/malloc.c` over `mm/kheap.c`). `Bits`, `BinSizes`: 32-bit operators and size classes. `HeapTags`,
  `HeapLists`, `HeapFast`, `HeapIndex`, `HeapMoves`: boundary tags, circular lists, fastbins, bitmap, and how each edit
  of memory words changes what they represent. `HeapState` puts them together, `HeapSteps` and `HeapAlign` relate the
  states of one call, `HeapService` says how a request is served and when it cannot be, `Heap` (module `Allocator`) is
  the allocator itself, `ArenaTheory` says what its state means to a reader of raw memory, and `HeapRun` runs a client
  against it.
* **Virtual memory** (`mm/pmm.c`, `arch/x86cpu/vmm.c`, `mm/vmm.c`). `Pmm` is the frame bitmap. `PageTables` defines
  entries and the flat map from page numbers to frames and flags that two-level tables represent; `Mmu` holds the
  operations on them, `CloneSpace` whole address spaces, `RangeMaps`, `FreeSpace` and `VmmMap` ranges, `Sharing` and
  `Cow` copy-on-write. `KHeap` is `kmorecore` on top of them.
* **Scheduler** (`exec/task.c`): `Task` is the ring and the choice, `Scheduling` what runs of it guarantee.
* **ELF segments** (`exec/elf.c`): `Elf`. **Numbers** (`lib/mp-printf.c`, `lib/stdlib.c`): `Numbers`, and `NumberText`
  on what printed numbers look like and how they are read.

## How the model reads the source

* Heap memory is a sequence of words, the word at byte address `a` in place `a` (only multiples of 4 are addressed); its
  length is the break. Bin headers live in the same words, below the heap, so that list surgery treats them as the
  source does. The ghost maps `cs`, `bins` and `fast` say what the words represent. `Limbo` marks a chunk that is
  tagged free but on no list, between two steps of one call.
* Configuration: 4-byte sizes, 8-byte alignment, MINSIZE 16, heap at 0xF0000000 with 16 MB, default tuning (no top
  pad, trim threshold 256 KB, consolidation threshold 128 KB), and the portable C of `largebin_index`.
* Where independent stores of one step are adjacent in the source, the model may group them: neighbours are unlinked
  before tags are cleared, the fast flag is cleared after the fastbins are drained, the last-remainder victim is taken off
  its list before it is split, and realloc completes the grown chunk before cutting its tail.
* `kmorecore` advances its size before frames are found. When they run out midway the ghost flag `torn` is set: no
  frame is free then, the pages that are mapped stay backed, and nothing is claimed of the arena afterwards.
* Page table frames are read and written directly instead of through temporary windows. An address space is named by
  its directory's frame. A kernel slot's table may be shared by several spaces; statements about other spaces are made for
  pages below the kernel. A result `ok` that is false stands for the source running on without a page table; it means
  that no frame was free, and the contract says what had been done by then.
* The programs whose loads and stores `Cow` follows run in user mode: they need pages that are present and for user
  programs.
* Ticks, frames' initial contents, file contents and whether the trap table can grow are parameters or arbitrary values.

## Where the code and its evident intent differ

The model follows the code; for each difference it holds a counterexample, an exact condition, or both.

* `pmm_first_free` skips the frame after a blocker. `SearchExactly` says on which bitmaps it succeeds and with which
  run. It succeeds on every bitmap that holds a run of the size asked for if and only if the size is 1
  (`CompleteOnlyForOne`, `SearchMisses`). Runs of more than one frame also need set bits after the last frame.
* The doubling loop of memalign does not end above 2^31 (`RoundingEndsExactly`), and its padded size may wrap
  (`PadFitsExactly`). `Memalign` requires what these two lemmas show to be needed.
* Mapping a page of frame 0 with nothing but the cache flag yields an all-zero entry, an unmapped page (`LeafEntry`).
* Mapping one small page into a 4M page that is not present loses its other pages (`FreshPage`).
* The downward search of `vmm_first_free` may step below page 0 and pass its 32-bit guard there: with only page 2
  mapped, two pages wanted below page 3 are found at 0xFFFFF000 (`BelowZero`). `FirstFree` is total and ties the result
  to what the search does. Which bounds keep the search inside them, whatever is mapped, is decided by a recursion on
  the three numbers, `Keeps` (`ExactlyKept`); from page 1, where the callers start, they do if and only if one page is
  asked for or there is room for just one candidate (`ExactlyFromOne`). A mapped last page helps as well (`SafeInside`).
  `vmm_alloc_map` returns the address of a run found below page 0 without mapping anything there (`AllocMap`).
* `vmm_map` takes the new start of an address inside a page from the wrong variable, so that the end comes out as if the
  start were 0; and a range that reaches 4G wraps and is not mapped at all (`CoversAllExactly`).
* Both loops test whether a 4M page fits with an addition that wraps in the last slot (`FitsExactly`): `vmm_unmap` of a
  range that contains the start of that slot goes on from address 0, and so does `vmm_map` if it uses 4M pages there
  (`LastSlotWraps`). `Map` and `Unmap` leave out these ranges.
* The search for free pages counts unmapped pages of the self-map window as free, and `vmm_map` then leaves them alone.
* The inner loop of `vmm_unmap` has no break; the model keeps that.
* Resolving a copy-on-write trap finds the faulting trap itself when it looks for other sharers (`PartnerExclusive`,
  `TwoPartnersBreak`), so isolation is proved for at most one partner per page. A page that was read-only for good can
  be shared as well and then becomes writable, even if a third page reads its frame (`ReadonlyBecomesWritable`,
  `ReadonlyBreaks`). A page that has been resolved keeps its trap flag. When no trap
  can be placed, `vmm_cow_setup` leaves the destination mapped (`Setup`).
* `task_yield` compares 32-bit tick differences (`ElapsedExactly`): a ready task can be overtaken by one with a later
  stamp if and only if it has waited for a full turn of the counter (`NeverLate`, `OvertakenExactly`).
* `strtoull` skips a sign before white space and ignores its value, so that it reads a signed number after spaces as 0
  (`ReadBack`). `strtoll` returns the largest value for some numbers that are too small (`Strtoll`, `JustTooSmall`).
* A number whose digits and zeros fill the buffer loses its sign (`SignWritten`), and zeros reach the width only up to
  the buffer's size (`WidthReached`). `#` takes digits away if the width is just filled (`HashKeepsDigits`,
  `HashLosesDigits`).

## Model

| member | source | states |
|---|---|---|
| BinSizes.LargebinMeaning | mm/malloc.c:2173-2207 | for every size from 256 up the branch-free code yields 32 + 4*m + the two bits of the size below its highest, m being floor(log2(size/256)), capped at 95 |
| BinSizes.IndexMono | mm/malloc.c:2164-2210 | bin_index is monotone over all sizes, across the small/large boundary and the cap |
| BinSizes.HigherBinFits | mm/malloc.c:3590-3602 | a chunk filed in a higher bin than the request's own always fits |
| BinSizes.SmallBinExact | mm/malloc.c:3431-3444 | two chunk sizes in one small bin are equal |
| HeapTags.Take | mm/malloc.c:3508-3513 | taking a freed chunk whole and setting the successor's in-use bit keeps the tiling and every tag |
| HeapTags.Split | mm/malloc.c:4130-4136 | cutting a chunk in use in two keeps the tiling and every tag |
| HeapTags.Free | mm/malloc.c:3781-3806 | clearing the successor's PREV_INUSE and setting the footer turns a chunk in use with no free neighbour into a correctly tagged free one |
| HeapMoves.FuseBoth | mm/malloc.c:3770-3806 | fusing a freed chunk with free neighbours on both sides leaves one correctly tagged chunk in their place |
| HeapMoves.FuseTopPrev | mm/malloc.c:3770-3821 | fusing backward and into top leaves a correctly tagged heap whose top starts at the fused chunk |
| HeapLists.Unlink | mm/malloc.c:2134-2139 | unlink of any member keeps every circular list a circle through exactly its remaining chunks |
| HeapLists.Link | mm/malloc.c:3545-3549 | threading a chunk between two neighbours of a list keeps every list a circle, now through that chunk as well |
| HeapIndex.IndexLink | mm/malloc.c:3517-3549 | a chunk linked into the bin of its own size at a place that respects its neighbours keeps the bin in order and its bitmap bit set |
| HeapState.Unlinked | mm/malloc.c:2134-2139 | unlink keeps the whole allocator state and changes no live payload and no tag |
| HeapState.Stored | mm/malloc.c:1862-1905 | a store to any usable word of a live block, the borrowed footer slot included, leaves the allocator state intact and every other live payload unchanged |
| Allocator.Heap.constructor | mm/malloc.c:2385-2440 | the zeroed static state is a usable heap with nothing allocated |
| Allocator.Heap.MallocInitState | mm/malloc.c:2473-2500 | every bin becomes an empty circle and top the unsorted bin, standing in with size 0 |
| Allocator.Heap.UnlinkChunk | mm/malloc.c:2134-2139 | a binned chunk leaves its list; all other chunks, tags and live payloads are as before |
| Allocator.Heap.Coalesce | mm/malloc.c:3766-3821 | freeing a chunk merges it with both free neighbours into the chunk at the front of the unsorted bin, or into top; all chunks outside that space are as they were, and no live payload changes |
| Allocator.Heap.Free | mm/malloc.c:3717-3865 | exactly the given block stops being live; every other block keeps its place, size and contents, and the full heap invariant holds again; a block no larger than max_fast only changes its own state and is the next hit of its fastbin; any other is merged and queued as by Coalesce, and if 128 KB or more come together no fast chunk is left and top, if it has reached 256 KB, is cut back to at most MINSIZE and a page; the last remainder stays; null is ignored |
| Allocator.Heap.Consolidate | mm/malloc.c:3882-3977 | terminates, leaves no fast chunk and the fast flag clear, and keeps the live set and all live payloads |
| Allocator.Heap.DrainFastbin | mm/malloc.c:3924-3970 | the inner loop empties exactly its own fastbin |
| Allocator.Heap.Systrim | mm/malloc.c:3302-3356 | if it releases memory the break moves back and top stays larger than pad + MINSIZE, by at most a page; otherwise nothing changes and top is no larger than that page allows, for pads larger than top as well; live payloads are kept |
| Allocator.Heap.FindPlace | mm/malloc.c:3517-3541 | the place is the front of a small bin; in a large bin it is the back if no chunk is smaller, and otherwise right behind the chunks that are larger |
| Allocator.Heap.PlaceInBin | mm/malloc.c:3515-3549 | an unlinked chunk is filed in the bin of its size with order and bitmap kept |
| Allocator.Heap.BinScan | mm/malloc.c:3596-3645 | the bitmap scan returns the first non-empty bin at or above the given one, or that there is none, clearing only bits of empty bins |
| Allocator.Heap.DrainStep | mm/malloc.c:3473-3549 | the oldest unsorted chunk is split as last remainder exactly under the source's condition, taken if it is an exact fit, and otherwise moves to the bin of its own size; a chunk is cut exactly if the rest makes a chunk, the rest is unsorted, and is the new last remainder |
| Allocator.Heap.DrainUnsorted | mm/malloc.c:3471-3549 | either splits the last remainder, exactly when the source's condition for it holds at the start, or serves the request by an exact best fit, or empties the unsorted bin with every chunk refiled by size |
| Allocator.Heap.LargeScan | mm/malloc.c:3557-3588 | serves from the request's own large bin by a best fit, or shows that no chunk there is large enough |
| Allocator.Heap.HigherBins | mm/malloc.c:3596-3674 | serves from the bins above the request's own by a best fit, or shows that no binned chunk is large enough; the chunk is cut exactly if the rest makes a chunk, which is unsorted and, for a small request, the new last remainder |
| Allocator.Heap.SearchIndex | mm/malloc.c:3471-3674 | best fit: what the search returns is a smallest chunk that holds the request among all binned and unsorted chunks, except that the last remainder is split exactly when the source's condition for it holds; it fails only if none is large enough; what is cut off and what is then the last remainder is determined |
| Allocator.Heap.FromSmallbin | mm/malloc.c:3431-3444 | the oldest chunk of the small bin is handed out, which is also a smallest chunk that fits |
| Allocator.Heap.FromFastbin | mm/malloc.c:3409-3420 | the head of the request's fastbin is handed out, and null means that fastbin is empty; no payload changes |
| Allocator.Heap.SplitFromTop | mm/malloc.c:3695-3706 | the front of top is handed out and top starts right behind it |
| Allocator.Heap.ExtendArena | mm/malloc.c:3023-3260 | growth extends top in place by whole pages, or founds the arena; on failure every word and top are as before, and either no frame is free or the heap would leave its bounds |
| Allocator.Heap.SysMalloc | mm/malloc.c:2867-3290 | consolidates and retries, or extends top; the outcome is a block that fits the settled state, or an unchanged live set and nothing left to serve from |
| Allocator.Heap.Malloc | mm/malloc.c:3364-3710 | requests out of range return null and change nothing; otherwise null leaves every live block as it was and means that no frame is free, or that no fast chunk is left, no binned chunk is large enough and top cannot be extended so far; success adds one live block of at least the padded size and less than MINSIZE more, changing no other block or payload and keeping the full invariant; the head of the fastbin comes first, then the oldest chunk of the exact small bin, then a best fit among all binned chunks of the state at hand or after consolidation, unless the last remainder is split, which happens exactly under the source's condition, and top only if none of them is large enough; if the break moves, by no more whole pages than needed |
| Allocator.Heap.Realloc | mm/malloc.c:3985-4140 | the block stays where it is if and only if its chunk has the padded size already, or lies before top or a binned chunk and the two are large enough together (or malloc serves the new size right behind it); its size is then the padded one, but for a rest too small for a chunk; otherwise it goes where malloc serves the new size; null means that it could not stay and that nothing is left to serve the new size from, and leaves every block intact; the words up to the smaller size are kept on every path, and no other block changes |
| Allocator.Heap.ResizeBlock | mm/malloc.c:4033-4060 | in place growth into top and over the binned chunk behind is taken exactly where it is possible |
| Allocator.Heap.Relocate | mm/malloc.c:4070-4118 | the move path, including the case that the new chunk is the next one, keeps the old words |
| Allocator.Heap.SplitTail | mm/malloc.c:4120-4138 | what exceeds the request is freed exactly if it makes a chunk, and the kept words are unchanged |
| Allocator.Heap.Memalign | mm/malloc.c:4211-4309 | the block returned is aligned to the rounded alignment, holds at least the request and at most MINSIZE more, and no live block or payload changes; failure leaves the live set as it was and means that the padded request cannot be met |
| Allocator.Heap.GiveLeader | mm/malloc.c:4262-4292 | the chunk is cut at the first aligned spot that leaves room for a chunk before it, which is freed |
| HeapAlign.NextPowerMeaning | mm/malloc.c:4235-4240 | the rounded alignment is a power of two, at least the one asked for and less than twice it |
| HeapAlign.RoundingEndsExactly | mm/malloc.c:4236-4240 | the doubling loop ends if and only if the alignment is at most 2^31; beyond that its 32-bit variable wraps to 0 |
| HeapAlign.PadFitsExactly | mm/malloc.c:4252 | if the padded size fits 32 bits malloc is asked for room enough; if it wraps, for a block too small for the request |
| HeapAlign.AlignSpot | mm/malloc.c:4267-4272 | the masked spot, moved on if need be, is the first aligned one that leaves room for a chunk of at least MINSIZE before it |
| HeapSteps.RequestFits | mm/malloc.c:1976-1994 | a request in range is padded to the least multiple of 8, at least MINSIZE, that holds it and its head word, without wrap-around |
| HeapService.SmallFits | mm/malloc.c:3431-3444 | a chunk of the request's own small bin is a best fit among all binned chunks |
| HeapService.ServedAfter | mm/malloc.c:3471-3710 | when the index has been searched in vain, a block then served from top or after consolidation is a best fit, or comes from top with nothing binned large enough, for the state the call started from |
| HeapService.GrowAmount | mm/malloc.c:3002-3033 | what is asked of kmorecore is refused for size, not asked for, or too little because its 32-bit computation wrapped, only if the request cannot fit between top and the end of the kernel heap |
| Bits.OneBit | mm/malloc.c:4236 | a & (a - 1) is zero exactly for powers of two |
| Bits.AndHigh | mm/malloc.c:4267-4268 | masking with the negated power of two rounds down to its multiples |
| ArenaTheory.WalkReachesTop | mm/malloc.c:2553-2598 | stepping from the base by the size words meets exactly the chunks, then top, and top ends at the break |
| ArenaTheory.BoundaryTags | mm/malloc.c:2603-2681 | PREV_INUSE behind a chunk is clear exactly when the chunk is binned; then its footer equals its size and it touches neither another binned chunk nor top |
| ArenaTheory.NoFreeNeighbours | mm/malloc.c:3882-3977 | once no fast chunk is left, every free chunk is bordered by live chunks on both sides and does not touch top |
| ArenaTheory.BlocksDisjoint | mm/malloc.c:2684-2700 | live blocks are 8-aligned, inside the arena, hold the bytes asked for, and share no byte |
| ArenaTheory.TourMeetsBin | mm/malloc.c:2798-2835 | following fd or bk from a bin's header first returns to it after meeting exactly the chunks of that bin, each once |
| ArenaTheory.IndexAgrees | mm/malloc.c:2798-2835 | a binned chunk is unsorted or in the bin of its own size with its bitmap bit set, and sizes do not grow along fd |
| ArenaTheory.BytesConserved | mm/malloc.c:2741-2853 | the sizes of live, fast and binned chunks plus top add up to the arena |
| ArenaTheory.FreeBytesKept | mm/malloc.c:3882-3977 | any step that keeps the live set and the break, such as consolidation, keeps the total of fast, binned and top bytes |
| ArenaTheory.FreeBytesReturned | mm/malloc.c:3717-3865 | freeing a block returns exactly its bytes, up to what the break moved |
| ArenaTheory.FreeBytesTaken | mm/malloc.c:3364-3710 | allocating takes exactly the bytes of the chunk handed out, up to what the break moved |
| Allocator.SpaceConserved | mm/malloc.c:3100-3290 | live, fast, binned and top bytes together equal sbrked_mem, which equals the size kmorecore keeps, a whole number of pages, and exactly that many consecutive heap pages are mapped, to pairwise different frames, present, writable, cached, global and not for user programs |
| HeapRuns.Client.Resize | mm/malloc.c:3985-4140 | through reallocation every word a client stored below both sizes is still read at its offset; a block that can have the new size where it is always gets it there, and failure means that it could not and that memory is full |
| HeapRuns.Client.Perform | mm/malloc.c:3364-4309 | one operation on any slot is done exactly if it makes sense for what the client holds and memory is not full, which only an allocation finds, only when its request cannot be met, and only when a block to be resized cannot stay where it is; it has exactly its simple meaning for the contents of all slots |
| HeapRuns.Client.Run | mm/malloc.c:3364-4309 | over every run of malloc, memalign, realloc, free and stores, up to the first that finds memory full, every operation that makes sense is done, the heap invariant holds and each block reads as what was stored in it |
| KernelHeap.KHeap.Morecore | mm/kheap.c:25-56 | returns the old break and moves the size by the increment, or refuses out-of-range moves unchanged, or finds no frame free; the pages that grow are backed by frames that were free, the frames of the pages that go are exactly those that become free, new tables are the only other frames taken, and nothing outside the heap range changes; frames that run out midway leave the size ahead of the backed pages |
| KernelHeap.KHeap.Expand | mm/kheap.c:34-40 | exactly the frames behind the new pages and new tables become used, all free before; it stops short only when no frame is free, and then may lose the last frame taken |
| KernelHeap.KHeap.Trim | mm/kheap.c:41-52 | the last pages are unmapped and exactly their frames become free |
| FrameAllocator.MarkedRunUsed | mm/pmm.c:13-25 | marking or clearing a run of frames changes exactly those bits |
| FrameAllocator.BlockerFinds | mm/pmm.c:34-45 | the inner scan, with its full-word shortcut, reports a used frame in the run or that the whole run is free and in bounds |
| FrameAllocator.SearchFinds | mm/pmm.c:27-53 | what is found is a run of free frames inside the bitmap |
| FrameAllocator.FirstFit | mm/pmm.c:27-53 | for one frame the search is exact first fit and fails only when no frame is free |
| FrameAllocator.SearchExactly | mm/pmm.c:27-53 | the search succeeds if and only if some run of that many free frames starts at a frame the search does not skip, and then returns the first of them |
| FrameAllocator.FailsOnlyWhenTight | mm/pmm.c:27-53 | for sz frames failure implies that no sz + 1 consecutive frames are free |
| FrameAllocator.SearchMisses | mm/pmm.c:45-49 | for every size above one, a bitmap with such a run of free frames on which the search finds nothing, as the frame after a blocker is skipped |
| FrameAllocator.CompleteOnlyForOne | mm/pmm.c:27-53 | the search finds a run on every bitmap that holds one if and only if one frame is asked for |
| FrameAllocator.RoundTrip | mm/pmm.c:13-65 | freeing what was allocated restores the bitmap word for word |
| FrameAllocator.Pmm.FirstUsed | mm/pmm.c:34-44 | the inner loop with its full-word shortcut agrees with the bit-by-bit scan |
| FrameAllocator.Pmm.FirstFree | mm/pmm.c:27-53 | the scan with its shortcuts agrees with the search it specifies |
| FrameAllocator.Pmm.AllocFree | mm/pmm.c:57-65 | the frames returned were all free and become marked, and no other bit changes |
| PageTables.LeafEntry | arch/x86cpu/vmm.c:188-200 | a filled entry reads back as its frame and flags, except that frame 0 with only the cache flag is an unmapped entry |
| PageTables.EntryPaged | arch/x86cpu/vmm.c:94-105 | writing a table entry keeps every directory whole and every table in its own place |
| PageTables.EntryView | arch/x86cpu/vmm.c:188-200 | writing an entry changes one page of one address space |
| PageTables.FreshPage | arch/x86cpu/vmm.c:114-181 | replacing a 4M page by a fresh table of 1024 entries changes no other page's frame or flags, unless the 4M page was not present, when the others are lost |
| PageTables.DropTableView | arch/x86cpu/vmm.c:224-229 | dropping a slot's table changes pages of that slot only |
| PageTables.PartlyAll | arch/x86cpu/vmm.c:371-387 | remapping 1023 pages one by one gives the 4M page's mapping less its trap, with the remaining page unmapped |
| Mmu.AddressSpaces.PgMapSmall | arch/x86cpu/vmm.c:85-209 | that page maps to the frame with the flags, which its entry carries bit by bit and its directory entry admits without denying what it admitted before; every other page, slot and space below the kernel translates as before (all but that page of a non-present 4M page are lost); only a fresh frame is taken, and failure means no frame was free |
| Mmu.AddressSpaces.PgMapHuge | arch/x86cpu/vmm.c:211-272 | all 1024 pages of the slot map to consecutive frames with the flags, which the entry carries bit by bit, the slot's table is freed, and nothing else changes |
| Mmu.AddressSpaces.PgUnmapSmall | arch/x86cpu/vmm.c:340-397 | that page is unmapped; a 4M page around it becomes small pages with the same frames and non-trap flags; nothing else changes; failure means that a 4M page had to be split and no frame was free, and has emptied its slot |
| Mmu.AddressSpaces.PgUnmapHuge | arch/x86cpu/vmm.c:300-338 | the slot is emptied, its table freed, and nothing else changes |
| Mmu.AddressSpaces.GetPgsz | arch/x86cpu/vmm.c:414-446 | reports -1 exactly for unmapped addresses, the self-map included, and otherwise the page's size |
| Mmu.AddressSpaces.GetPaddr | arch/x86cpu/vmm.c:448-481 | the physical address of any byte of a small or 4M page, 0 if unmapped |
| Mmu.AddressSpaces.GetFlags | arch/x86cpu/vmm.c:653-700 | the flags of the page, with write-through only where cached |
| Mmu.AddressSpaces.SetPaddr | arch/x86cpu/vmm.c:483-524 | a mapped page, or the 4M page it is in, moves and keeps its flags, unless its entry becomes all zero; nothing else changes |
| Mmu.AddressSpaces.SetFlags | arch/x86cpu/vmm.c:702-758 | a mapped page, or the 4M page it is in, gets the flags, bit by bit, and keeps its frame, unless its entry becomes all zero; nothing else changes |
| CloneSpace.CopyPaged | arch/x86cpu/vmm.c:569-617 | once all tables below the kernel are copied the copy is an address space with tables of its own |
| CloneSpace.CopyView | arch/x86cpu/vmm.c:558-617 | the copy translates every page outside the self-map as its source did |
| CloneSpace.CopyMirrors | arch/x86cpu/vmm.c:569-617 | in the finished copy each table below the kernel is a word for word copy, and all directory entries but the self-map differ in the address at most |
| CloneSpace.FreedView | arch/x86cpu/vmm.c:643-649 | freeing a space changes no translation of another |
| Mmu.AddressSpaces.Clone | arch/x86cpu/vmm.c:536-622 | success adds a space that translates like its source, with word for word copies of the tables below the kernel in frames of its own and directory entries with the same permissions, and changes no other; running out of frames gives everything back and restores the bitmap word for word |
| Mmu.AddressSpaces.FreeVmm | arch/x86cpu/vmm.c:624-651 | exactly the directory frame and the tables it owns below the kernel are freed, and every other space translates as before |
| Mmu.GaveBack | arch/x86cpu/vmm.c:597-607 | giving back all frames taken restores the bitmap |
| RangeMaps.MapOne | mm/vmm.c:33-40 | mapping one more small page extends a correctly mapped range |
| RangeMaps.MapSlot | mm/vmm.c:33-40 | mapping one more 4M page extends it by 1024 pages |
| RangeMaps.MixIrrelevant | mm/vmm.c:33-40 | two ways of mapping a range with different page sizes translate every page alike |
| RangeMaps.MapUnmapRestores | mm/vmm.c:12-65 | unmapping a range that was free before it was mapped restores every previous translation |
| VirtualMemory.LargestFit | mm/vmm.c:34-38 | the largest size that fits and is aligned is chosen |
| VirtualMemory.Map | mm/vmm.c:12-44 | terminates; page k of what it covers maps to pa/4096 + k with the flags whatever sizes are used, nothing outside changes, and the return value is the address of pa if all is covered; 4M pages are used in the kernel half too, where no other space uses the tables they replace; it stops short only when no frame is free |
| VirtualMemory.CoversAllExactly | mm/vmm.c:23-29 | it covers the whole range if and only if the range ends below 4G and starts at the start of a page or in page 0, or is empty; for any other start it covers nothing of a range no longer than its address |
| VirtualMemory.MapTranslates | mm/vmm.c:43 | the returned address translates to the caller's pa |
| VirtualMemory.Unmap | mm/vmm.c:46-65 | terminates; exactly the pages of the range become unmapped, and what is left of a 4M page keeps its mapping; a range that reaches 4G wraps and keeps its pages; it stops short only when a 4M page must be split and no frame is free, with that page gone |
| VirtualMemory.FitsExactly | mm/vmm.c:36 | in 32-bit words the test whether a 4M page still fits says yes if and only if it does or the address is the last slot's |
| VirtualMemory.LastSlotWraps | mm/vmm.c:57-62 | at the last slot's start the test passes though the page does not fit, and the next address is 0 |
| VirtualMemory.BelowKernel | mm/vmm.c:34-41 | below the kernel every range meets what mapping and unmapping ask for |
| VirtualMemory.FirstFree | mm/vmm.c:67-94 | returns what the specified search finds among the mapped pages: upwards the lowest wholly unmapped run inside the bounds, and 0 only if there is none; downwards a wholly unmapped run inside the bounds, or one that reaches 4G, which cannot happen if the bounds keep the search or the last page is mapped |
| FreeSpace.SafeInside | mm/vmm.c:67-94 | the downward search stays inside the bounds if they keep it above page 0, or the last page is mapped |
| FreeSpace.ExactlyFromOne | mm/vmm.c:67-94 | whatever is mapped, the downward search from page 1 stays inside the bounds if and only if one page is asked for or only one candidate fits |
| FreeSpace.ExactlyKept | mm/vmm.c:75-90 | whatever is mapped, the downward search stays inside the bounds if and only if no sequence of steps, each at most as long as the one before or twice as long, leads from the first candidate to one below page 0 that the search accepts; for upper bounds less than n pages below 4G, if there is none |
| FreeSpace.SimplyKept | mm/vmm.c:75-90 | no such sequence exists if the size is at most the lower bound, or only one candidate fits |
| FreeSpace.NearlyExactly | mm/vmm.c:75-90 | cases in which that is decided by comparing numbers: the two simple ones, bounds too small for one or two runs, and a power of two between the lower bound and the size |
| FreeSpace.BelowZero | mm/vmm.c:75-80 | with only page 2 mapped, two pages wanted between pages 1 and 3 are found at the last page of the address space |
| FreeSpace.Lowest | mm/vmm.c:75-93 | the upward search returns the lowest run, and 0 only if there is none |
| FreeSpace.GuardIs | mm/vmm.c:76 | the 32-bit loop guard in terms of candidates that may lie below page 0 |
| VirtualMemory.AllocMap | mm/vmm.c:96-103 | the range the search finds was free, lies inside the bounds and is now mapped from pa at the returned address, or was found below page 0 between unsafe bounds and nothing is mapped; 0 leaves everything as it was; mapping stops short only when no frame is free |
| Sharing.SharedIsolated | mm/vmm.c:181-192 | sharing a writable page keeps every writable frame exclusive and every trap paired, and changes no byte; the new page reads as the old one |
| Sharing.ResolvedIsolated | mm/vmm.c:225-267 | resolving a trap gives the two partners distinct writable frames with equal contents, keeps isolation, and changes no byte of any page |
| Sharing.WrittenIsolated | mm/vmm.c:338-345 | a store to a writable page changes that byte of that page and no other |
| Sharing.SharedCopies | mm/vmm.c:181-192 | in terms of what programs see, sharing makes a page with the same contents and kind, ends the writability of the source and pairs the two |
| Sharing.ResolvedCopies | mm/vmm.c:225-267 | resolving makes exactly the page and its partner writable, ends exactly their pairing and changes no contents and no page's kind |
| Sharing.ResolvedPages | mm/vmm.c:249-264 | the page moves to a fresh frame, it and its partner become writable and the partner is not trapped any more; all other flags, the partner's frame and all other mappings stay |
| Sharing.PartnerExclusive | mm/vmm.c:255-263 | as the check for other sharers matches the faulting trap itself, the partner's frame is exclusive afterwards if and only if there was no third page on it |
| Sharing.TwoPartnersBreak | mm/vmm.c:255-263 | a page shared with two others: after one is resolved, a store by the source shows in the other |
| Sharing.ReadonlyBecomesWritable | mm/vmm.c:181-192 | a page that is read-only for good can be shared, and the next write fault of the other page makes it writable |
| Sharing.ReadonlyBreaks | mm/vmm.c:225-267 | if a third page reads the same frame, a store by the source then shows there |
| CopyOnWrite.Pager.NewTrap | mm/vmm.c:113-141 | the first unused entry is taken; if there is none the table grows by four and the first of them is taken, or the result is -1; other entries are kept |
| CopyOnWrite.Pager.Setup | mm/vmm.c:148-200 | a mapped writable page and an unmapped one come to share a frame read-only with paired traps; every page reads as before and the new one as the source; if no traps can be placed the destination stays mapped without one; other cases change nothing, and failure means that no frame was free |
| CopyOnWrite.Pager.Duplicate | mm/vmm.c:202-272 | true if and only if the page has a trap and a frame is free; then the page has its old flags with the write flag, on a fresh frame, its partner its old flags with the write flag and without the trap, every other mapping is as before and no byte of any page has changed; otherwise everything is as it was |
| CopyOnWrite.Pager.HandleFault | mm/vmm.c:338-345 | handles a fault if and only if it is a write to a page that shares a frame and a frame is free, parting the two pages: both can be written afterwards, the partner is not trapped any more, and all other flags and mappings stay; it never changes what a page reads |
| CopyOnWrite.Pager.StoreByte | mm/vmm.c:338-345 | a store by a program is done if and only if the page is present, for user programs, and writable, or has a partner and a frame is free, and then changes one byte of the page's private copy |
| CopyOnWrite.Pager.Run | mm/vmm.c:148-345 | any interleaving of loads, stores and sharing in any number of spaces, faults included, has the outcome it has on separate pages: what loads return, what pages hold, which pages are writable, still share, are present and for user programs, and exactly which accesses are done; frames run out at one point of the script; from there on exactly the stores that want a copy are refused, and of the sharing only what needs a page table |
| Scheduling.ElapsedExactly | exec/task.c:168 | the 32-bit tick difference is the true waiting time if and only if less than a full turn has passed |
| Scheduling.YieldOvertakes | exec/task.c:159-183 | while a ready task waits for less than a turn of the counter, a yield that passes over it runs a task whose stamp was no later, which then leaves that set, however long other tasks sleep |
| Scheduling.BoundedBypass | exec/task.c:150-185 | over any run of yields, insertions, deletions and readiness changes, a ready task that waits for less than a turn is passed over at most as often as there were other tasks with a stamp no later than its own |
| Scheduling.AtMostTheOthers | exec/task.c:150-185 | so at most N - 1 times in a ring of N tasks |
| Scheduling.NeverLate | exec/task.c:159-183 | a yield passes over a ready task in favour of one with a later stamp only if it has waited for a full turn of the counter |
| Scheduling.OvertakenExactly | exec/task.c:159-183 | and for every wait of a full turn or more there is a ring in which a yield does |
| Scheduling.FullTurnStarves | exec/task.c:168-169 | a task that has waited exactly one turn of the counter is not even eligible |
| Tasks.RotatedCycle | exec/task.c:21-30 | a ring read from any of its tasks is the same cycle |
| Tasks.Scheduler.constructor | exec/task.c:132-144 | the kernel task alone is a ring of one, not ready |
| Tasks.Scheduler.Insert | exec/task.c:21-30 | the ring stays one cycle with next and prev inverse, with the new task right after its target |
| Tasks.Scheduler.Create | exec/task.c:76-83 | a new task stamped now joins the ring after the kernel task, which is an insertion step |
| Tasks.Scheduler.DoDelete | exec/task.c:114-116 | the ring stays one cycle through exactly the other tasks, in the same order |
| Tasks.Scheduler.Delete | exec/task.c:123-130 | the running task is only marked for deletion; any other leaves the ring, whether or not a task is running; no other task's kind changes |
| Tasks.Scheduler.Select | exec/task.c:159-173 | the walk returns the first of the longest waiting ready tasks, or the running task if none has waited |
| Tasks.Scheduler.Yield | exec/task.c:150-185 | is a yield step of the scheduling model: blocked or without an eligible task nothing changes; otherwise a longest waiting eligible task is stamped and runs, and the task that was running leaves the ring if and only if it is pending deletion; the others keep order, kind, readiness and stamp |
| ElfLoader.AllocatePages | exec/elf.c:803-820 | exactly the pages that hold a part of the segment are prepared: a new page gets a frame of its own and exactly the flags present, cached, writable if the segment is, and user if asked for; one that was mapped keeps frame and flags but for becoming writable with the segment; no other mapping and no byte of any page changes; it fails only when no frame is free |
| ElfLoader.LaidMore | exec/elf.c:803-820 | segments loaded one after the other prepare exactly the pages of all of them, writable where one of them is |
| ElfLoader.BlockLoaded | exec/elf.c:828-840 | a block of file bytes and zeros lands in place, wherever the segment starts in its page |
| ElfLoader.CopySegment | exec/elf.c:822-843 | terminates for any alignment; all bytes of the segment are in place and no byte outside it changes in any space |
| ElfLoader.LoadSegment | exec/elf.c:789-843 | byte i reads as file byte p_offset + i below p_filesz and 0 from there to p_memsz, no other byte changes, and the pages and their flags are those of AllocatePages; it fails only when no frame is free, and then no byte has changed |
| ElfLoader.LoadProgram | exec/elf.c:764-857 | so does every segment of a program whose segments do not overlap, even if they share pages: a page is writable if one of the segments on it is; no byte and no mapping outside them changes in any space; on failure no frame is free and the segments before are in place |
| Numbers.DigitsValue | lib/mp-printf.c:308-313 | the digits that fit the buffer, read back, give the value modulo base to the number of digits |
| Numbers.Append | lib/mp-printf.c:224-263 | nothing is written past the end of the buffer |
| Numbers.OutRev | lib/mp-printf.c:189-213 | emits the buffer reversed, padded with spaces on the proper side up to the width |
| Numbers.NtoaFormat | lib/mp-printf.c:217-267 | emits the text for every combination of flags, precision and width, within the 32-character buffer; PrintedLayout says what that text is |
| Numbers.Ntoa | lib/mp-printf.c:296-316 | emits the text for every 64-bit value and base 2 to 36; PrintedLayout says what that text is |
| Numbers.Strtoull | lib/stdlib.c:18-51 | on every string returns the exact value of the longest digit prefix or saturates, without an intermediate overflow, and stores the end right behind the digits unless the value exceeds 64 bits |
| Numbers.ParsePrinted | lib/mp-printf.c:296-316 | reading back a number printed without sign gives it modulo base^32, for any width, precision, padding and case |
| Numbers.RoundTrip | lib/mp-printf.c:296-316 | printing and reading is a round trip if and only if the number has at most 32 digits |
| Numbers.EnoughDigits | lib/mp-printf.c:49-51 | every 64-bit number has in base 4 and above; in base 2 those below 2^32 |
| NumberText.PrintedLayout | lib/mp-printf.c:189-316 | without '#' the text is at most one sign, zeros and the digits, with spaces up to the width on the side the left flag says; zeros fill up to the precision, and up to the width if asked for, less the place of the sign; the sign is '-' for negative numbers, or else '+' or a space by the flags, and is left out exactly if digits and zeros fill the buffer |
| NumberText.SignWritten | lib/mp-printf.c:253-263 | a sign is in the text if and only if it is due and neither digits nor zeros fill the buffer |
| NumberText.WidthReached | lib/mp-printf.c:189-230 | the text is at least as wide as asked if and only if the width is not to be filled with zeros or is at most 32 |
| NumberText.DigitCase | lib/mp-printf.c:308-313 | letters among the digits are upper case exactly if asked for |
| NumberText.NoLeadingZero | lib/mp-printf.c:308-313 | the digits of a number that fits start with no zero, unless it is the only digit |
| NumberText.Strtoll | lib/stdlib.c:53-92 | on every string returns the exact value with its sign if it fits 64 bits, without an intermediate overflow, and stores the end exactly then; numbers too large give the largest value, and numbers too small give the smallest if a product overflows but the largest if only the last digit does |
| NumberText.JustTooSmall | lib/stdlib.c:82-85 | the number below the smallest is such a one |
| NumberText.ReadBack | lib/mp-printf.c:217-316 | strtoll reads a printed number as its magnitude modulo base^32 with the sign that was written; strtoull reads the magnitude, but 0 if there are both spaces and a sign before it |
| NumberText.SignedRoundTrip | lib/mp-printf.c:217-316 | printing and strtoll are a round trip if and only if the number has at most 32 digits and its minus sign, if any, was written |
| NumberText.Prefixed | lib/stdlib.c:20-29 | with base 0, digits after 0x or 0X are read as hexadecimal, after 0 as octal, and others as decimal |
| NumberText.PrefixRoundTrip | lib/mp-printf.c:231-251 | octal and hexadecimal numbers printed with '#' and any sign are read back with base 0 |
| NumberText.HashKeepsDigits | lib/mp-printf.c:232-238 | with '#' and no precision all digits are kept if and only if the width is not just filled, or filled with enough zeros to make way for the prefix |
| NumberText.HashLosesDigits | lib/mp-printf.c:232-238 | 0x1234 printed with '#' and width 4 is 0x34 |

## Left out

- mmap, mremap, Windows code, statistics, `mallopt`, `calloc`, `iALLOc` and memory whose break moved under foreign calls (fenceposts): not used by this kernel, which has one contiguous heap.
- Mmu.AddressSpaces.PgMapSmall: does not model the propagation of kernel directory entries to other tasks, or invalidation of cached translations.
- Mmu.AddressSpaces.PgMapHuge: requires that no other space uses the kernel table it frees, because propagation is left out.
- Mmu.AddressSpaces.PgUnmapSmall: the resolving of copy-on-write partners before unmapping is not part of it.
- Mmu.AddressSpaces.PgUnmapHuge: requires that no other space uses the kernel table it frees, because propagation is left out; partners of its pages are not resolved.
- Mmu.AddressSpaces.SetFlags: writes the trap bit to the page's own entry, where line 750 indexes by slot; like the source it leaves the directory entry as it is, which may then admit less.
- Mmu.AddressSpaces.Clone: only from the current space and without copy-on-write; the copy-on-write branch reads the destination directory it has just wiped.
- Mmu.AddressSpaces.FreeVmm: deferred freeing of the current space and removal of its traps are not modelled.
- VirtualMemory.Map: 4M pages only where the range ends before the last slot (LastSlotWraps) and no other space uses the kernel tables they replace, because propagation is left out.
- VirtualMemory.Unmap: ranges that do not contain the start of the last slot (LastSlotWraps), and in the kernel half whole slots only where no other space uses their tables.
- VirtualMemory.FirstFree: no alignment argument, as no caller passes one; start addresses and sizes whose rounding up to pages does not wrap.
- VirtualMemory.AllocMap: what is found is a range as for Map.
- FreeSpace.ExactlyKept: for upper bounds less than n pages below 4G only one half, as pages below page 0 are then pages of the range; the only downward search ends at the kernel.
- Allocator.Heap.Systrim: pads of almost 2^31 and more, for which the amount to release wraps; free passes 0.
- Allocator.Heap.Memalign: requires an alignment of at most 2^31 and a padded size that does not wrap, which RoundingEndsExactly and PadFitsExactly show to be needed.
- CopyOnWrite.Pager.Setup: one writable 4K page for each call, as vmm_clone makes it; the loop over larger sizes advances its destination twice.
- CopyOnWrite.Pager.Run: the trap table can always grow, and only pages found writable are shared, without which ReadonlyBreaks and TwoPartnersBreak apply.
- CopyOnWrite.Pager.Duplicate: the window used for copying is taken to be available.
- KernelHeap.KHeap.Morecore: is not called again once frames have run out in the middle of a call.
- Tasks.Scheduler.DoDelete: only the ring; stacks, processes and their frames are not part of this model.
- Tasks.Scheduler.Yield: one atomic step; staged address spaces are not cleaned up in it.
- ElfLoader.LoadProgram: stops at the first failed allocation; unloading, relocation and header parsing are not part of this model.
- Numbers.Ntoa: `_ntoa_long` has the same body and is covered for its smaller values; floating point and format strings are not modelled.
- HeapRuns.Client.Run: stops at the first operation that finds memory full; null blocks are not resized.
- `vmm_trap_remove`, `vmm_set_dirty`, device drivers, file systems and string helpers: they would add easy members or do not carry an invariant.
