# Memory management of the Siberix kernel, in Dafny

A verified model of the kernel's memory management and of the small algorithms around it: the buddy
allocator, the page-table code, the allocation bitmap, the slab allocator, the boot handshake between
processors, and the list, tokenizer, number printer and timer that the kernel brings along.
Everything is stated for all inputs, all reachable states or all runs; nothing was executed.

| file | what it holds |
|---|---|
| `Pow2.dfy`, `Words.dfy`, `Align.dfy` | powers of two and aligned blocks, machine words and their bit operators, the rounding helpers |
| `BuddyZone.dfy`, `BuddyRuns.dfy` | the buddy allocator as mathematics: splitting and merging, whole runs, tiling, the canonical free set |
| `PageQueue.dfy`, `BuddyAlloc.dfy` | page descriptors, the intrusive queues, and the allocator's methods, each proved to perform the zone operation |
| `MemZone.dfy` | addresses and descriptors, the blocks that initialisation adds |
| `Bitmap.dfy`, `UserPages.dfy` | the two-level bitmap and the user address space whose page tables must agree with it |
| `Paging.dfy`, `DirectMaps.dfy` | page-table entries, the processor's walk, the kernel's direct maps |
| `HeapSearch.dfy`, `KernelSpace.dfy` | the kernel heap's first-fit search, mapping and translation on the static tables |
| `SmpBoot.dfy`, `SmpProgress.dfy` | the boot handshake as a step relation over any number of processors: its invariant, and that it is completed |
| `Slab.dfy`, `LinkedList.dfy`, `Strtok.dfy`, `Sprintf.dfy`, `Timer.dfy` | the smaller algorithms |
| `Deviations.dfy`, `BuddyAsWritten.dfy` | what the text does where it parts from its evident intent, and exactly when that is harmless |
| `Options.dfy`, `Sequences.dfy` | shared datatypes and predicates |

`Kernel/backup/20230629` is the previous version of the kernel; where both versions have an operation
the current one is modelled, and the older one supplies what the current one leaves empty.

## Where the model follows the intent instead of the text

The lemmas named are about the text as it stands, in `Deviations.dfy` and `BuddyAsWritten.dfy`.

- `split` scales its offset twice (`SplitReachesOutside`) and clears the FREE flag of the half it
  frees, so that this half can never be split again (`SplitLoopEnds`, `RunTextGoes`,
  `ThirdRequestFails`); the older `ExpandPage` is followed.
- The coalescing loop and `merge` have their alignment tests inverted, the loop shifts by a byte size
  and never compares orders (`WrittenBuddy`, `FlagTestAlone`, `WrongMergeSwallows`, `SmallBuddyRun`;
  `FreeLoopKeeps` says when the loop as a whole is right, `NeverStuck` that `merge` does not refuse).
- `push`, `pop` and `takeAway` leave stale links, and the guard in front of `takeAway` misses the only
  page of a queue (`PushNeedsDetachedPage`, `PoppedPageSpoilsQueues`, `TakeAwayGuard`). The model's
  queue clears the links of a page it gives up. The older list's `Add` forgets its tail
  (`OldAddForgetsTheTail`).
- `1 << n` on a word is a word-wide shift, `clearAll` counts down in both branches, `at` takes
  remainders (`WrittenMaskIsRight`, `ClearAllAsWritten`, `WrittenIndex`, `WrittenCell`).
- Translation adds the offset to the masked entry (`TranslatesFourBytes`).
- `Request4KPage` has a page descriptor to write to, where the source writes through a
  null pointer; there is nothing to state about that.

Kept as the text has it, with the exact condition under which it is right: the address returned by
`alloc4KPages` (`ReturnedPageIsNotOurs`), the failed bitmap search whose 0 is taken for a position
(`FailedSearchRemapsLowPages`), the second pass of `KernelAllocate4KPages` (`SecondPassIsWrong`,
`SecondPassUnreachable`), the last 4 MiB block of a range that `BuddyInit` skips (`LastBlockIsLost`),
the 32-bit page root loaded by the trampoline (`ReadsItsOwnSlots`), `remove(value)` of the list
(`EmptyingIsRemoving`), and `ALIGN_PAGE`'s missing sixth step (`AlignPageIsRight`).

## Model

| member | source | states |
|---|---|---|
| `BuddyRuns.Run` | Kernel/src/siberix/mem/page_alloc.cpp:10-77 | Every sequence of allocations and frees keeps the zone invariant: well-formed queues, free and live blocks tile the frames, no two free buddies below order 10. |
| `BuddyRuns.BlocksTileTheZone` | Kernel/src/siberix/mem/page_alloc.cpp:10-77 | In such a zone every frame lies in exactly one block, free or live but not both; every block is aligned to its size and lies inside the zone. |
| `BuddyRuns.AllocIsBestFit` | Kernel/src/siberix/mem/page_alloc.cpp:10-34 | Allocation takes the head of the smallest sufficient non-empty queue, hands out a block of order ceil(log2 amount), leaves exactly one remainder per order between, and changes nothing else; a failure changes nothing. |
| `BuddyRuns.AllocFailsOnlyWhenNothingFits` | Kernel/src/siberix/mem/page_alloc.cpp:12-24 | Allocation fails if and only if the amount is 0 or above 1024, or memory holds no aligned run of 2^ceil(log2 amount) free frames. |
| `BuddyRuns.OrderInRange` | Kernel/src/siberix/mem/page_alloc.cpp:12-16 | An accepted request rounds to an order of at most 10. |
| `BuddyRuns.FreeSetIsCanonical` | Kernel/src/siberix/mem/page_alloc.cpp:50-77 | The free blocks are exactly the maximal aligned blocks of the frames that are not live. |
| `BuddyRuns.LiveFramesFixFreeBlocks` | Kernel/src/siberix/mem/page_alloc.cpp:50-77 | Two zones with the same live frames have the same free blocks, whatever their histories. |
| `BuddyRuns.FreeUndoesAlloc` | Kernel/src/siberix/mem/page_alloc.cpp:10-77 | Freeing what an allocation returned brings back the same live and free blocks. |
| `BuddyRuns.RunsForgetTheirHistory` | Kernel/src/siberix/mem/page_alloc.cpp:10-77 | Two runs that leave the same frames live leave the same free blocks, and a run that freed everything is back at the initial blocks. |
| `BuddyRuns.FreeKeeps` | Kernel/src/siberix/mem/page_alloc.cpp:41-77 | A free keeps the invariant and removes exactly the freed block from the live ones. |
| `BuddyRuns.CoalesceKeeps` | Kernel/src/siberix/mem/page_alloc.cpp:52-76 | The coalescing loop keeps the invariant and ends with the block queued and no free buddy beside it. |
| `BuddyRuns.SplitDownKeeps` | Kernel/src/siberix/mem/page_alloc.cpp:27-30 | The split loop keeps the invariant. |
| `BuddyRuns.SplitDownFills` | Kernel/src/siberix/mem/page_alloc.cpp:27-30 | The split loop appends one remainder to each order it passes and touches no other queue. |
| `BuddyRuns.InitialInv` | Kernel/backup/20230629/src/Memory/Page.cpp:13-41 | A zone of free 4 MiB blocks satisfies the invariant. |
| `BuddyZone.SplitKeeps` | Kernel/src/siberix/mem/page.cpp:5-18 | One split keeps tiling and coalescing, and adds exactly the upper half to the free blocks. |
| `BuddyZone.MergeKeeps` | Kernel/src/siberix/mem/page.cpp:20-37 | One merge keeps the invariant and removes exactly the buddy from the free blocks. |
| `BuddyZone.CheckoutKeeps` | Kernel/src/siberix/mem/page_alloc.cpp:26 | Taking a block from its queue keeps the invariant. |
| `BuddyZone.ReleaseKeeps` | Kernel/src/siberix/mem/page_alloc.cpp:76 | Queueing a block whose buddy is not free keeps the invariant. |
| `BuddyZone.HalvesCoverTheSame` | Kernel/src/siberix/mem/page.cpp:5-37 | Replacing a block by its two halves, or back, covers every frame the same number of times. |
| `BuddyZone.RemoveIsExact` | Kernel/inc/siberix/mem/page.h:121-135 | Removal takes out exactly one block and leaves no duplicate. |
| `BuddyZone.RemoveAt` | Kernel/inc/siberix/mem/page.h:121-135 | Removal keeps the order of the remaining blocks. |
| `Powers.BuddyPair` | Kernel/inc/siberix/mem/buddy.h:9-22 | Buddies are each other's buddy and their parent starts at the lower one. |
| `Powers.ParentSplits` | Kernel/src/siberix/mem/page.cpp:20-37 | The parent block is the disjoint union of the two buddies. |
| `BuddyAllocator.BuddyAlloc.constructor` | Kernel/backup/20230629/src/Memory/Page.cpp:13-41 | Over a raw descriptor table, the initialisation loops establish the allocator's invariant with every 4 MiB block free at order 10 and no descriptor flagged kernel or swap. |
| `BuddyAllocator.BuddyAlloc.AllocatePhysMemory4KPages` | Kernel/src/siberix/mem/page_alloc.cpp:10-34 | The method on descriptors and queues performs exactly the zone's allocation and returns its descriptor, of order ceil(log2 amount) and not flagged free, or null. |
| `BuddyAllocator.BuddyAlloc.FreePhysMemory4KPages` | Kernel/src/siberix/mem/page_alloc.cpp:41-77 | For every descriptor of the table, unless it is flagged kernel or swap, the method performs exactly the zone's free: a live block is freed, anything else (a second free, a page inside a block) changes nothing. |
| `BuddyAllocator.BuddyAlloc.AllocateAndFree` | Kernel/src/siberix/mem/page_alloc.cpp:10-77 | On an initialised allocator, freeing the page that an allocation returned brings back the same live and free blocks. |
| `BuddyAllocator.BuddyAlloc.PerformAll` | Kernel/src/siberix/mem/page_alloc.cpp:10-77 | Initialisation and any sequence of calls, double frees included, take the descriptors and queues through the zone's run; no free is refused for a flag. |
| `BuddyAllocator.BuddyAlloc.CoalesceAndQueue` | Kernel/src/siberix/mem/page_alloc.cpp:52-76 | The loop on descriptors performs the zone's coalescing and terminates because the order grows. |
| `BuddyAllocator.BuddyAlloc.FreeBuddyOf` | Kernel/src/siberix/mem/page_alloc.cpp:58-63 | The loop's address arithmetic and tests find the buddy's descriptor exactly when the buddy is a free block of the same order. |
| `BuddyAllocator.BuddyAlloc.Absorb` | Kernel/src/siberix/mem/page_alloc.cpp:63-71 | One turn of the coalescing loop is one merge of the zone. |
| `BuddyAllocator.BuddyAlloc.SplitTo` | Kernel/src/siberix/mem/page_alloc.cpp:27-30 | The split loop performs the zone's splits down to the requested order. |
| `BuddyAllocator.BuddyAlloc.SplitOff` | Kernel/src/siberix/mem/page_alloc.cpp:28-29 | One turn of it is one split of the zone. |
| `BuddyAllocator.BuddyAlloc.FindOrder` | Kernel/src/siberix/mem/page_alloc.cpp:17-24 | The search loop finds the smallest sufficient order with a free block. |
| `BuddyAllocator.BuddyAddress` | Kernel/src/siberix/mem/page_alloc.cpp:58-63 | On a zone that starts on a 4 MiB boundary the computed address is that of the buddy, and its descriptor is flagged free with the same order if and only if the buddy is free. |
| `BuddyAllocator.AddressAligned` | Kernel/inc/siberix/mem/buddy.h:9-12 | Alignment of an address to a block size is alignment of its frame number. |
| `BuddyAllocator.SizeIsPower` | Kernel/inc/siberix/mem/buddy.h:24-27 | The rounded amount is two to the block order. |
| `PageQueues.Page.Split` | Kernel/src/siberix/mem/page.cpp:5-18 | Null for a page not flagged free, which stays as it was; otherwise the lower half keeps the descriptor and the upper one gets the right order, flag and address. |
| `PageQueues.Page.Merge` | Kernel/src/siberix/mem/page.cpp:20-37 | Nothing happens unless both are free and one size apart; else the aligned half takes over the pair. |
| `PageQueues.PageQueue.Push` | Kernel/inc/siberix/mem/page.h:92-103 | Appends a page without stale links at the tail; forward and backward links and the size agree with the sequence. |
| `PageQueues.PageQueue.Pop` | Kernel/inc/siberix/mem/page.h:105-119 | Removes and returns the head, or returns null on an empty queue. |
| `PageQueues.PageQueue.TakeAway` | Kernel/inc/siberix/mem/page.h:121-135 | Removes exactly the given page, from head, middle or tail, and keeps the order of the others. |
| `PageQueues.PageQueue.Unlink` | Kernel/inc/siberix/mem/page.h:123-132 | The neighbours are linked to each other, or the ends of the queue move past the page. |
| `Align.AlignTwoExponentIsCeiling` | Kernel/inc/xtra-math/align.h:45-58 | For 1 to 2^63 the result is the least power of two not below x; for 0 and above 2^63 it wraps to 0. |
| `Align.SmearStep` | Kernel/inc/xtra-math/align.h:51-56 | A smearing step by c doubles a block of c leading ones. |
| `Align.AlignPageIsCeiling` | Kernel/backup/20230629/include/Mem/Page.h:25-34 | The five-step version rounds correctly up to 2^32. |
| `Align.AlignPageIsRight` | Kernel/backup/20230629/include/Mem/Page.h:25-34 | It rounds x correctly if and only if x - 1 has no gap of 32 zero bits below its top bit. |
| `Align.AlignPageFails` | Kernel/backup/20230629/include/Mem/Page.h:25-34 | It rounds 2^32 + 1 wrongly. |
| `Align.RoundUpIsRight` | Kernel/inc/xtra-math/align.h:45-58 | n smearing steps round correctly if and only if there is no gap of 2^n zero bits. |
| `Align.SmearedBit` | Kernel/inc/xtra-math/align.h:51-56 | n smearing steps set a bit exactly when one of the 2^n bits from it upwards was set. |
| `Align.PageOrder` | Kernel/backup/20230629/include/Mem/Page.h:36-46 | The order of the largest power of two not above the size, capped at 10; 255 for 0. |
| `Align.RequestOrder` | Kernel/backup/20230629/src/Memory/Page.cpp:77-79 | The block asked for is large enough if and only if 1 to 1024 pages were wanted, and then has order ceil(log2 x). |
| `MemZone.OffsetIsFrameInSection` | Kernel/backup/20230629/include/Mem/MemZone.h:27-32 | Through all truncations, the descriptor index is the frame number within the 1 GiB section. |
| `MemZone.DescriptorsAreFrames` | Kernel/backup/20230629/include/Mem/MemZone.h:27-32 | Below 2^62 section and offset make up the frame number, so two addresses share a descriptor only if they are in the same frame. |
| `MemZone.ExpandReachesUpperHalf` | Kernel/backup/20230629/src/Memory/Page.cpp:97-122 | The descriptor reached by adding 2^order is that of the upper half's address, in the same section and 4 MiB block. |
| `MemZone.ExpandedDescriptorReady` | Kernel/backup/20230629/src/Memory/Page.cpp:97-122 | In every reachable state, for every block that can be cut, that descriptor is the one pageOf and the allocator find for the upper half's address, and it already holds that address. |
| `MemZone.AlignmentMask` | Kernel/backup/20230629/include/macros:15-21 | Masking with the complement of align - 1 rounds down to a multiple. |
| `MemZone.InitRange` | Kernel/backup/20230629/src/Memory/Page.cpp:18-39 | The blocks the loop adds for a range: 4 MiB aligned, ascending, each with 8 MiB left to the end of the range. |
| `MemZone.LastBlockIsLost` | Kernel/backup/20230629/src/Memory/Page.cpp:18-39 | The loop covers a range completely if and only if the range holds no whole block. |
| `Bitmaps.Bitmap.FindFree` | Kernel/inc/stdcxx/bitmap.h:81-110 | The word-skipping search returns the lowest start of a clear run of the asked length and sets exactly that run; it returns 0 and changes nothing if there is none. |
| `Bitmaps.Bitmap.Scan` | Kernel/inc/stdcxx/bitmap.h:83-103 | The scan's state: the longest clear run that ends here, and no sufficient run before it. |
| `Bitmaps.ScanStep` | Kernel/inc/stdcxx/bitmap.h:86-101 | Skipping a full word, an empty word or a single bit each keeps that state. |
| `Bitmaps.ScanEnds` | Kernel/inc/stdcxx/bitmap.h:103-109 | When the scan stops, the run is the first fit, or no run exists. |
| `Bitmaps.Bitmap.SetAll` | Kernel/inc/stdcxx/bitmap.h:28-47 | Exactly the bits of the range become set. |
| `Bitmaps.Bitmap.ClearAll` | Kernel/inc/stdcxx/bitmap.h:49-67 | Exactly the bits of the range become clear. |
| `Bitmaps.Bitmap.Set` | Kernel/inc/stdcxx/bitmap.h:139 | Exactly one bit becomes set. |
| `Bitmaps.Bitmap.Clear` | Kernel/inc/stdcxx/bitmap.h:141 | Exactly one bit becomes clear. |
| `Bitmaps.Bitmap.Test` | Kernel/inc/stdcxx/bitmap.h:143-146 | The bit is read, and reading (which may allocate a row) changes no bit. |
| `Bitmaps.Bitmap.Touch` | Kernel/inc/stdcxx/bitmap.h:148-157 | A row that is absent reads as clear; allocating it changes no bit and no other row. |
| `Bitmaps.Bitmap.constructor` | Kernel/inc/stdcxx/bitmap.h:122-129 | All bits start clear, with only the first row allocated, and the size is 64 bits a word. |
| `Bitmaps.PositionsAreCells` | Kernel/inc/stdcxx/bitmap.h:148-157 | Position to row, word and bit is a bijection on the whole capacity, in row-major order. |
| `Bitmaps.BitsAreBinary` | Kernel/inc/stdcxx/bitmap.h:25-35 | Bit n of a word is its binary digit of weight 2^n. |
| `Bitmaps.WordBits` | Kernel/inc/stdcxx/bitmap.h:69-77 | Setting or clearing one bit of a word changes no other bit. |
| `UserPages.X64Pages.Alloc4KPages` | Kernel/src/platforms/x86_64/hwmem.cpp:63-109 | On success exactly the lowest clear run is set in the bitmap and mapped; otherwise pages from 0 are remapped. Each page of the range is present, open to user code, at the zero page, with the three flags asked for, and so is each new directory and table. Agreement survives if and only if the request was served. The result is the address past the range. |
| `UserPages.AllocationAgrees` | Kernel/src/platforms/x86_64/hwmem.cpp:63-109 | If bitmap and walk agreed before, they agree after; the range was unmapped, is now present and open to user code at the zero page with the flags asked for, and every other translation is unchanged. |
| `UserPages.AgreementOverRuns` | Kernel/src/platforms/x86_64/hwmem.cpp:63-109 | Over any sequence of allocations a page's bit is set exactly when the walk reaches a present entry, all the time, if and only if every request was served: its run existed, or the low pages remapped instead were allocated. |
| `UserPages.MappedPagesStay` | Kernel/src/platforms/x86_64/hwmem.cpp:63-109 | As long as every search finds its run, a page once mapped keeps its translation through any number of later allocations. |
| `UserPages.CallAgrees` | Kernel/src/platforms/x86_64/hwmem.cpp:63-109 | One call keeps the agreement if and only if its request is served. |
| `UserPages.LeavesGranted` | Kernel/src/platforms/x86_64/hwmem.cpp:70-107 | The loop changes the translation of exactly the pages of the range, although tables appear on the way; each is stated field by field. |
| `UserPages.UpperGranted` | Kernel/src/platforms/x86_64/hwmem.cpp:74-95 | Existing directories and tables keep their entries; new ones are present, open to user code, with the flags of this allocation. |
| `UserPages.LevelsNeeded` | Kernel/src/platforms/x86_64/hwmem.cpp:74-95 | A directory or table is there afterwards if and only if it was there or a page of the range needs it. |
| `UserPages.UserAccess` | Kernel/src/platforms/x86_64/hwmem.cpp:74-103 | User code reaches a page of the range if and only if no earlier directory or table entry shuts it out. |
| `UserPages.MappedPagesAreOpen` | Kernel/src/platforms/x86_64/hwmem.cpp:63-109 | Over any sequence of allocations, served or not, user code reaches every mapped page and finds the zero page there. |
| `UserPages.WriteAccess` | Kernel/src/platforms/x86_64/hwmem.cpp:74-103 | A page of the range is writable if and only if that was asked for and no earlier directory or table entry withholds it. |
| `UserPages.FailedSearchRemapsLowPages` | Kernel/src/platforms/x86_64/hwmem.cpp:68-107 | When no run exists, pages 0 to amount are remapped; agreement survives if and only if all of them were allocated. |
| `UserPages.X64Pages.EnterPage` | Kernel/src/platforms/x86_64/hwmem.cpp:71-106 | One turn of the loop on the tables is one step of the mapping. |
| `UserPages.X64Pages.Create` | Kernel/src/platforms/x86_64/hwmem.cpp:25-42 | After construction pages 0 to 127 are mapped, writable and open to user code, no other is mapped, and bitmap and tables agree. |
| `UserPages.X64Pages.WalkTablesIsWalk` | Kernel/src/platforms/x86_64/hwmem.cpp:71-103 | The walk over the tables in memory finds what the space says. |
| `Paging.SetPageFrameFields` | Kernel/backup/20230629/include/Arch/x86_64/MMU.h:198-202 | Frame and flag fields of an entry never disturb each other. |
| `Paging.FrameReadsBack` | Kernel/backup/20230629/include/Arch/x86_64/MMU.h:202 | The frame reads back as that of the address, the flags as those of entry and argument together. |
| `Paging.SetPageFlagsBits` | Kernel/backup/20230629/include/Arch/x86_64/MMU.h:200 | A bit of the entry is set afterwards if and only if it was set before or is one of the flags. |
| `Paging.PresentAndWritable` | Kernel/backup/20230629/include/Arch/x86_64/MMU.h:200 | With present and writable the two lowest bits become 1 and the others stay. |
| `Paging.MappedEntry` | Kernel/backup/20230629/include/Arch/x86_64/MMU.h:202 | With the present flag the entry is present and holds the frame. |
| `Paging.FreshEntry` | Kernel/backup/20230629/include/Arch/x86_64/MMU.h:202 | Into an empty entry the macro writes the sum of frame and flags. |
| `Paging.IndexMacros` | Kernel/backup/20230629/include/Arch/x86_64/MMU.h:17-20 | The index macros are division and remainder. |
| `Paging.TestsAreFlags` | Kernel/backup/20230629/include/Arch/x86_64/MMU.h:22-27 | The present and size tests look at bits 0 and 7. |
| `DirectMaps.DirectMapsHold` | Kernel/backup/20230629/src/Arch/x86_64/AddressSpace.cpp:162-208 | On the constructed tables the processor's walk of IO_VIRTUAL_BASE + a is a below 4 GiB, of KERNEL_VIRTUAL_BASE + a and of a itself is a below 1 GiB. |
| `DirectMaps.IoWindow` | Kernel/backup/20230629/src/Arch/x86_64/AddressSpace.cpp:193-197 | The IO window uses PDPT slots 506 to 509. |
| `DirectMaps.KernelWindow` | Kernel/backup/20230629/src/Arch/x86_64/AddressSpace.cpp:171-180 | The kernel window uses slot 510, its identity alias slot 0 of PML4 entry 0. |
| `DirectMaps.HeapWindow` | Kernel/backup/20230629/src/Arch/x86_64/AddressSpace.cpp:182-191 | The heap window uses slot 511. |
| `DirectMaps.HeapWalk` | Kernel/backup/20230629/src/Arch/x86_64/AddressSpace.cpp:182-191 | In the heap window the walk reads the heap table entry of the page. |
| `KernelSpaces.KernelAddressSpace.constructor` | Kernel/backup/20230629/src/Arch/x86_64/AddressSpace.cpp:162-208 | The constructor leaves the tables that the direct-map theorem is about, with an empty heap. |
| `KernelSpaces.KernelAddressSpace.ConstructorLinksAllTables` | Kernel/backup/20230629/src/Arch/x86_64/AddressSpace.cpp:185-191 | Every heap directory points at its table, so allocation never needs its second pass. |
| `KernelSpaces.KernelAddressSpace.KernelAllocate4KPages` | Kernel/backup/20230629/src/Arch/x86_64/MMU.cpp:162-230 | The two passes on the table array find the run that the search specification names and return its address or none; the entries of exactly that run get their two lowest bits set and keep the others. |
| `KernelSpaces.KernelAddressSpace.FirstPassSearch` | Kernel/backup/20230629/src/Arch/x86_64/MMU.cpp:163-197 | Finds the lowest-addressed free run of the asked length among present directories if and only if there is one. |
| `KernelSpaces.KernelAddressSpace.SearchTable` | Kernel/backup/20230629/src/Arch/x86_64/MMU.cpp:169-191 | The inner loop over one table keeps the state of the scan. |
| `KernelSpaces.KernelAddressSpace.MarkRun` | Kernel/backup/20230629/src/Arch/x86_64/MMU.cpp:181-188 | Exactly the entries of the run become present and writable, across table boundaries. |
| `KernelSpaces.KernelAddressSpace.SecondPassSearch` | Kernel/backup/20230629/src/Arch/x86_64/MMU.cpp:199-206 | Finds the lowest run of absent directories if and only if there is one. |
| `KernelSpaces.KernelAddressSpace.LinkAndMark` | Kernel/backup/20230629/src/Arch/x86_64/MMU.cpp:210-219 | Links exactly the directories needed and marks exactly the pages asked for. |
| `HeapSearch.FreePageBits` | Kernel/backup/20230629/src/Arch/x86_64/MMU.cpp:166-171 | A heap page is free if and only if its directory entry has bit 0 set and bit 7 clear and its own has bit 0 clear. |
| `HeapSearch.ScanPage` | Kernel/backup/20230629/src/Arch/x86_64/MMU.cpp:169-190 | One page keeps the scan's state, or ends it with the first fit. |
| `HeapSearch.FirstPassIsRight` | Kernel/backup/20230629/src/Arch/x86_64/MMU.cpp:180 | The first pass's formula is the address of its directory and page. |
| `HeapSearch.SecondPassIsWrong` | Kernel/backup/20230629/src/Arch/x86_64/MMU.cpp:208-209 | The second pass's formula never is: its 32-bit product wraps, for every directory and page. |
| `HeapSearch.SecondPassUnreachable` | Kernel/backup/20230629/src/Arch/x86_64/MMU.cpp:203-228 | On tables that are all linked the second pass finds nothing and the tables stay linked. |
| `HeapSearch.TakenStaysTaken` | Kernel/backup/20230629/src/Arch/x86_64/MMU.cpp:162-230 | Over any sequence of calls a page once present stays present. |
| `HeapSearch.ResultsNeverOverlap` | Kernel/backup/20230629/src/Arch/x86_64/MMU.cpp:162-230 | Over any sequence of calls two successful results never share a page. |
| `KernelSpaces.KernelAddressSpace.KernelMapVirtualMemory4K` | Kernel/backup/20230629/src/Arch/x86_64/MMU.cpp:123-154 | Exactly the entries of the range get the frames from phys on; every other entry is unchanged. |
| `KernelSpaces.MapThenTranslate` | Kernel/backup/20230629/src/Arch/x86_64/MMU.cpp:123-154 | After mapping, every byte of page t translates to phys + 4096 t + offset, and every address outside the range keeps its translation. |
| `KernelSpaces.MappedPage` | Kernel/backup/20230629/src/Arch/x86_64/MMU.cpp:149 | A mapped entry holds its page's frame and keeps the flag bits it had. |
| `KernelSpaces.KernelAddressSpace.ConvertsFromEntries` | Kernel/backup/20230629/src/Arch/x86_64/AddressSpace.cpp:282-303 | The translation in the class is the one the round trip is about. |
| `KernelSpaces.KernelAddressSpace.KernelWindowConverts` | Kernel/backup/20230629/src/Arch/x86_64/AddressSpace.cpp:282-303 | ConvertVirtToPhys agrees with the walk on the whole kernel window. |
| `KernelSpaces.KernelAddressSpace.IoWindowDoesNotConvert` | Kernel/backup/20230629/src/Arch/x86_64/AddressSpace.cpp:282-303 | In the IO window it returns 0, so it agrees with the walk for the first byte only. |
| `KernelSpaces.KernelAddressSpace.AliasDoesNotConvert` | Kernel/backup/20230629/src/Arch/x86_64/AddressSpace.cpp:282-303 | On the identity alias of the first GiB it returns 0, so it agrees with the walk for the first byte only. |
| `KernelSpaces.KernelAddressSpace.HeapWindowConverts` | Kernel/backup/20230629/src/Arch/x86_64/AddressSpace.cpp:264-303 | In the heap window a page is present for both or for neither; a present one converts to what the processor translates to if and only if bits 51 to 48 of its entry are clear. |
| `SmpBoot.ExecuteKeeps` | Kernel/backup/20230629/src/Arch/x86_64/SMP.cpp:57-118 | The handshake invariant holds after every sequence of boot, delivery and processor steps. |
| `SmpBoot.AtMostOneBooting` | Kernel/backup/20230629/src/Arch/x86_64/SMP.cpp:57-90 | At most one application processor is between leaving the wait for STARTUP and setting doneInit, and it is the one being initialised. |
| `SmpBoot.ReadsItsOwnSlots` | Kernel/backup/20230629/src/Arch/x86_64/SMPTrampoline.asm:22-72 | Such a processor has loaded the id, stack, GDT and entry stored for it alone, stacks are pairwise disjoint, and its page root is right if and only if it lies below 4 GiB. |
| `SmpBoot.ReturnMeansFinished` | Kernel/backup/20230629/src/Arch/x86_64/SMP.cpp:57-90 | When InitializeProcessor returns on first use its processor has finished, whatever number of STARTUP messages was sent, and the flag is down again. |
| `SmpProgress.BootCanFinish` | Kernel/backup/20230629/src/Arch/x86_64/SMP.cpp:57-118 | From every reachable state the end of the processor list can still be reached, if and only if every processor on the list exists. |
| `SmpProgress.EveryListedStarts` | Kernel/backup/20230629/src/Arch/x86_64/SMP.cpp:92-118 | At the end of the list every processor on it has been created and has finished, and no other has been started. |
| `SmpProgress.FairBootFinishes` | Kernel/backup/20230629/src/Arch/x86_64/SMP.cpp:57-118 | Under every schedule that passes over no processor and no message for ever, that end is reached if they all exist. |
| `SmpProgress.OthersDoNotHarm` | Kernel/backup/20230629/src/Arch/x86_64/SMP.cpp:57-90 | No event leads farther away from the end, and the useful one stays useful until it happens. |
| `SmpProgress.HelpfulIsNearer` | Kernel/backup/20230629/src/Arch/x86_64/SMP.cpp:57-90 | Outside the end of the list some step of the boot processor, a message or the booting processor comes nearer to it. |
| `SmpBoot.FinishedStays` | Kernel/backup/20230629/src/Arch/x86_64/SMP.cpp:51-54 | No message still in flight restarts a finished processor. |
| `Slab.SlabAllocator.Allocate` | Kernel/backup/20230629/src/Memory/SlabAllocatorImpl.cpp:60-98 | A request of at most a page returns a new object of the smallest sufficient class, all zero; objects handed out before keep their contents; the chains stay intact, and only the object and the pages taken meanwhile are written to. The object is the next one of its class's page, of a new page only if none was left; the next page is taken with the last object; the other classes' pages stay; no page is given up before all its objects are handed out. Larger requests return what the heap answers for that many whole pages. |
| `Slab.SlabAllocator.TakeObject` | Kernel/backup/20230629/src/Memory/SlabAllocatorImpl.cpp:78-94 | The part of Allocate before the zeroing, with the same account of pages. |
| `Slab.SlabAllocator.EnsureRoom` | Kernel/backup/20230629/src/Memory/SlabAllocatorImpl.cpp:80 | A new page is requested if and only if the class has none with an object left. |
| `Slab.RefillWastesNothing` | Kernel/backup/20230629/src/Memory/SlabAllocatorImpl.cpp:80 | A new page for a class without room leaves every page taken either in use or handed out completely. |
| `Slab.PopWastesNothing` | Kernel/backup/20230629/src/Memory/SlabAllocatorImpl.cpp:90-94 | So does taking an object. |
| `Slab.SlabAllocator.LiveObjectsApart` | Kernel/backup/20230629/src/Memory/SlabAllocatorImpl.cpp:60-98 | Over any history the objects handed out are pairwise disjoint, each inside one page. |
| `Slab.SlabAllocator.ClientWrite` | Kernel/backup/20230629/src/Memory/SlabAllocatorImpl.cpp:90-97 | A client's store of a byte or more into an object it holds breaks no chain. |
| `Slab.SlabAllocator.Clear` | Kernel/backup/20230629/src/Memory/SlabAllocatorImpl.cpp:96 | The zeroing clears the object and nothing else, and breaks no chain. |
| `Slab.SlabAllocator.Pop` | Kernel/backup/20230629/src/Memory/SlabAllocatorImpl.cpp:90-94 | Taking the head of the chain yields the page's next object, never handed out before. |
| `Slab.SlabAllocator.Refill` | Kernel/backup/20230629/src/Memory/SlabAllocatorImpl.cpp:80-94 | A new page becomes the cache's page and disturbs no object. |
| `Slab.SlabAllocator.Request4KPage` | Kernel/backup/20230629/src/Memory/SlabAllocatorImpl.cpp:35-58 | The pointer-stepping loop chains all objects of the page and writes nowhere else. |
| `Slab.SlabAllocator.SetPageSlub` | Kernel/backup/20230629/src/Memory/Slub.cc:50-62 | The indexed loop leaves the same memory. |
| `Slab.ChainLinks` | Kernel/backup/20230629/src/Memory/SlabAllocatorImpl.cpp:48-55 | Later links do not overwrite earlier ones. |
| `Slab.SlabAllocator.FindCache` | Kernel/backup/20230629/src/Memory/SlabAllocatorImpl.cpp:67-74 | The smallest sufficient size class. |
| `Slab.PagesForIsCeiling` | Kernel/backup/20230629/src/Memory/SlabAllocatorImpl.cpp:61 | The page count is the least sufficient one if and only if the rounding sum does not wrap. |
| `Slab.SizesFit` | Kernel/backup/20230629/src/Memory/SlabAllocatorImpl.cpp:6-14 | Every size class is a multiple of a word and at most twice the one below; a page holds as many of its objects as fit and no fewer. |
| `LinkedLists.LinkedList.RemoveAt` | Kernel/inc/stdcxx/linked-list.h:104-139 | Exactly the i-th element disappears, from head, tail or middle; out of range nothing happens. |
| `LinkedLists.LinkedList.Add` | Kernel/inc/stdcxx/linked-list.h:71-85 | One element is appended. |
| `LinkedLists.LinkedList.Get` | Kernel/inc/stdcxx/linked-list.h:187-198 | The i-th value, or null. |
| `LinkedLists.LinkedList.Index` | Kernel/inc/stdcxx/linked-list.h:248-271 | Indexing from the nearer end gives the element that counting from the head gives. |
| `LinkedLists.LinkedList.TakeFirst` | Kernel/inc/stdcxx/linked-list.h:200-213 | Removes and returns the first element; on an empty list returns nothing and leaves a list whose size has wrapped. |
| `LinkedLists.LinkedList.TakeLast` | Kernel/inc/stdcxx/linked-list.h:215-229 | Removes and returns the last element; on an empty list returns nothing and leaves a list whose size has wrapped. |
| `LinkedLists.LinkedList.RemoveValue` | Kernel/inc/stdcxx/linked-list.h:141-170 | Removal by value empties the list. |
| `LinkedLists.EmptyingIsRemoving` | Kernel/inc/stdcxx/linked-list.h:141-170 | That is what removing the value means if and only if the list holds nothing else. |
| `Strtok.StrtokR` | Kernel/backup/20230629/src/String.cpp:149-161 | One call skips delimiters, returns the token up to the next delimiter or the end, and saves where to go on. |
| `Strtok.TokensAreMaximalRuns` | Kernel/backup/20230629/src/String.cpp:149-161 | Calling it until null yields exactly the maximal non-empty delimiter-free runs of the original text in order, and only the delimiters that end a token are overwritten. |
| `Strtok.TokensBecomeStrings` | Kernel/backup/20230629/src/String.cpp:149-161 | In the end every token is a NUL-terminated string with its original characters. |
| `Strtok.StrSpn` | Kernel/backup/20230629/src/String.cpp:130-135 | Length of the leading run of delimiters. |
| `Strtok.StrCspn` | Kernel/backup/20230629/src/String.cpp:138-146 | Length of the leading run without delimiters. |
| `Strtok.StrChr` | Kernel/backup/20230629/src/String.cpp:100-105 | The first occurrence, or null; the terminator is found for NUL. |
| `Sprintf.Utoa` | Kernel/backup/20230629/src/libkern/sprintf.cpp:33-56 | The buffer holds the numeral of u and a terminator, everything behind is untouched; a base outside 2 to 36 gives the empty string. |
| `Sprintf.NumeralDenotes` | Kernel/backup/20230629/src/libkern/sprintf.cpp:43-46 | The numeral denotes u and has no leading zero. |
| `Sprintf.NumeralLength` | Kernel/backup/20230629/src/libkern/sprintf.cpp:43-46 | It has at most as many digits as u has bits, 64 for a word. |
| `Sprintf.CanonicalIsNumeral` | Kernel/backup/20230629/src/libkern/sprintf.cpp:43-46 | Every text without a leading zero is the numeral of what it denotes, so printing is a bijection. |
| `Sprintf.Itoa` | Kernel/backup/20230629/src/libkern/sprintf.cpp:4-31 | The buffer holds sign and numeral of d and a terminator. |
| `Sprintf.IntTextDenotes` | Kernel/backup/20230629/src/libkern/sprintf.cpp:11-22 | In base 10 the text reads back as d, the most negative int included; in other bases as its absolute value; what follows the sign is a numeral without leading zero. |
| `Sprintf.ReverseInPlace` | Kernel/backup/20230629/src/libkern/sprintf.cpp:24-28 | The swapping loop reverses the digits and nothing else. |
| `Timer.Sleep` | Kernel/backup/20230629/src/Drivers/Generic/ACPI/ACPITimerImpl.cpp:46-72 | The wait never ends before the ticks have passed; unless a whole period passed between two readings it ends at the first reading that is late enough; other register lengths are not waited for. |
| `Timer.ClockIsTicks` | Kernel/backup/20230629/src/Drivers/Generic/ACPI/ACPITimerImpl.cpp:53 | The tick count waited for is the last whole tick before the time is up; a negative time wraps to a huge one. |
| `Timer.AdvanceIsGap` | Kernel/backup/20230629/src/Drivers/Generic/ACPI/ACPITimerImpl.cpp:60-68 | What the loop adds is the true gap modulo the period, so never more, and exactly it if and only if the gap is below one period. |
| `Deviations.SplitReachesOutside` | Kernel/src/siberix/mem/page.cpp:11-15 | The offset as written lies beyond the block for every order. |
| `BuddyAsWritten.SplitLoopEnds` | Kernel/src/siberix/mem/page.cpp:5-18 | With the offset repaired, the split loop goes through if and only if the block already has the order asked for or is flagged free; its remainders are not. |
| `BuddyAsWritten.AllocTextStep` | Kernel/src/siberix/mem/page_alloc.cpp:10-34 | A request as written pushes a null if and only if the smallest sufficient block has to be cut and was itself cut off before; otherwise it does to the queues what the repaired allocator does. |
| `BuddyAsWritten.RunTextGoes` | Kernel/src/siberix/mem/page_alloc.cpp:10-34 | A series of requests on a fresh zone goes through as written if and only if each of them, in its turn, does. |
| `BuddyAsWritten.ThirdRequestFails` | Kernel/src/siberix/mem/page_alloc.cpp:10-34 | Three single pages from one fresh 4 MiB block do not. |
| `BuddyAsWritten.NeverStuck` | Kernel/src/siberix/mem/page_alloc.cpp:52-75 | merge never refuses in the coalescing loop while descriptors hold their addresses, so no turn is repeated without effect. |
| `BuddyAsWritten.GoesAstray` | Kernel/src/siberix/mem/page_alloc.cpp:52-76 | Once the loop as written is at a misaligned or lower page it stays so, and queues a block that is misaligned or does not reach the freed frame. |
| `BuddyAsWritten.FreeLoopKeeps` | Kernel/src/siberix/mem/page_alloc.cpp:41-77 | Freeing a live block as written leaves a well-formed zone if and only if the block has the top order, or the page one size below it exists and is not flagged free, and its buddy is not free. |
| `Deviations.WrittenBuddy` | Kernel/src/siberix/mem/page_alloc.cpp:58-60 | The address as written is the buddy's if and only if the block is an upper half; with only the modulus repaired it never is. |
| `Deviations.FlagTestAlone` | Kernel/src/siberix/mem/page_alloc.cpp:63 | Testing the flag alone is right if and only if no smaller free block starts at the buddy. |
| `Deviations.WrongMergeSwallows` | Kernel/src/siberix/mem/page_alloc.cpp:63-71 | Otherwise the merge would swallow another block. |
| `Deviations.SmallBuddyRun` | Kernel/src/siberix/mem/page_alloc.cpp:10-77 | A run of four calls that leads there. |
| `Deviations.PushNeedsDetachedPage` | Kernel/inc/siberix/mem/page.h:92-103 | push as written keeps the queue if and only if the page came without links. |
| `Deviations.PoppedPageSpoilsQueues` | Kernel/inc/siberix/mem/page.h:105-119 | A page popped as written can be pushed elsewhere if and only if it was alone in its queue. |
| `Deviations.TakeAwayGuard` | Kernel/src/siberix/mem/page_alloc.cpp:64-66 | The guard before takeAway recognises a queued page if and only if its queue has another. |
| `Deviations.OldAddForgetsTheTail` | Kernel/backup/20230629/include/Utils/LinkedList.h:76-96 | The older list's Add appends correctly if and only if the list was empty. |
| `Deviations.WrittenMaskIsRight` | Kernel/inc/stdcxx/bitmap.h:25 | The 32-bit mask is the wanted one if and only if the bit is below 31. |
| `Deviations.ClearAllAsWritten` | Kernel/inc/stdcxx/bitmap.h:49-67 | clearAll as written ends if and only if the amount is a multiple of 64, else it runs past every bound; when it ends it stays inside the bitmap, and clears exactly the range if and only if that starts on a word or is empty, whichever mask is used. |
| `Deviations.WrittenIndex` | Kernel/inc/stdcxx/bitmap.h:151-152 | One masked index equals the remainder if and only if the number is a multiple of twice the modulus. |
| `Deviations.WrittenCell` | Kernel/inc/stdcxx/bitmap.h:148-157 | at() as written reaches the right word if and only if that is word 0. |
| `Deviations.ZeroIsAmbiguous` | Kernel/inc/stdcxx/bitmap.h:81-110 | A result of 0 means success if and only if the run at 0 was clear. |
| `Deviations.AddressFieldIsRight` | Kernel/inc/arch-x86_64/hwmem.h:70-74 | The unshifted address field is right if and only if the address is 0. |
| `Deviations.TranslatesFourBytes` | Kernel/backup/20230629/src/Arch/x86_64/MMU.cpp:252 | The unparenthesised translation is right for a writable page if and only if the offset is below 4. |
| `Deviations.ReturnedPageIsNotOurs` | Kernel/src/platforms/x86_64/hwmem.cpp:108 | The returned address is mapped if and only if the next page exists and was allocated before. |
| `Paging.PrecedenceSlip` | Kernel/backup/20230629/src/Arch/x86_64/MMU.cpp:252 | What the unparenthesised expression computes, and when it is the translation. |

## Left out

- BuddyAllocator.BuddyAlloc.constructor: one zone on a 4 MiB boundary with a contiguous descriptor table; several ranges and sections are covered by MemZone only as far as addresses go.
- PageQueues.PageQueue.Push: requires a page without the links that push does not overwrite, which Deviations.PushNeedsDetachedPage proves to be the exact condition; the queue's size is a natural number, not 32 bits wide.
- Bitmaps.Bitmap.constructor: new rows are taken to be zeroed and the size to be the capacity, neither of which the source sets.
- UserPages.X64Pages.Alloc4KPages: the physical addresses stored in directory and table entries are not modelled (the source stores the address of the pointer's slot, unshifted); the walk follows the kernel's own pointers, whose rows exist from the start.
- UserPages.X64Pages.WalkTablesIsWalk: follows the kernel's own pointers, for the same reason; Deviations.AddressFieldIsRight says that the processor, which follows the stored addresses, finds nothing right there.
- KernelSpaces.KernelAddressSpace.KernelMapVirtualMemory4K: heap window only, where every directory has its table; the recursive creation of missing tables is not modelled.
- SmpBoot.ExecuteKeeps: sequentially consistent memory and arbitrary delays instead of weak ordering and the 50 ms and 200 ms sleeps; the descriptor tables, TSS and local APIC set up by TrampolineEntry are not part of the state.
- Slab.SlabAllocator.ClientWrite: memory is a map of words, so a store of part of a word is any new value of that word; one CPU's cache, no locking; the pages come from a supply that never repeats a page, which HeapSearch proves of the heap.
- LinkedLists.LinkedList.Add: element types that are list entries themselves, copies that share nodes, and the stream are not modelled.
- LinkedLists.LinkedList.TakeFirst: the address that the source computes from a null element is not modelled; the result is none.
- LinkedLists.LinkedList.TakeLast: likewise.
- BuddyAsWritten.FreeLoopKeeps: queue links are taken as repaired, and a run that leaves the zone's descriptors or goes above the top order has no result.
- Sprintf.Utoa: the buffer must have room for the text, as the source demands without saying.
- Timer.Sleep: the readings are an arbitrary trace; a trace that ends leaves the call waiting.
- Page flags other than free, kernel and swap, reference to slab fields inside a page descriptor, and page locks.
- CombinePage, FreePhysMemory4K, user AddressSpace::Allocate4KPages and KernelAddressSpace::Allocate4KPages: unfinished, or superseded by the operations above.
- GetIOMapping, SetPageAddress, alignUp, alignDown, buddyOffset: single expressions with nothing to prove beyond what DirectMaps, Paging and Align say.
- The current version's KernMemAlloc, BlockAlloc and X64KernelPages: empty.
- HashMap, Vector, RefPtr, Opt, Function, type traits, calendar records, console, drivers, ACPI and SMBIOS table discovery, boot protocols and file-system headers: device I/O, user interface, or no behaviour to state.
