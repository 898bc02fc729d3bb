# A model of the abOS memory stack, file lookup and console

This project models, in Dafny, the parts of the abOS kernel that turn in-place edits of low-level
structures into something simple, and proves that they do:

- **Paging over the frame bitmap.** `PhysicalMemory` is the bitmap allocator, `PageTables` the 32-bit paging
  format as a transition system over *views* (directory, one leaf entry per page, used frames), `VirtualMemory`
  the mutually recursive `map_address`/`create_page_table` in physical memory, `PagingRuns` what every run of
  mapping, unmapping and allocating keeps, and `FrameRuns` what every run of allocating and freeing does to the counter.
  `MemoryMap`, `InitialTables` and `Boot` are the boot sequence from a memory map to the final translation of all 2^20
  pages. `BitmapFrames` says when the bitmap's own frames are safe from all this, and `LiteralPaging` runs the same
  operations on one memory that holds the bitmap too. `Bitwise` defines the C bit operators on natural numbers.
  `TableZeroing` is the one call that the paging model does not take literally (see below).
- **The heap.** `HeapBlocks` and `HeapRuns` say what tiling, allocation, freeing and one merge pass do to a list of
  blocks, in sums of 32 bits; `HeapNodes` and `HeapWrites` relate linked headers in memory to that list; `PageRanges`
  and `HeapMemory` say when the pages under those headers have frames of their own, and foretell it from the state before
  a call; `HeapHazards` shows what happens otherwise; `Heap` is the imperative allocator, which grows through the bitmap
  and the page tables. Its methods return `intact` beside their result: whether the list still tiles the heap and the
  heap is still backed by memory. The kernel does not compute it; it says where the model stops describing what the
  kernel does. `UsualMachine` joins boot and heap on a machine of 64 MB.
- **The file system.** `DiskFormat` has sectors, inode records and the two inode formulas, byte by byte; `Paths`
  name lookup and path resolution as functions of the disk; `FileCreation`, `FileLookup`, `PathEffects` and
  `LeftoverData` what creating a file does to every path; `FileSystem` the calls themselves, with their buffers and
  caches.
- **Console and numbers.** `Console` is the 80x25 screen as a window onto a growing log; `NumberPrinter` the digit
  loop and the 64-by-32-bit division it uses.

Integers have their C width: `uint32` arithmetic that can wrap is written with an explicit modulus.
Proof bodies use `hide` to keep definitions out of a proof that does not need them.

Things the proofs brought out about the code as it is:

- `prekernel_main` passes a block count as a size when it means to reserve the bitmap's own frames, so it reserves
  none of them (`Boot.ThreeReservations`). They are in use after boot iff no entry of the memory map covers any of
  them, which the map of an ordinary machine does (`MemoryMap.BitmapFramesNotReserved`,
  `MemoryMap.BitmapFreeOnUsualMap`). When they are in use, no run ever writes there (`BitmapFrames.StaysOffBitmap`,
  `LiteralPaging.SafeInMemory`). When one is free, some run makes it a table; made in the first of them, it clears the
  marks of 32768 blocks, and the directory itself is handed out (`LiteralPaging.DirectoryHandedOut`). On the ordinary
  machine that is the 26th frame allocated after boot (`UsualMachine.NextFrame`).
- Boot's own tables and directory keep off the bitmap iff the first fits do; five free blocks in a row below 48 are
  enough (`Boot.PrekernelMain`, `Boot.FiveBelowBitmap`). A map that covers nothing below the bitmap has boot clear its
  own bitmap (`Boot.BootClearsBitmap`).
- The heap grows into the bitmap just as well: on the ordinary machine with its 25th new page
  (`UsualMachine.GrowIntoBitmap`). The header written there frees blocks 0 and 1, and marking block 0 changes the
  header (`HeapHazards.HeaderFreesBlocks`, `HeapHazards.MarkChangesSize`, `HeapHazards.LastSizeChanged`).
- The counter of used blocks is right after boot iff the memory map covers everything that boot reserves
  (`MemoryMap.CounterRightIffCovered`). Entries at 4 GB and above free low frames that the map does not offer
  (`MemoryMap.FreesWhatItOffers`).
- `malloc_init` and `malloc_more_pages` do not look at what the frame allocator returned. With room for page tables the
  heap stays backed by frames of its own iff a first fit for the new pages is there and keeps off the bitmap
  (`HeapMemory.GrowthFollowsRule`); without a fit its pages lead to frame 0 and those behind it. A page table whose frame
  number is a heap page takes that page away (`HeapMemory.TableTakesPage`, `HeapHazards.TableInHeapExample`).
- An allocation whose size plus header wraps around 32 bits, or whose new pages would pass 4 GB, breaks the heap;
  `HeapRuns.KeepsTiling` is the exact condition under which it does not (`Heap.Allocator.MallocNext`), and
  `HeapRuns.FreshKeepsTiling` what that means on a fresh heap.
- While `malloc_head` is 0, the first `malloc` ignores its argument and returns memory in a block that stays marked free;
  the second returns the same address iff its request and two headers fit in 1 MB (`HeapRuns.SecondCallRepeats`,
  `Heap.Allocator.FirstTwoCalls`).
- `malloc_free` frees the head, or nothing, or never returns (`Heap.Allocator.MallocFree`).
- A path that goes on behind a new file's name is looked up in the file's data block, which is not cleared: it may lead
  somewhere (`LeftoverData.LeftoverBehindNewFile`), iff an old entry there does (`LeftoverData.NothingBehindIff`).
- A tab prints 2, 2, 1 or 3 spaces and never ends at a tab stop (`Console.TabMissesStops`).
- The smallest 32-bit integer is the one argument that prints wrongly (`NumberPrinter.PrintedReadsBack`).
- The mask that clears the frame of an entry has 31 bits, so unmapping a page that led to 2 GB or above leaves frame
  0x80000 in its entry, not present (`PagingRuns.UnmapFaults`).
- A new page table is zeroed from an address that still carries the flag bits. That adds an empty table iff the bytes
  it leaves out were zero, and so were those it clears by mistake (`TableZeroing.LiteralZeroingAddsTable`).

## Model

| member | source | states |
|---|---|---|
| Bitwise.OrBit | kernel/memory/physical_memory_manager.c:20 | setting bits with `\|` adds exactly the bits of the mask |
| Bitwise.AndNotBit | kernel/memory/physical_memory_manager.c:28 | clearing bits with `& ~` removes exactly the bits of the mask |
| Bitwise.MaskTest | kernel/memory/physical_memory_manager.c:74 | the test `holder & (1u << k)` is true iff bit k is set |
| PhysicalMemory.FrameAllocator.SetBlock | kernel/memory/physical_memory_manager.c:10-21 | the set of used blocks gains this block and no other changes; word b / 32 of the bitmap grows by 2^(b % 32), unless the block was used |
| PhysicalMemory.FrameAllocator.UnsetBlock | kernel/memory/physical_memory_manager.c:23-29 | the set of used blocks loses this block and no other changes; word b / 32 shrinks by 2^(b % 32), if it was used |
| PhysicalMemory.FrameAllocator.FindFreeBlocks | kernel/memory/physical_memory_manager.c:56-86 | for every bitmap and request, despite the skip over full words: the lowest start of a free run of that length, or -1 iff there is none or the request is 0 |
| PhysicalMemory.FrameAllocator.AllocateBlocks | kernel/memory/physical_memory_manager.c:88-103 | the first fit becomes used and is counted; address 0 iff nothing was found or the run found starts at block 0 |
| PhysicalMemory.FirstFitUnique | kernel/memory/physical_memory_manager.c:56-103 | the first fit is unique, and is block 0 iff a run starts there |
| PhysicalMemory.TakeKeepsDrift | kernel/memory/physical_memory_manager.c:94-98 | allocating a free run keeps the counter as right or wrong as it was, wrap-around included |
| PhysicalMemory.FrameAllocator.FreeBlocks | kernel/memory/physical_memory_manager.c:105-111 | exactly the given blocks become free; the counter goes down by their number |
| PhysicalMemory.GiveBackKeepsDrift | kernel/memory/physical_memory_manager.c:105-111 | freeing keeps the counter's error iff the whole run was in use |
| FrameRuns.ErrorOfRun | kernel/memory/physical_memory_manager.c:88-111 | in every state of every run of allocating and freeing the counter's error is what it was, less the blocks given back that were not in use |
| FrameRuns.CounterStaysRight | kernel/memory/physical_memory_manager.c:88-111 | from a right counter, a state's counter is right iff that number is a multiple of 2^32 |
| FrameRuns.RunFrames | kernel/memory/physical_memory_manager.c:88-111 | any list of the allocator's calls is such a run |
| PhysicalMemory.FrameAllocator.InitializeMemoryRegion | kernel/memory/physical_memory_manager.c:116-133 | the region's whole blocks become free and are discounted; block 0 ends up used, uncounted, unless the region has no whole block |
| PhysicalMemory.FrameAllocator.DeinitMemoryRegion | kernel/memory/physical_memory_manager.c:136-144 | the region's whole blocks become used and are counted, used before or not |
| PhysicalMemory.FrameAllocator.InitializePmm | kernel/memory/physical_memory_manager.c:146-153 | every one of the 2^20 - 1 blocks is used and counted |
| MemoryMap.BootDrift | kernel/prekernel.c:29-43 | for every memory map, the counter's exact error after the reservations: reserved blocks counted twice, minus overlaps discounted twice and a bit past the last block |
| MemoryMap.CounterRightIffCovered | kernel/prekernel.c:29-43 | for a map without overlaps the counter equals the number of used blocks iff the map covers the reserved ranges (all of them but one block, when it reaches the bit behind the last block) |
| MemoryMap.BitmapFramesNotReserved | kernel/prekernel.c:42 | the bitmap's frames are in use after boot iff no entry of the memory map, its addresses cut to 32 bits, covers any of them |
| MemoryMap.BitmapFreeOnUsualMap | kernel/prekernel.c:29-43 | with the map of a machine of 64 MB all 32 of them are free after the reservations, though the counter is right |
| MemoryMap.BitmapHandedOutIffCovered | kernel/prekernel.c:42 | boot or some run after it hands out a frame of the bitmap iff the map covers one |
| MemoryMap.FreesWhatItOffers | kernel/prekernel.c:29-33 | an entry frees exactly the frames it offers iff it is too short for one or page-aligned below 4 GB; it frees others iff it frees any and its base is not so |
| MemoryMap.CoveredIffOffered | kernel/prekernel.c:29-33 | for a map of such entries the blocks freed are those offered |
| MemoryMap.HighEntryFreesLowFrames | kernel/prekernel.c:31 | an entry at 4 GB frees the bitmap's own frames without offering them |
| Boot.ThreeReservations | kernel/prekernel.c:41-43 | the three calls reserve blocks 0-17 and 256-275 and, for the bitmap, nothing |
| Boot.FreeAvailable | kernel/prekernel.c:29-33 | after the loop the used set and the counter are those of the available entries of the map |
| Boot.ReserveMemory | kernel/prekernel.c:16-43 | the used set and the counter once all regions are processed |
| Boot.UnmapLowMemory | kernel/prekernel.c:63-65 | with a directory, the pages from 1 MB to 4 MB fault and all others translate as before |
| Boot.PrekernelMain | kernel/prekernel.c:10-73 | the frames that boot clears are the first fits, and keep off the bitmap iff these do; then: the counter's error; five free blocks in a row give a directory; with it every page below 1 MB maps to itself, 3 GB to 3 GB + 4 MB to 1 MB upward, nothing else is present, and the frames taken are exactly the two tables' and the directory's |
| Boot.FitsAre | kernel/memory/virtual_memory_manager.c:126-166 | boot's frames keep off the bitmap iff the first fits over the blocks in use do |
| Boot.FiveBelowBitmap | kernel/memory/virtual_memory_manager.c:126-166 | five free blocks in a row below the bitmap are enough for that |
| Boot.BootClearsBitmap | kernel/memory/virtual_memory_manager.c:136-137 | a map that covers nothing below the bitmap: the first table is put in it, and the marks of what boot reserved are lost |
| Boot.BitmapFrameLeft | kernel/prekernel.c:42-65 | a frame of the bitmap is free after boot if the map covers more than five of them, or one and boot takes none |
| Boot.BootLeavesBitmapFree | kernel/prekernel.c:42-65 | then a run from the booted kernel makes one of them a page table |
| PageTables.PdIndex | kernel/memory/virtual_memory_manager.h:22 | bits 22-31 of an address, as a directory index |
| PageTables.PtIndex | kernel/memory/virtual_memory_manager.h:23 | bits 12-21 of an address, as a table index |
| PageTables.ShiftedPtIndex | kernel/memory/virtual_memory_manager.c:225 | shifting left by 10 and right by 10 and 12 selects the same index as PT_INDEX |
| PageTables.GetFrame | kernel/memory/virtual_memory_manager.h:24 | masking the low 12 bits rounds an entry down to its frame |
| PageTables.Entry | kernel/memory/virtual_memory_manager.c:211-225 | or-ing flags into an aligned address adds them |
| PageTables.UnmappedEntry | kernel/memory/virtual_memory_manager.h:50 | setting frame 0 and clearing the present bit of an entry e leaves e / 2^31 * 2^31 + e % 4096 - e % 2 |
| PageTables.WriteLeaf | kernel/memory/virtual_memory_manager.c:225 | writing one table word changes the entry of exactly one page of the 2^20, and keeps the tables separate |
| PageTables.WriteTable | kernel/memory/virtual_memory_manager.c:211-212 | pointing an empty slot at a zeroed free frame changes no page's entry and keeps the tables separate |
| PageTables.CreateThenMap | kernel/memory/virtual_memory_manager.c:203-217 | a new table and the nested mapping of its own address, at any depth, amount to one creation step |
| PageTables.CreateThenWrite | kernel/memory/virtual_memory_manager.c:219-227 | a creation step and the leaf write amount to one mapping step |
| VirtualMemory.Mmu.CreatePageTable | kernel/memory/virtual_memory_manager.c:203-217 | existing tables stay, each new one is a frame that was free, no page changes but the identity pages of new tables, each of which reaches itself unless frames ran out; fails, changing nothing, iff a table is needed and no frame is free |
| VirtualMemory.Mmu.MapAddress | kernel/memory/virtual_memory_manager.c:219-227 | on success the page's entry is address or flags and every other page is as before but for identity pages of tables made at any depth; on failure nothing changes; terminates by the set of empty slots |
| VirtualMemory.Mmu.GetPage | kernel/memory/virtual_memory_manager.c:187-201 | the word of the page's table entry; a word of frame 0 when there is no table |
| VirtualMemory.Mmu.UnmapPage | kernel/memory/virtual_memory_manager.c:45-50 | this page's entry keeps its highest bit and its flags but the present bit, nothing else changes, and no page does when there is no table |
| VirtualMemory.Mmu.InitializeVmm | kernel/memory/virtual_memory_manager.c:125-185 | five free blocks in a row suffice; then the walk is the identity below 4 MB, 3 GB to 3 GB + 4 MB from 1 MB on, and nothing else; the frames taken are the first fits for two tables and three blocks of a directory |
| VirtualMemory.Mmu.FillTable | kernel/memory/virtual_memory_manager.c:140-161 | the 1024 entries of a table are consecutive frames, present and writable |
| VirtualMemory.Mmu.Execute | kernel/memory/virtual_memory_manager.c:45-50 | any list of mapping, unmapping and allocating calls is a run of the transition system, and keeps the counter's error |
| InitialTables.InitialTranslation | kernel/memory/virtual_memory_manager.c:140-182 | what all 2^20 pages translate to under the two boot tables |
| InitialTables.PageEntry | kernel/memory/virtual_memory_manager.c:142-146 | the entry built attribute by attribute is the frame plus 3 |
| InitialTables.BootRoom | kernel/memory/virtual_memory_manager.c:126-166 | wherever the first two frames are taken, three in a row are left |
| PagingRuns.TablesNeverMove | kernel/memory/virtual_memory_manager.c:203-227 | in every reachable state tables are distinct used frames apart from the directory, and no slot ever changes its table, while no write reaches the bitmap |
| PagingRuns.TablesNeverHandedOut | kernel/memory/physical_memory_manager.c:88-103 | under that condition no allocation at any point of a run returns the directory or a table of any earlier or later state (composed with the condition: `LiteralPaging.SafeInMemory`) |
| BitmapFrames.StaysOffBitmap | kernel/memory/virtual_memory_manager.c:203-227 | if the bitmap's frames are in use and hold no table at first, no state of any run has a table there or hands one out |
| BitmapFrames.WriteOffBitmap | kernel/memory/physical_memory_manager.c:10-29 | then no write to a table or the directory changes a bit |
| BitmapFrames.BitmapPlace | kernel/memory/physical_memory_manager.h:8 | the bitmap of 2^20 bits from 0x30000 on fills frames 48 to 79 |
| BitmapFrames.SameBitmap | kernel/memory/physical_memory_manager.c:146-153 | the blocks in use as read from those frames are the allocator's, when they hold its words |
| BitmapFrames.HandedOutIffFree | kernel/memory/physical_memory_manager.c:88-103 | some run hands out a frame of the bitmap iff one is free |
| BitmapFrames.BitmapBecomesTable | kernel/memory/virtual_memory_manager.c:203-217 | with one free, a table for the low 4 MB and an empty slot, a run makes it a page table |
| BitmapFrames.ClearingFrees | kernel/memory/virtual_memory_manager.c:211-212 | clearing frame k of the bitmap frees blocks 32768 k to 32768 k + 32767 |
| BitmapFrames.ClearingBreaksSeparation | kernel/memory/virtual_memory_manager.c:211-212 | if the directory or a table is among those, it counts as free from then on |
| LiteralPaging.AppliesStep | kernel/memory/virtual_memory_manager.c:45-227 | on one memory that holds the bitmap too, each operation is a step of the transition system, if the bitmap's frames are in use and hold no table |
| LiteralPaging.MapsStep | kernel/memory/virtual_memory_manager.c:203-227 | the mutual recursion there, nested as deep as there are empty slots |
| LiteralPaging.MemoryRunIsRun | kernel/memory/virtual_memory_manager.c:203-227 | and every run from such a memory is a run |
| LiteralPaging.SafeInMemory | kernel/memory/physical_memory_manager.c:88-103 | in it slots keep their tables, and no allocation hands out the directory or a table |
| LiteralPaging.TableInBitmap | kernel/memory/virtual_memory_manager.c:203-217 | from a memory whose lowest free frame is 48, the next table is made there, and leaves bits for three blocks in the bitmap's first frame |
| LiteralPaging.DirectoryHandedOut | kernel/memory/physical_memory_manager.c:88-103 | a run of that mapping and some allocations hands out the directory |
| PagingRuns.SelfAccess | kernel/memory/virtual_memory_manager.c:211-214 | a table made at any step stays mapped at its own address, whatever happens later, unless a call names that page or that very step took the last frame |
| PagingRuns.MapFrames | kernel/memory/virtual_memory_manager.c:205-214 | one mapping takes exactly one frame per slot it fills, hence at most one per empty slot |
| PagingRuns.MapTranslates | kernel/memory/virtual_memory_manager.c:219-227 | the same for the processor's translation, with present bits at both levels |
| PagingRuns.UnmapFaults | kernel/memory/virtual_memory_manager.c:45-50 | an unmapped page faults and every other page translates as before; its entry names frame 0, but frame 0x80000 if it led to 2 GB or above |
| PageRanges.RangeGrows | kernel/memory/malloc.c:64-67 | mapping one page more extends a mapped range and spoils no earlier page of it, but for tables made on the way; a page is left out only if its own call failed; with enough free frames below a bound, every page gets a table, and the tables lie below it |
| TableZeroing.ZeroNewTable | kernel/memory/virtual_memory_manager.c:212 | the literal call zeroes 4096 bytes from the entry value, flags included |
| TableZeroing.ZeroesTheTableIff | kernel/memory/virtual_memory_manager.c:212 | that zeroes the table and nothing else iff the bytes below the flag value, in it and in the frame behind it, were zero |
| TableZeroing.LiteralBytes | kernel/memory/virtual_memory_manager.c:212 | what the call leaves of the words of both frames, byte by byte |
| TableZeroing.LiteralZeroingAddsTable | kernel/memory/virtual_memory_manager.c:211-212 | with the literal call the new slot adds an empty table and changes no page iff the bytes below the flag value were zero in the new frame, and in the one behind it if that is the directory or a table |
| TableZeroing.FirstEntrySurvives | kernel/memory/virtual_memory_manager.c:212 | a concrete memory in which the first entry survives and the next frame loses its first byte |
| TableZeroing.Memset | kernel/util/string.c:47-54 | exactly the given range is filled |
| HeapBlocks.MergeHalvesRuns | kernel/memory/malloc.c:130-139 | a pass turns every run of k free blocks into ceil(k/2) and leaves the live blocks as they are, in order |
| HeapBlocks.MergeTiles | kernel/memory/malloc.c:130-139 | a pass keeps the tiling and the number of bytes |
| HeapBlocks.SettledIffNoPair | kernel/memory/malloc.c:130-139 | a pass changes nothing iff no two neighbours are free |
| HeapBlocks.PassesNeeded | kernel/memory/malloc.c:130-139 | n passes settle the heap iff its longest free run is at most 2^n |
| HeapBlocks.TilesOrdered | kernel/memory/malloc.c:17-80 | the blocks of a tiling are in address order, inside the heap, and do not overlap |
| HeapRuns.FirstFitting | kernel/memory/malloc.c:147-160 | the first free block of at least the needed size, or none |
| HeapRuns.MallocTiles | kernel/memory/malloc.c:88-177 | exact fit, split and growth keep the tiling, for every 32-bit request that `KeepsTiling` |
| HeapRuns.MallocAddsOne | kernel/memory/malloc.c:142-177 | the live blocks afterwards are the ones before and the new one |
| HeapRuns.MallocGivesFirstFit | kernel/memory/malloc.c:142-177 | the block starts where the first fit did; it is as large as the request when a block is cut, with a free block of the rest 20 bytes behind it; it has the bytes behind the result iff size plus header does not wrap |
| HeapRuns.PageBytesHold | kernel/memory/malloc.c:48-51 | the heap grows by the least multiple of 4096 that holds the request |
| HeapRuns.FirstAllocation | kernel/memory/malloc.c:86-165 | on a fresh heap a request of n bytes returns the address 20 bytes behind the head and leaves a block of n bytes and a free one of 1 MB less n and 40 bytes, or takes the whole block when that would be none |
| HeapRuns.HundredBytes | kernel/memory/malloc.c:86-165 | for one, 100 bytes of a heap at 0x400000: the result is 0x400014, and the free rest starts at 0x400078 |
| HeapRuns.OneCallOnePass | kernel/interrupts/syscalls.c:79-93 | every allocation and every release is followed by one pass, which halves the runs of free blocks as they were left |
| HeapRuns.FreedIsGone | kernel/memory/malloc.c:179-188 | freeing a live block takes it, and no other, from the live blocks |
| HeapRuns.FreeUndoesMalloc | kernel/memory/malloc.c:142-188 | freeing a block right after it was given out leaves the live blocks as they were |
| HeapRuns.AllocationIsSafe | kernel/interrupts/syscalls.c:79-82 | after any call but the first and its merge, the bytes given out belong to one live block that was not live before, and no other live block overlaps it |
| HeapRuns.ResultsApart | kernel/interrupts/syscalls.c:79-82 | the bytes that two allocations of any run give out share none, unless the first block was freed in between |
| HeapRuns.SecondCallRepeats | kernel/interrupts/syscalls.c:73-82 | the first request fits behind its result iff it is at most 1 MB less a header; the second call returns the same address iff its request and two headers fit in 1 MB; when the two ranges are apart |
| HeapRuns.FreshKeepsTiling | kernel/memory/malloc.c:142-177 | exactly the requests that a fresh heap survives; 0xFFFFFFFF bytes is one that it does not |
| HeapRuns.AlwaysTiled | kernel/memory/malloc.c:17-139 | in every state of every run whose requests keep the tiling, the blocks tile the heap, and headers and payloads add up to its size |
| HeapRuns.LiveUntilFreed | kernel/memory/malloc.c:130-139 | a block given out by any call but the first is neither moved nor resized nor dropped until it is freed |
| HeapRuns.LiveApart | kernel/memory/malloc.c:95-121 | two live blocks share no byte |
| HeapNodes.ReplaceSpells | kernel/memory/malloc.c:95-121 | rewriting the headers inside one block replaces just that block in the list |
| HeapNodes.JoinNodes | kernel/memory/malloc.c:133-136 | the two writes of a join turn two neighbours into one block of the tiling |
| HeapNodes.AppendNode | kernel/memory/malloc.c:69-77 | the writes of the grow path append one block |
| HeapNodes.NotTiled | kernel/memory/malloc.c:88-121 | a list that reaches an empty node, or one that ends past the heap, does not tile it, whatever else memory holds |
| HeapWrites.SplitEffect | kernel/memory/malloc.c:88-121 | the writes of a split cut the block in two iff the sum does not wrap and neither part is empty; otherwise nothing tiles the heap |
| HeapMemory.GrowthFollowsRule | kernel/memory/malloc.c:53-67 | with room for page tables in the state before, growing keeps the heap backed by frames of its own iff the new pages have a first fit off the bitmap |
| HeapMemory.GrowthBacked | kernel/memory/malloc.c:53-67 | without: iff besides every new page got a table, provided that no table is made in the bitmap or at a heap page's address |
| HeapMemory.SuppliesFollowRule | kernel/memory/malloc.c:53-67 | supplies for r pages (bitmap in use, r free frames in a row, tables) keep the heap backed for n of them and last for the other r - n |
| HeapHazards.GrowthIntoBitmap | kernel/memory/malloc.c:53-67 | with frame 48 the lowest free one, the new page leads there and the heap is no longer backed |
| HeapHazards.HeaderFreesBlocks | kernel/memory/malloc.c:69-70 | the size written there frees blocks 0 and 1 |
| HeapHazards.MarkChangesSize | kernel/memory/physical_memory_manager.c:20 | marking block 0 changes the size from 4076 to 4077 |
| HeapHazards.LastSizeChanged | kernel/memory/malloc.c:69-77 | after that the list does not tile the heap |
| HeapHazards.TableInHeap | kernel/memory/virtual_memory_manager.c:212-214 | with a heap page's number as the next free frame, the table for a new page takes the heap page |
| HeapHazards.TableInHeapExample | kernel/memory/virtual_memory_manager.c:212-214 | a concrete machine and heap where that happens, bitmap in use |
| HeapMemory.TableTakesPage | kernel/memory/virtual_memory_manager.c:212-214 | a table made in a frame whose own address is a heap page takes that page from the heap |
| HeapMemory.FaultNeverResolved | kernel/interrupts/exceptions.c:128-145 | a header write to a page that was left out faults for ever: the handler can neither take a frame nor make a table |
| Heap.Allocator.MallocInit | kernel/memory/malloc.c:17-43 | one free block over 1 MB, its payload 20 bytes behind its start, mapped page by page to the first fit of 256 frames, or to the frames from 0 on without one; intact iff the heap is backed afterwards, which the state before foretells |
| Heap.Allocator.MallocMorePages | kernel/memory/malloc.c:47-80 | whole pages are appended as one live block and mapped in order to the first fit, or to the frames from 0 on; intact iff the request is not 0, the new end is below 4 GB and the heap is backed afterwards, which the state before foretells; untiled if one of the first two fails and the header can be written |
| Heap.Allocator.SplitBlocks | kernel/memory/malloc.c:88-128 | for every size: the front is cut off, more pages are taken, or the node is live; untiled iff the sum wraps or a part would be empty |
| Heap.Allocator.MallocNext | kernel/memory/malloc.c:142-177 | for every request: with a block that fits, intact iff `KeepsTiling`; with room for tables, iff besides the new pages have a first fit off the bitmap; in general iff besides the heap is backed afterwards. Then first fit, split or growth as specified; untiled if `KeepsTiling` fails and the header can be written; the search after growing finds nothing |
| Heap.Allocator.MergeFreeBlocks | kernel/memory/malloc.c:130-139 | the in-place loop is exactly one merge pass |
| Heap.Allocator.SysMalloc | kernel/interrupts/syscalls.c:63-85 | with `malloc_head` 0 the set-up, whatever was asked for; otherwise an allocation followed by one pass; for every request when that leaves the heap intact, as the state before foretells |
| Heap.Allocator.FirstTwoCalls | kernel/interrupts/syscalls.c:63-85 | with `malloc_head` 0, two calls in a row return the same address iff the second request and two headers fit in 1 MB, and when their bytes are apart; in that case both are served if 256 frames in a row are the first fit off the bitmap and there is room for the table |
| Heap.Allocator.Execute | kernel/interrupts/syscalls.c:63-93 | any list of allocations, releases and passes: blocks and results are those of the run up to the first request that the heap does not survive; it survives them all if they keep the tiling and supplies are there at the start for all the pages they need |
| UsualMachine.StartUp | kernel/prekernel.c:10-73 | on a machine of 64 MB, boot and then `malloc_init` at 4 MB leave an intact heap, exactly which frames are in use, and the 256 heap pages leading to frames 276 to 531 in order, for user, present and writable |
| UsualMachine.NextFrame | kernel/memory/physical_memory_manager.c:88-103 | there, the 26th single frame allocated after boot is the first of the bitmap |
| UsualMachine.GrowIntoBitmap | kernel/memory/malloc.c:47-80 | there, the heap grows by 24 pages and stays intact; the 25th leads into the bitmap |
| Heap.Allocator.MallocFree | kernel/memory/malloc.c:179-188 | the three outcomes of the walk: the head freed and merged, nothing, or no return |
| DiskFormat.InodeRoundTrip | kernel/fs/fs.h:30-41 | an inode encoded into its 64 bytes decodes to itself |
| DiskFormat.RecordRoundTrip | kernel/fs/fs.h:30-41 | any 64 bytes are the encoding of the inode that they decode to |
| DiskFormat.InodeBytes | kernel/fs/fs.h:30-41 | which byte of the record holds what: number, type, size, times and pointers, the lowest byte of a word first |
| DiskFormat.ZeroInodeBytes | kernel/fs/fs_commands.c:165 | the inode returned for "not found" is 64 zero bytes |
| DiskFormat.InodeRecord | kernel/fs/fs.h:13-14 | below 4 GB, inode n is record n % 64 of the block n / 64 blocks behind the first of the table |
| DiskFormat.SectorFormulasAgree | kernel/fs/fs.h:14 | the byte-address formula and the sector formula agree iff the sector is in the first 4 GB |
| DiskFormat.ReadOverWrite | kernel/fs/fs_commands.c:304-313 | after an update this inode reads back exactly and every other inode as before |
| FileLookup.UpdatedInodeFound | kernel/fs/fs_commands.c:152-160 | a lookup that reaches the number of an updated inode returns exactly it |
| Paths.BytesToBlocks | format_disk.c:28-41 | the two-stage rounding is the number of blocks that hold the bytes, no more and no fewer |
| Paths.EntryAt | kernel/fs/fs.h:89-94 | an entry is 64 bytes: its number, the lowest byte first, and from byte 4 on a name that ends at a zero byte |
| Paths.LookupIsFirst | kernel/fs/fs_commands.c:142-163 | a lookup returns the inode of the first entry of the name, in the first block that has one |
| Paths.LookupOfNone | kernel/fs/fs_commands.c:142-165 | without an entry of the name it returns the zero inode |
| Paths.CutOffHarmless | kernel/fs/fs_commands.c:201-209 | the cut-off at 59 characters changes no answer where stored names fit their fields |
| Paths.CutOffAt60 | kernel/fs/fs_commands.c:201-209 | a path with a component of 60 characters or more leads nowhere; for any other the cut-off plays no part |
| Paths.PathSplits | kernel/fs/fs_commands.c:169-244 | for every path, resolving it is looking up its last component in its parent |
| Paths.PathLaw | kernel/fs/fs_commands.c:169-296 | the same with the plain lookup, and exactly when the two inodes are equal |
| FileSystem.Volume.CompareName | kernel/util/string.c:5-12 | zero iff the stored name is the string |
| FileSystem.Volume.GetInodeInDir | kernel/fs/fs_commands.c:128-166 | the inode of the first entry with the name, or the zero inode |
| FileSystem.Volume.GetInode | kernel/fs/fs_commands.c:169-223 | the character loop is the fold of lookups over the components, from the root or the current directory |
| FileSystem.Volume.LastSlashIn | kernel/util/string.c:23-36 | where the last slash is |
| FileSystem.Volume.GetParentInode | kernel/fs/fs_commands.c:225-244 | the inode of the directory part |
| FileSystem.Volume.GetNamePath | kernel/fs/fs_commands.c:286-296 | the part behind the last slash |
| FileSystem.Volume.UpdateInode | kernel/fs/fs_commands.c:304-313 | the disk with this one record replaced |
| FileSystem.Volume.InsertEntry | kernel/fs/fs_commands.c:401-418 | the entry goes in the first empty slot of the directory |
| FileSystem.Volume.CreateFile | kernel/fs/fs_commands.c:338-452 | the three disk writes and the refreshed caches; the inode returned has type 0, 4096 bytes, its number, the data block as first pointer and zeros elsewhere; the directory's inode on disk has 64 bytes more |
| FileCreation.EntryPlaced | kernel/fs/fs_commands.c:401-418 | the entry takes the 64 bytes of the first empty slot of the directory's blocks; with none the disk stays as it is |
| FileCreation.EntryBytes | kernel/fs/fs_commands.c:367-369 | the bytes of the new entry: the number, the lowest byte first, the name, and zeros |
| FileLookup.OtherNameFound | kernel/fs/fs_commands.c:407-413 | a new entry changes no lookup of another name |
| FileLookup.NewNameFound | kernel/fs/fs_commands.c:407-413 | the new name is found in the slot that got it |
| PathEffects.CreatedPathResolves | kernel/fs/fs_commands.c:338-452 | after the call the path resolves to an inode of type 0, 4096 bytes, the given number and data block; that is what is on disk, and so is the directory's inode with 64 bytes more |
| PathEffects.OtherPathsUnchanged | kernel/fs/fs_commands.c:338-452 | every path that does not name the new file resolves to the same inode number as before, through the caches as the call leaves them, as long as it goes through inodes whose entries are in order |
| PathEffects.CacheKept | kernel/fs/fs_commands.c:442-448 | the cached root and current directory stay copies of what is on disk |
| PathEffects.HealthKept | kernel/fs/fs_commands.c:338-452 | the directories are left in order, so that the next file can be created |
| LeftoverData.BehindNewFile | kernel/fs/fs_commands.c:169-223 | a path that goes on behind the new name led nowhere before; afterwards it leads where the new file's data block, read as a directory, says |
| LeftoverData.FoundBehind | kernel/fs/fs_commands.c:338-452 | one more name is found there iff the block on disk before the call holds an entry of that name that leads to an inode |
| LeftoverData.NothingBehindIff | kernel/fs/fs_commands.c:338-452 | all paths behind the new name keep leading nowhere iff it holds no such entry |
| LeftoverData.LeftoverBehindNewFile | kernel/fs/fs_commands.c:338-452 | a concrete disk on which "/a/b" leads nowhere before "/a" is made, and to the root directory afterwards |
| LeftoverData.ExampleIsSound | kernel/fs/fs_commands.c:338-452 | the conditions of these rows can be met: a disk with an empty root directory takes a first file |
| Console.Screen.Scrollback | kernel/stdio.c:47-63 | the overlapping copy moves the rows up by the given number of lines and blanks the rest |
| Console.Screen.Putc | kernel/stdio.c:79-122 | for any character the screen is again the 25-row window of the log, with the cursor inside |
| Console.Screen.Tab | kernel/stdio.c:86-90 | the loop with the moving bound prints exactly 2, 2, 1 or 3 spaces |
| Console.Screen.Clrscr | kernel/stdio.c:65-76 | an empty log |
| Console.Screen.Puts | kernel/stdio.c:124-131 | the window of the log after the whole text |
| Console.HistoryNeverChanges | kernel/stdio.c:47-122 | for any input, lines that have left the window are never written again, and the window only moves down |
| Console.PlainTextKept | kernel/stdio.c:79-122 | character k of a plain text is in column k % 80 of line k / 80 of the log, however often the screen has scrolled |
| Console.LinesKept | kernel/stdio.c:79-122 | lines of plain text, each shorter than 80, with a line end between any two: line k of the text alone is line k of the log, however often the screen has scrolled, and the cursor is behind the last |
| Console.LineEndsMoveDown | kernel/stdio.c:81-84 | from any position, k line ends put the cursor in column 0, k lines down; no line changes, and those added are blank |
| Console.PlainOverwrites | kernel/stdio.c:107-110 | plain text that fits the line replaces exactly the characters from the cursor on |
| Console.ReturnOverwrites | kernel/stdio.c:92-94 | a carriage return stays in the line, and text behind it replaces the line's first characters |
| Console.BackspaceUndoes | kernel/stdio.c:96-105 | a backspace takes the cursor back to the last plain character, over line ends and scrolls, and leaves a space; at the first position of the window it stays there |
| Console.TabMissesStops | kernel/stdio.c:86-90 | a tab never ends in a column that is a multiple of 4 |
| Console.TabIsSpaces | kernel/stdio.c:86-90 | a tab is exactly two, two, one or three spaces, by the column modulo 4 |
| NumberPrinter.TwoStepDivision | kernel/x86.s:16-32 | dividing high word first and then its remainder with the low word gives the exact quotient and remainder |
| NumberPrinter.NoFault | kernel/x86.s:21-23 | the second division never overflows |
| NumberPrinter.Div64By32 | kernel/x86.s:10-34 | the exact 64-bit quotient and 32-bit remainder |
| NumberPrinter.DigitsReadBack | kernel/stdio.c:209-213 | the digits read back to the number and have no leading zero |
| NumberPrinter.CollectDigits | kernel/stdio.c:209-213 | the buffer holds the digits backwards, at most 22 of them |
| NumberPrinter.PrintedReadsBack | kernel/stdio.c:157-223 | for every argument what is printed reads back as the argument iff it is not the smallest 32-bit integer; it starts with a minus sign iff the argument is negative; at most 23 characters |
| NumberPrinter.OneDigit | kernel/stdio.c:155 | a number below the base prints as its digit, letters in lower case |
| NumberPrinter.PrintfNumber | kernel/stdio.c:157-223 | the screen's log grows by exactly that text |

## Left out

- Hardware: port I/O, ATA polling, interrupts, TLB and control registers, colours and the hardware cursor. Disk and screen are arrays.
- VirtualMemory.Mmu.CreatePageTable: zeroes the whole new frame; the code's call starts at an address with the flag bits still in it. `TableZeroing.LiteralZeroingAddsTable` is the exact condition under which that makes no difference.
- VirtualMemory.Mmu.MapAddress: works on the current directory, which is what every caller passes; flags are below 4096; tables are reached physically, with self-access as a property of its own.
- PagingRuns.TablesNeverHandedOut: the bitmap is an array of its own in `FrameAllocator`, so no write to a frame changes it. In the kernel it lies in frames 48-79; `LiteralPaging` has it there, and `BitmapFrames` says when that makes no difference.
- Boot.PrekernelMain: for memory maps whose available entries, cut to 32 bits, stay inside the bitmap's 2^20 bits; one that does not makes the kernel write past the bitmap. Without a directory nothing is said of the pages: the code unmaps through whatever frame 0 holds. When boot's first fits lie in the bitmap, nothing is said of used blocks, counter or pages, because clearing them changes the bitmap (`Boot.BootClearsBitmap`).
- HeapMemory.GrowthFollowsRule: frames that the memory map offers and boot does not reserve are taken to hold nothing but the bitmap.
- HeapRuns.AlwaysTiled: freeing is the step that `malloc_free` is meant to make, marking the matching block and merging, which `Heap.Allocator.Release` does; the literal walk is `Heap.Allocator.MallocFree`.
- Heap.Allocator.MallocMorePages: the result is the header's address, as in the code, so the request fits the block but not its payload alone. The `prev` links and `calloc` are not modelled, nor is the set-up in kernel/kernel.c, which leaves `heap_end` unset.
- Heap.Allocator.Execute: stops at the first request that the heap does not survive; what the code does with a broken list, or with headers in memory it shares, is not modelled. Headers are records at addresses; bytes of overlapping headers are not, which only matters after such a request.
- FileSystem.Volume.CreateFile: takes the inode number and data block that the superblock's bitmaps would give; the bitmap writes, the superblock write and the case of a growing directory are not modelled, and names must leave room for their terminator. `FILE_TYPE_FILE` is taken for `file_type_file`, 0, of kernel/fs/fs.h:9.
- FileSystem.Volume.GetInodeInDir: reads past the disk or behind an eighth pointer give zeros.
- FileSystem.Volume.CompareName: kernel/util/string.c names an undeclared variable in the loop condition; the loop is modelled with the parameters.
- `map_page`, `alloc_page`, `free_page`, `sys_close`, the open-file tables, `load_file`, `save_file` and `print_dir`: not called on the modelled paths, or addresses and bit numbers are confused.
- `kprintf`'s format scanner, the shell, the keyboard, the ELF declarations and the rest of the formatter.
