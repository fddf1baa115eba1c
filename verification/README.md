# Neodymium: memory and process core, modelled and proved

This project models the core of the Neodymium kernel in Dafny and proves what its parts promise
each other:

- **Heap** (`src/kernel/heap.c`). Memory is a sequence of 32-bit words with the block headers and the free list in
  it, reached by aligned accesses alone (`HeapMemory`, `HeapStray`, `HeapAllocator`); it refines a tiling of
  `[HEAP_START, heap_top)` by free and live tiles (`HeapTiling`). The laws over all runs of `malloc` and `free`
  are proved of the tiling, and `HeapLaws` says what a caller may count on in each call. A block is free
  because it is on the list; the low bit of `size` is not relied on, as an unsplit block is handed out with
  the bit still set.
- **Physical pages** (`src/kernel/pmm.c`). The 32-bit words of the bitmap (`WordBits`, `PageBits`) refine a
  set of page numbers with an exact free count (`Pmm`), which starts from the boot loader's memory map with its
  32-bit arithmetic (`BootMap`).
- **Virtual memory** (`src/kernel/vmm.c`). Physical memory is a sequence of frames of 1024 words; directories,
  tables and pages are frames. `VmmModel` says what each operation does, `VmmInvariant` labels every frame
  with the one slot or entry that may name it, `VmmSteps`, `VmmClone` and `VmmRuns` prove that labels survive
  every operation and what follows from them, `VmmRelease` lists what destroying a space frees, `VmmShared` says
  what a mapping followed by destroy gives back, `VmmCount` counts the frames a clone takes, and `Vmm` is the code
  itself, proved against `VmmModel` on top of `Pmm`. `VmmExamples` holds machines on which promises fail.
- **ELF loader** (`src/kernel/elf.c`). Every byte is read and written through the page tables of the current
  directory, headers included (`WordBytes`, `ElfMemory`, `ElfModel`, `Elf`, `ElfLoader`). `ElfCount` counts the
  frames a load takes, and `ElfExample` is a small machine with an image to load.
- **Scheduler** (`src/kernel/sched.c`). A transition system with the steps tick, create, fork, exit, sleep and
  wait (`SchedModel`), what each step does to every task, field by field (`SchedLaws`), laws over its runs
  (`SchedRuns`), and the linked ring of task objects that performs the steps (`Sched`).
- **Keyboard** (`src/drivers/ps2.c`). The ring shared by the interrupt handler and a reader, interleaved at
  every memory access of the reader (`KeyMap`, `Ps2`), and what each key gives (`KeyLaws`).
- **Consoles** (`src/drivers/fbcon.c`, `src/drivers/vga.c`). Both grids are windows of one terminal that
  never scrolls (`Terminal`, `Fbcon`, `Vga`, `Consoles`).

Where a promise does not hold of the code as it is, the code is modelled as it is, a member gives an input on
which the promise fails, and another says for all inputs exactly when it holds:

- A request close to 4 GiB wraps to a small block (`HeapTiling.PayloadCoversRequestIff`,
  `HeapTiling.WrappedRequestExample`).
- A request a little smaller makes malloc grow the heap by nothing and write a header at the heap top
  (`HeapTiling.GrowthWrapsIff`). That faults (`HeapTiling.WrappedGrowthExample`), unless a growth that failed
  half-way has left a page mapped there: then malloc returns a pointer past the heap and puts the bytes below the
  top on the free list, live or not (`HeapTiling.MallocIsSoundIff`, `HeapTiling.StrayOverlapsLiveIff`,
  `HeapAllocator.StrayRequestExample`).
- `vmm_alloc_page` returns a frame although the mapping silently failed (`VmmRuns.AllocMapsIff`,
  `VmmExamples.UnmappedAllocExample`). Therefore
  - malloc can fault, or hand out a block whose last page is not mapped (`HeapTiling.MallocIsSoundIff`,
    `HeapTiling.HollowBlockExample`);
  - a load can report success with no stack mapped, exactly when one frame is missing and it is that of a table
    for the stack alone (`Elf.LoadIsFaithful`, `ElfExample.StacklessLoadExample`);
  - a load can fault in the kernel instead of returning -1, exactly when going through the segment pages in order
    comes to one with a frame left for it and none for its table (`Elf.LoadIsFaithful`,
    `ElfExample.FaultingLoadExample`).
- A clone that runs out of frames in the middle of a table releases frames named by stale words, among them
  pages still mapped by its source. Whether it fails, where, and which words are read as entries is decided by
  counts on the machine before the call (`VmmRuns.CloneSucceedsIff`, `VmmRuns.FailedCloneRestoresIff`,
  `VmmExamples.StaleCloneExample`).
- A mapping with `VMM_USER` in the kernel's directory can turn shared slots into private ones that alias the
  kernel's tables (`VmmRuns.KernelMapSafeIff`, `VmmExamples.KernelUserMapExample`).
- A mapping into a slot shared with the kernel copies the kernel's table, and destroying the space then frees the
  pages the kernel maps there (`VmmShared.SharedMapFreesKernelPage`, `VmmExamples.SharedMapExample`). A program
  linked at 0x08048000 meets this on a machine with 256 MiB, where that slot is identity-mapped
  (`VmmExamples.IdentityPageIsFreed`). `VmmShared.MapThenDestroyIff` says exactly when a page allocation followed
  by destroy leaves in use what it should.
- A page that a reserved range only partly covers can be left free (`BootMap.OverlappedPageIsFreeIff`,
  `Pmm.PartlyReservedPageExample`). A reserved range that reaches into the last page below 4 GiB is ignored
  (`BootMap.EntryIsHonouredIff`, `Pmm.LastPageEntryExample`, `Pmm.WrappedEntryExample`), and one that starts there
  and wraps has pages from 0 on marked instead (`BootMap.EntryMarksOnlyItsPagesIff`, `Pmm.StrayEntryExample`).
- A sleep whose deadline wraps ends at the next tick (`SchedRuns.SleepCutShortIff`,
  `SchedRuns.SleepCutShortExample`).

## Model

| member | source | states |
|---|---|---|
| HeapTiling.SizeArithmetic | src/kernel/heap.c:32-33 | every block size is an 8-aligned multiple of at least 16, and growth is the least number of pages that holds it, unless it wraps |
| HeapLaws.NeededIsLeast | src/kernel/heap.c:32-33 | a block is the least multiple of 8 that holds the request and its header, 16 bytes at least, and 16 for the sizes that wrap |
| HeapLaws.GrowthIsLeast | src/kernel/heap.c:55-55 | growth is the least number of pages that holds the block, and nothing for blocks of the last page of sizes |
| HeapTiling.GrowthWrapsIff | src/kernel/heap.c:55-55 | growth wraps to zero bytes exactly for requests within one page of 4 GiB |
| HeapTiling.TilingIsPartition | src/kernel/heap.c:15-105 | what the heap invariant means: an address is in the heap range iff it lies in a tile, and in one only |
| HeapTiling.CarvePreserves | src/kernel/heap.c:38-50 | splitting a free block, or handing it out whole, keeps the tiling exact, aligned and coalesced |
| HeapTiling.GrowPreserves | src/kernel/heap.c:55-78 | growing keeps the tiling, and no two free blocks touch even when the heap ended in a free block |
| HeapTiling.MallocPreserves | src/kernel/heap.c:30-79 | malloc keeps the heap invariant for every size and whatever pages are available, as long as it returns |
| HeapTiling.FreePreserves | src/kernel/heap.c:81-105 | free keeps the heap invariant: merging with either neighbour, both or none leaves no two free blocks touching |
| HeapTiling.RunsPreserveTiling | src/kernel/heap.c:30-105 | after any sequence of mallocs that return as they should and frees of live pointers, half-way growths included, the blocks exactly tile the heap, coalesced |
| HeapTiling.QuiescentHeapIsOneBlock | src/kernel/heap.c:81-105 | in any run, once nothing is live the free list is one block over the whole heap |
| HeapTiling.MallocReturnsFreshBlock | src/kernel/heap.c:30-79 | the payload is 8-aligned, its block overlaps no live block, and every live block is still there |
| HeapLaws.MallocHandsOutIff | src/kernel/heap.c:30-79 | malloc hands out a block iff a free block is large enough, and then from the lowest such, or the pages to grow by can be had, and then at the old top; it gains exactly that block, of less than 16 bytes more than needed; otherwise every block stays and the answer is null unless only a table is short |
| HeapLaws.MallocFaultsIff | src/kernel/heap.c:55-78 | malloc faults iff a header it writes, at the top or behind the new block, falls on the page without a table, or growth wraps and nothing is mapped where it writes |
| HeapTiling.PayloadCoversRequestIff | src/kernel/heap.c:32-33 | the payload holds the requested bytes iff the padded size does not wrap 32 bits |
| HeapTiling.WrappedRequestExample | src/kernel/heap.c:32-33 | on the heap as heap_init leaves it, malloc of 4 GiB less 8 bytes succeeds with a payload of 8 bytes |
| HeapTiling.WrappedGrowthFitsNothing | src/kernel/heap.c:34-55 | a request whose growth wraps to nothing fits no block of any well-formed heap, so it always reaches the growth that adds no page |
| HeapTiling.MallocIsSoundIff | src/kernel/heap.c:30-79 | malloc returns, and what it returns is null or a live block, iff its growth neither wraps to nothing nor ends in a page that got a frame and no table; otherwise it faults, or returns the address past the heap top, which is no live block (when it may return null is MallocHandsOutIff) |
| HeapTiling.WrappedGrowthExample | src/kernel/heap.c:55-63 | malloc(0xFFFFF000) on the heap as heap_init leaves it grows by nothing and faults |
| HeapTiling.StrayOverlapsLiveIff | src/kernel/heap.c:68-74 | the block that such a request puts on the free list when a page is mapped at the heap top reaches into live memory iff the last block is live, or shorter and not the only one |
| HeapTiling.HollowBlockExample | src/kernel/heap.c:57-63 | a heap at the end of its slot with two frames left hands out a block whose second page is not mapped |
| HeapTiling.FreeUndoesMalloc | src/kernel/heap.c:34-53 | freeing what malloc just returned without growth restores every tile, hence the free list |
| HeapLaws.FreeTakesAway | src/kernel/heap.c:81-105 | free takes away exactly the live block behind the pointer; the others and the range stay |
| HeapLaws.LiveTilesDetermine | src/kernel/heap.c:15-105 | the range and the live blocks determine the whole heap, so every free block is where it must be after any malloc or free |
| HeapMemory.FreeOfOrdered | src/kernel/heap.c:88-91 | the free list is strictly address-ordered |
| HeapMemory.NeighbourTests | src/kernel/heap.c:93-101 | the address comparisons free makes with its list neighbours decide exactly whether the adjacent tiles are free |
| HeapMemory.WalkFindsSplit | src/kernel/heap.c:86-91 | the walk of free stops with exactly the free blocks below the freed one behind it |
| HeapMemory.Splice | src/kernel/heap.c:45-47 | rewriting the two links around a stretch of the list yields exactly the list with that stretch replaced |
| HeapMemory.CarveRepresents | src/kernel/heap.c:38-50 | the header and link writes of a split leave memory spelling out the carved tiling, and every live block's words unchanged |
| HeapMemory.GrowRepresents | src/kernel/heap.c:61-78 | the writes of a growth leave memory spelling out the grown tiling, and every live block's words unchanged |
| HeapMemory.MergeRepresents | src/kernel/heap.c:93-104 | the writes of a free leave memory spelling out the merged tiling, and every other live block's words unchanged |
| HeapStray.PayloadWriteRepresents | src/kernel/heap.c:8-11 | a store to the payload of a live block leaves headers, links and tiling as they are |
| HeapStray.StrayEndsList | src/kernel/heap.c:68-74 | the writes of a request that wraps leave a block below the heap top as the end of the free list; if it is the last free block the list becomes a circle |
| HeapStray.StrayHitsLiveTile | src/kernel/heap.c:61-74 | every word of a live block survives those writes but the two that become a header, which are overwritten |
| HeapAllocator.Allocator.constructor | src/kernel/heap.c:15-28 | heap_init yields one free block over the initial pages, or an empty heap with no free list when a page is missing |
| HeapAllocator.Allocator.ReadWord | src/kernel/heap.c:8-11 | every read of a header or link is a word-aligned read inside the heap |
| HeapAllocator.Allocator.WriteWord | src/kernel/heap.c:8-11 | every write of a header or link is word-aligned, inside the heap, and changes that word alone |
| HeapAllocator.Allocator.WritePayload | src/kernel/heap.c:8-11 | the owner of a live block may store any word of its payload: the heap stays valid, and no other word changes |
| HeapAllocator.Allocator.FindFit | src/kernel/heap.c:34-53 | the walk finds the first listed block that fits and the link that points to it, or the end of the list |
| HeapAllocator.Allocator.Unlist | src/kernel/heap.c:39-48 | splits the block behind a link, or unlinks it when the rest could not hold a block |
| HeapAllocator.Allocator.TakeListed | src/kernel/heap.c:38-50 | hands out the first free tile that fits and touches no word of a live block |
| HeapAllocator.Allocator.RequestPages | src/kernel/heap.c:57-60 | passes iff every page growth needs gets a frame, mapped or not, and yields the contents of the mapped ones in order |
| HeapAllocator.Allocator.FindLink | src/kernel/heap.c:64-65 | the walk stops at the link between the blocks below an address and those above it |
| HeapAllocator.Allocator.GrowBlock | src/kernel/heap.c:55-79 | grows the heap by exactly the needed pages and takes the block from them; a page short, it leaves those it got mapped beyond the top, and faults or hands out a hollow block if only a table is short |
| HeapAllocator.Allocator.GrowHollow | src/kernel/heap.c:57-78 | a block whose last page has no memory behind it: header written, heap top moved, free list as before |
| HeapAllocator.Allocator.Wrap | src/kernel/heap.c:55-78 | a request whose growth wraps faults iff no page is mapped at the heap top or its remainder would land below the heap; otherwise its writes are exactly the stray ones |
| HeapAllocator.Allocator.Malloc | src/kernel/heap.c:30-79 | malloc on memory gives the answer that MallocHandsOutIff and MallocFaultsIff say; whenever it returns as it should memory spells out the new tiling and no word of any live block changes, and otherwise the words it leaves behind are stated |
| HeapAllocator.StrayRequestExample | src/kernel/heap.c:55-78 | with one live block and a page left mapped by a failed growth, malloc(0xFFFFF000) makes the free list point into the live block, overwrites a word of it, and returns a pointer past the heap |
| HeapAllocator.Allocator.Release | src/kernel/heap.c:93-104 | a freed tile is merged with exactly the free neighbours it has |
| HeapAllocator.Allocator.Free | src/kernel/heap.c:81-105 | free on memory is the tiling's free, null included, and no word of any other live block changes |
| PageBits.BitAtAfterWrite | src/kernel/pmm.c:65-66 | setting or clearing the bit of one page changes the mark of that page and no other |
| PageBits.TiedSet | src/kernel/pmm.c:66-66 | a bitmap that marks a set of pages marks the set with the page added after its bit is set |
| PageBits.TiedClear | src/kernel/pmm.c:77-77 | and the set with the page removed after its bit is cleared |
| Pmm.PageAllocator.constructor | src/kernel/pmm.c:10-59 | after pmm_init, for every map, the number of pages is that of TotalMemIsLargestEnd, and a page is used iff it is page 0, a kernel page, has its base in a non-available range that can be rounded, or is hit by a stray entry; the free count is exact despite overlaps |
| Pmm.PageAllocator.MarkBoot | src/kernel/pmm.c:28-58 | marks page 0, the kernel's pages and those of the map, and no other |
| Pmm.PageAllocator.ScanTotal | src/kernel/pmm.c:12-23 | the loop computes the total that TotalMemIsLargestEnd describes |
| BootMap.TotalMemIsLargestEnd | src/kernel/pmm.c:12-26 | total memory is at least every entry end modulo 2^32 and is one of them; the size from mem_upper iff no entry has a nonzero end; the pages are that over 4096, capped at 2^20 |
| BootMap.KernelPagesOverlapImage | src/kernel/pmm.c:30-37 | the kernel pages are exactly those that its image overlaps |
| Pmm.PageAllocator.MarkEntries | src/kernel/pmm.c:39-58 | marks exactly the pages the walk of the map selects, counting each once |
| Pmm.PageAllocator.AllocPage | src/kernel/pmm.c:61-72 | takes the lowest free page, and fails only when none is free |
| Pmm.PageAllocator.FreePage | src/kernel/pmm.c:74-80 | removes that page from the used set, ignores free pages and pages outside memory, and keeps the count exact |
| Pmm.PageAllocator.AllocPages | src/kernel/pmm.c:82-102 | takes the lowest run of the requested length; fails exactly when there is none or the count is 0 |
| Pmm.PageAllocator.FreePages | src/kernel/pmm.c:104-113 | frees exactly the pages of the run, counted modulo 2^32 |
| Pmm.RunNeedsFreePages | src/kernel/pmm.c:83-84 | the early test on the free count never turns away a request that some run could serve |
| Pmm.NullIsAmbiguousIff | src/kernel/pmm.c:61-72 | a successful allocation looks like a failure iff page 0 is free |
| PageBits.TiedDetermines | src/kernel/pmm.c:61-113 | the set of used pages determines every word of the bitmap, so whatever restores the set restores the bitmap |
| Pmm.AllocThenFree | src/kernel/pmm.c:82-113 | allocating a run and freeing it restores every word of the bitmap, the free count and the set of used pages |
| Pmm.AllocatedRunDoesNotWrap | src/kernel/pmm.c:104-113 | the page numbers freed for an allocated run are that run, with no wrap-around |
| BootMap.MarksAreBasePages | src/kernel/pmm.c:42-57 | for every map, the rounding of the marking loop selects exactly the pages with their base in a non-available range that ends before the last page below 4 GiB, none for other ranges, save that one that starts in that page and wraps selects the pages from 0 up to its end |
| BootMap.MarkedIsReserved | src/kernel/pmm.c:39-58 | over the whole map, a page is marked iff its base lies in such a range or a stray entry hits it |
| BootMap.BootPages | src/kernel/pmm.c:24-58 | the used pages after boot, in terms of page 0, the kernel and the ranges of the map, for every map |
| BootMap.OverlappedPageIsFreeIff | src/kernel/pmm.c:42-57 | a page is left free iff it is not page 0, the kernel's or hit by a stray entry, and every non-available range that overlaps it starts past its base or cannot be rounded |
| BootMap.FirstPageIsMarkedIff | src/kernel/pmm.c:47-47 | the page a non-available range starts in is marked for it iff the range starts page-aligned and can be rounded |
| BootMap.EntryIsHonouredIff | src/kernel/pmm.c:42-57 | a non-available entry has all its base pages marked iff it ends before the last page below 4 GiB or starts past the base of the last page of memory |
| BootMap.EntryMarksOnlyItsPagesIff | src/kernel/pmm.c:42-57 | only pages of its own range are marked for an entry iff it is not stray or ends at 4 GiB |
| Pmm.PartlyReservedPageExample | src/kernel/pmm.c:47-48 | pmm_init on a map with a reserved range at 0x9FC00 leaves page 0x9F, which the range overlaps, free |
| Pmm.WrappedEntryExample | src/kernel/pmm.c:44-48 | pmm_init on a map with a reserved range from 4 MiB to 4 GiB leaves page 0x500 inside it free |
| Pmm.LastPageEntryExample | src/kernel/pmm.c:48-48 | pmm_init on a map with a reserved range that ends at 0xFFFFF800 leaves a page inside it free |
| Pmm.StrayEntryExample | src/kernel/pmm.c:47-48 | pmm_init on a map with a reserved range from 0xFFFFF800 that wraps marks page 3 |
| VmmModel.WordRoundTrip | src/kernel/vmm.c:60-70 | frame number and flags determine a 32-bit entry and are determined by it |
| VmmModel.BitsOfWord | src/kernel/vmm.c:37-38 | present, writable and user are bits 0, 1 and 2 of an entry, and the frame its upper 20 bits |
| VmmInvariant.PrivateTablesAreNotShared | src/kernel/vmm.c:46-71 | what ownership means: a private table is reachable from one slot of one directory only, and is marked used |
| VmmInvariant.OwnedIsLabelled | src/kernel/vmm.c:123-136 | everything destroy would release belongs to the destroyed space alone |
| VmmRelease.DestroyFreesOnce | src/kernel/vmm.c:123-136 | the calls of pmm_free_page that destroy makes free each frame of the space once, and each was in use |
| VmmRelease.DestroyKeepsKernel | src/kernel/vmm.c:123-124 | null and the kernel's directory are never destroyed, and destroying writes no memory |
| VmmSteps.PrivatiseKeeps | src/kernel/vmm.c:52-62 | copying a shared kernel table keeps ownership and every translation of every directory |
| VmmSteps.AddTableKeeps | src/kernel/vmm.c:64-69 | adding an empty table keeps ownership and every translation of every directory |
| VmmSteps.MapKeeps | src/kernel/vmm.c:142-167 | mapping keeps ownership, makes the page translate to the frame, and changes no other translation anywhere; a failed mapping changes nothing |
| VmmRuns.MapSlotFlags | src/kernel/vmm.c:46-70 | after a mapping its slot is present, open to users iff it was or the mapping is, and writable iff it is new or was writable; no other slot changes |
| VmmRuns.MapThenGetPhys | src/kernel/vmm.c:99-107 | after a map in a space, vmm_get_phys gives the frame plus offset there and is unchanged for every other page and directory |
| VmmRuns.MapSucceedsIff | src/kernel/vmm.c:142-167 | a mapping succeeds iff the slot has its own table or a frame is free; failing, it changes nothing |
| VmmRuns.AllocMapsIff | src/kernel/vmm.c:83-89 | vmm_alloc_page returns a frame iff one is free, and maps it iff the slot has its own table or a second frame is free; otherwise the frame leaks |
| VmmExamples.UnmappedAllocExample | src/kernel/vmm.c:83-89 | with one frame free and no table for the slot, any page allocation returns the frame and the page stays unmapped |
| VmmRuns.KernelMapSafeIff | src/kernel/vmm.c:46-71 | a map in the kernel's directory keeps tables unaliased iff VMM_USER changes nothing there or no space shares the slot |
| VmmRuns.CreateCopiesKernel | src/kernel/vmm.c:109-116 | a new directory is to be had iff a frame is free; every present kernel slot is in it bit for bit and the others are zero, and it translates every page as the kernel's directory does |
| VmmExamples.KernelUserMapExample | src/kernel/vmm.c:46-71 | a user mapping in the kernel's directory leaves a space with a private slot that names the kernel's table, and no labelling of the frames exists any more |
| VmmClone.CloneTableCopies | src/kernel/vmm.c:186-194 | the inner loop of clone fills the new table with the source's flags and fresh frames with the source's contents, up to where frames ran out |
| VmmClone.RollBackReleases | src/kernel/vmm.c:195-203 | the rollback releases the half-filled table, its fresh pages, and whatever its stale entries name |
| VmmClone.CloneDirResult | src/kernel/vmm.c:179-209 | at every point of a clone the copied slots are deep copies in frames new to the machine; a failing clone ends with the used frames less the stale ones |
| VmmCount.NextIsNth | src/kernel/pmm.c:61-72 | while a machine takes its lowest free frames, the next one is the n-th lowest that was free at the start |
| VmmCount.CloneTableCounts | src/kernel/vmm.c:186-194 | the inner loop takes one frame per present entry and stops at the present entry where the frames run out, read off the source table |
| VmmCount.CloneDirCounts | src/kernel/vmm.c:179-203 | how the directory loop ends, complete, at a table or inside one and at which entry, is what the counts on the machine before the call say |
| VmmRuns.CloneIsDeepCopy | src/kernel/vmm.c:176-209 | a successful clone maps the same pages with the same flags to pairwise distinct fresh frames with equal contents, has the kernel's slot bit for bit or zero in every slot that is not the source's own, and leaves every frame in use untouched |
| VmmRuns.CloneSucceedsIff | src/kernel/vmm.c:176-209 | a clone succeeds iff the free frames are at least one, plus one for each private table and one for each of its present entries |
| VmmRuns.CloneThenDestroyRestores | src/kernel/vmm.c:123-209 | destroying a clone restores the used frames exactly, and the clone owns exactly what it took |
| VmmRuns.FailedCloneRestoresIff | src/kernel/vmm.c:179-203 | when the frames do not suffice, the used frames afterwards are those before less the stale ones, found before the call in the free frame that the count makes the half-filled table; so they are restored iff the stale ones were not in use |
| VmmRuns.TableFailureRestores | src/kernel/vmm.c:179-184 | a clone that fails for want of a directory or of a table, rather than of a page, restores the used frames whatever memory holds |
| VmmExamples.StaleCloneExample | src/kernel/vmm.c:195-203 | a machine of seven frames where a failed clone frees a page its source still maps |
| VmmRuns.SharedMapKeepsIff | src/kernel/vmm.c:52-62 | the labels of frames extend over a mapping into a slot shared with the kernel iff the kernel's table has no other present entry |
| VmmRuns.MapSharedKeeps | src/kernel/vmm.c:142-167 | and then it keeps ownership with exactly the frames taken added |
| VmmShared.SharedMapFreesKernelPage | src/kernel/vmm.c:52-62 | after such a mapping, destroying the space frees every page the kernel's table maps elsewhere, and the kernel still maps it |
| VmmShared.SharedMapThenDestroyIff | src/kernel/vmm.c:123-167 | such a mapping followed by destroy leaves in use exactly what was and was not the space's own iff every other present entry of the kernel's table names a frame that is free or the space's own |
| VmmShared.MapThenDestroyIff | src/kernel/vmm.c:123-174 | for every space and page, allocation then destroy does so iff no frame was free, or the page gets mapped and either its slot is not the kernel's and it was unmapped before, or the entries of the kernel's table are harmless |
| VmmExamples.SharedMapExample | src/kernel/vmm.c:52-62 | a machine of seven frames where mapping page 1 in a space and destroying it frees the frame the kernel maps as page 0 |
| VmmExamples.IdentityPageIsFreed | src/kernel/vmm.c:27-62 | with memory identity-mapped by the kernel, mapping a page of a shared slot and destroying the space frees every other frame of those 4 MiB |
| VmmRuns.StepKeeps | src/kernel/vmm.c:46-209 | every create, map, clone and destroy keeps ownership of tables and pages |
| VmmRuns.RunsKeepOwnership | src/kernel/vmm.c:46-209 | over all runs, each slot of a space is absent, the kernel's, or a table no other directory reaches, and all are marked used |
| VmmRuns.AllocStepOwns | src/kernel/vmm.c:169-174 | a page allocation that got its table adds exactly the frames it took to the space |
| VmmRuns.BuildThenDestroy | src/kernel/vmm.c:109-136 | destroying a space built by page allocations at distinct pages in kernel-absent slots, each with its own flags, frees exactly what building it took, each frame once |
| Vmm.AddressSpaces.Init | src/kernel/vmm.c:27-44 | succeeds iff the free frames suffice for the directory and a table for every 1024 frames, and takes just these; the directory maps every existing frame to itself, present, writable and open to users, unaliased, with later slots absent |
| Vmm.AddressSpaces.MapPageIn | src/kernel/vmm.c:142-167 | performs the mapping step of the model, silent failures included |
| Vmm.AddressSpaces.MapPage | src/kernel/vmm.c:46-71 | the same in the current directory |
| Vmm.AddressSpaces.AllocPage | src/kernel/vmm.c:83-89 | performs the allocation step of the model in the current directory |
| Vmm.AddressSpaces.AllocPageIn | src/kernel/vmm.c:169-174 | performs the allocation step of the model in any directory |
| Vmm.AddressSpaces.GetPhysical | src/kernel/vmm.c:99-107 | the translation of the model under the current directory, null where there is none |
| Vmm.AddressSpaces.CreateSpace | src/kernel/vmm.c:109-116 | performs the creation that CreateCopiesKernel describes |
| Vmm.AddressSpaces.DestroySpace | src/kernel/vmm.c:123-136 | releases exactly the directory, its private tables and their pages |
| Vmm.AddressSpaces.ClonePages | src/kernel/vmm.c:186-194 | copies a table's pages as the model does, stopping where frames run out |
| Vmm.AddressSpaces.CloneSpace | src/kernel/vmm.c:176-209 | performs the clone that CloneSucceedsIff, CloneIsDeepCopy and FailedCloneRestoresIff describe, both rollbacks included |
| Vmm.CloneThenDestroy | src/kernel/vmm.c:123-209 | clone then destroy on the running allocator restores every word of the bitmap, the free count and every frame in use; the clone succeeds iff the free count reaches the count of frames it needs |
| Vmm.AddressSpaces.SwitchTo | src/kernel/vmm.c:118-121 | changes the current directory and nothing else |
| WordBytes.LittleEndianIsLawful | src/kernel/elf.c:29-30 | replacing one byte of a word changes that byte alone |
| ElfMemory.StoreKeeps | src/kernel/elf.c:25-30 | a byte stored to a loaded page is read back there, and no other byte of any loaded page changes |
| ElfMemory.AllocKeeps | src/kernel/elf.c:20-24 | each page allocation maps the page to a new frame leaving every other loaded page and all earlier data as they were, or fails only for want of a frame |
| ElfCount.MapCounts | src/kernel/vmm.c:142-167 | a mapping takes a frame iff its slot was absent, adds that slot and no other, and fails iff it needs a frame and none is free |
| ElfCount.AllocSpends | src/kernel/vmm.c:83-89 | a page allocation maps its page iff the free frames reach its cost: one, and one more if the slot is absent |
| ElfModel.MapPagesLoads | src/kernel/elf.c:20-26 | the pages of a segment end up mapped and zero, earlier pages unchanged; stopping early means no frame is free |
| ElfModel.SegmentPagesOverlap | src/kernel/elf.c:18-20 | the pages of a segment are exactly those that its addresses overlap |
| ElfModel.CopyKeeps | src/kernel/elf.c:29-29 | the copy loop puts each image byte in its place and changes no other loaded byte |
| ElfModel.ClearKeeps | src/kernel/elf.c:30-30 | the clearing loop zeroes the rest of the segment and changes no other loaded byte |
| ElfModel.SegmentLoads | src/kernel/elf.c:13-30 | a loaded segment reads as its file bytes in place and zeros in the rest of its pages, and earlier segments read as before |
| ElfModel.ImageKept | src/kernel/elf.c:4-37 | at every point of a load the image reads as it did at the start |
| Elf.HeadersStay | src/kernel/elf.c:12-17 | headers read anew at every turn of the loop are those of the original image |
| Elf.MagicIsElf | src/kernel/elf.c:6-6 | an image is accepted iff its first four bytes are 0x7F, E, L and F |
| Elf.EntryPointStands | src/kernel/elf.h:9-24 | the entry point is the four bytes at offset 24, lowest first |
| Elf.HeadersStand | src/kernel/elf.h:9-24 | the program headers start at the offset that the bytes at 28 give |
| Elf.HeaderCountStands | src/kernel/elf.h:9-24 | their number is the two bytes at offset 44 |
| Elf.HeaderFormat | src/kernel/elf.h:25-34 | each header is 32 bytes long with its type, offset, address, file size and memory size at 0, 4, 8, 16 and 20 |
| Elf.SegmentsLoad | src/kernel/elf.c:12-31 | after the loop every loadable segment is in place, or memory is exhausted; how it ends, and whether in a page without a table, is decided by the free frames and the cost of the pages in order |
| Elf.StackLoads | src/kernel/elf.c:32-34 | clearing the stack at its physical address clears the stack page if it is mapped, and disturbs no segment; mapped iff the free frames reach its cost |
| Elf.LoadIsFaithful | src/kernel/elf.c:4-37 | for every image with page-disjoint segments, counted on the machine before the load: it loads completely, segments as their file bytes and zeros and the stack as zeros, iff the free frames are at least the segment pages, plus one, plus the absent slots among them and the stack; it reports success without a stack iff exactly the frame of a table for the stack alone is missing; it faults iff the pages in order come to one with a frame and no table to be had; otherwise it returns -1. After a load every page of the segments, and the stack if mapped, is present and open to the program, and writable unless its slot was there before and was not. Always, the image and all other translations are unaltered and ownership holds |
| Elf.LoadedIsUsable | src/kernel/elf.c:20-32 | the entry and the slot of every loaded page have present and user set, and both have writable set unless the slot was there before without it |
| ElfExample.PremisesCanBeMet | src/kernel/elf.c:4-37 | the premises of LoadIsFaithful hold of a small system, with any number of free frames up to ten, whose image has the magic number and a loadable segment with bytes in the file |
| ElfExample.CompleteLoadExample | src/kernel/elf.c:4-37 | with four frames free that image loads: its bytes stand at their addresses with zeros behind them, the stack is zero, the entry point is the one in the file, and page and slot are present, writable and open to users |
| ElfExample.StacklessLoadExample | src/kernel/elf.c:32-36 | with three frames free the load of that image reports success and the stack page is not mapped |
| ElfExample.FailedLoadExample | src/kernel/elf.c:32-33 | with two frames free the load of that image returns -1 |
| ElfExample.FaultingLoadExample | src/kernel/elf.c:20-26 | with one frame free it faults in the kernel |
| ElfLoader.Load | src/kernel/elf.c:4-37 | the loops of elf_load perform the load of the model, and return the entry point and the stack top |
| ElfLoader.LoadElf | src/kernel/elf.c:4-37 | the loader in little-endian memory keeps all promises of LoadIsFaithful, and returns the four bytes at offset 24 as entry point and 0xB0001000 as stack top |
| SchedModel.StepKeeps | src/kernel/sched.c:43-289 | every step keeps pids distinct and below next_pid, parents older than children, and the current task on the ring |
| SchedLaws.TickWakesOnlyDue | src/kernel/sched.c:187-195 | a tick counts up modulo 2^32 and changes, of any task, only the status, from sleeping to running, and only of sleepers that are due |
| SchedLaws.RunningStays | src/kernel/sched.c:187-289 | a running task, the current one included, is unchanged by every step but its own exit or sleep |
| SchedLaws.DispatchRunsNext | src/kernel/sched.c:43-55 | with a running task on the ring the first one after the current, or after task_list when there is none, is dispatched; otherwise nothing changes |
| SchedLaws.StepRunsNext | src/kernel/sched.c:187-263 | ticks, exits and sleeps dispatch in that way, and no other step changes the current task |
| SchedLaws.CreateAdds | src/kernel/sched.c:97-110 | creation and fork put one running task with the next pid and its parent right behind the first, and change nothing else |
| SchedLaws.ExitLeavesZombie | src/kernel/sched.c:250-256 | exit makes the current task a zombie with the code and changes no other |
| SchedLaws.SleepLeavesSleeper | src/kernel/sched.c:258-263 | sleep makes it a sleeper with the deadline counted from now modulo 2^32 and changes no other |
| SchedLaws.WaitTakesFirst | src/kernel/sched.c:265-289 | wait takes exactly the first zombie child off the ring |
| SchedLaws.WaitWithoutChild | src/kernel/sched.c:265-289 | and changes nothing when there is none |
| SchedRuns.RunsKeepRing | src/kernel/sched.c:43-289 | the same in every reachable state |
| SchedRuns.DispatchBringsCloser | src/kernel/sched.c:43-55 | dispatching another task brings a ready task strictly closer |
| SchedRuns.StepDistance | src/kernel/sched.c:187-289 | a dispatch costs at least one unit of distance, a creation adds at most one, a reap never adds |
| SchedRuns.BoundedWaiting | src/kernel/sched.c:43-55 | while a ready task waits there are fewer dispatches than its ring distance plus the tasks created meanwhile |
| SchedRuns.OtherTaskStep | src/kernel/sched.c:187-289 | no step changes a task that is not the running one, except a tick that turns it from sleeping to running when it is due, or reaping it as a zombie child |
| SchedRuns.SleeperWakesExactly | src/kernel/sched.c:187-195 | a sleeper becomes running at a step iff it is a tick that reaches the deadline |
| SchedRuns.SleepsUntilDeadline | src/kernel/sched.c:187-195 | in any run whose ticks stop short of the deadline a sleeper sleeps on |
| SchedRuns.WakesAtDeadline | src/kernel/sched.c:187-195 | in any run, the tick that reaches the deadline wakes the sleeper and no earlier step does |
| SchedRuns.SleepCutShortIff | src/kernel/sched.c:258-263 | at every tick count, a sleep of two or more ticks ends at the next tick iff its deadline wraps and that tick does not |
| SchedRuns.SleepCutShortExample | src/kernel/sched.c:258-263 | at tick 2^32 - 2 a sleep of two ticks ends after one |
| SchedRuns.ZombieStaysDead | src/kernel/sched.c:250-289 | a zombie is never dispatched or revived, and leaves the ring only when its parent waits |
| SchedRuns.ZombieNeverRuns | src/kernel/sched.c:250-289 | in any run a zombie is never dispatched or revived: it stays as it is until reaped, and its pid then never returns |
| SchedRuns.ExitCodesDeliveredOnce | src/kernel/sched.c:265-289 | in any run each exit code is delivered at most once, by a wait of the task that forked that child, and is the code it exited with |
| SchedRuns.EveryRunIsRecorded | src/kernel/sched.c:265-289 | the record kept of every run from boot satisfies those delivery laws |
| Sched.Scheduler.PickNext | src/kernel/sched.c:43-55 | the ring walk returns the first running task after the current one, once round, or null |
| Sched.Scheduler.SwitchToNext | src/kernel/sched.c:212-218 | runs the picked task, or leaves the current one |
| Sched.Scheduler.WakeSleepers | src/kernel/sched.c:190-195 | wakes exactly the sleepers that are due, and changes no other task |
| Sched.Scheduler.Tick | src/kernel/sched.c:187-205 | performs the tick step that TickWakesOnlyDue and StepRunsNext describe |
| Sched.Scheduler.Link | src/kernel/sched.c:103-109 | the next pointers again form one simple cycle, with the new task right behind the first |
| Sched.Scheduler.AddTask | src/kernel/sched.c:97-110 | performs the create or fork step, or nothing when memory is missing |
| Sched.Scheduler.Exit | src/kernel/sched.c:250-256 | performs the exit step, or reports the panic |
| Sched.Scheduler.Sleep | src/kernel/sched.c:258-263 | performs the sleep step, or nothing without a task |
| Sched.Scheduler.FindChild | src/kernel/sched.c:267-287 | the walk finds the first zombie child of the current task, or none |
| Sched.Scheduler.FindPrev | src/kernel/sched.c:272-273 | the predecessor search ends, at the predecessor |
| Sched.Scheduler.Unlink | src/kernel/sched.c:274-278 | the cycle loses exactly the reaped task and keeps its order |
| Sched.Scheduler.Wait | src/kernel/sched.c:265-289 | performs the wait step and returns the reaped child's exit code, or -1 |
| KeyMap.MapsAreAscii | src/drivers/ps2.c:91-92 | every mapped character lies below DEL |
| KeyLaws.LowerIsTheRow | src/drivers/ps2.c:16-28 | the map without shift, as rows of twelve characters |
| KeyLaws.UpperIsTheRow | src/drivers/ps2.c:30-42 | the map with shift, likewise |
| KeyLaws.LetterKeys | src/drivers/ps2.c:91-99 | a letter key gives a control code under control, and else a capital iff one of shift and caps lock is on, not both |
| KeyLaws.OtherKeys | src/drivers/ps2.c:91-99 | other character keys give the character of the map that shift selects, whatever caps lock and control |
| KeyLaws.FunctionKeys | src/drivers/ps2.c:88-90 | F1 to F12 give 266 to 277 |
| KeyLaws.ModifierKeys | src/drivers/ps2.c:76-85 | shift, control and alt are held from press to release, and caps lock changes at every press |
| KeyLaws.ReleasesStoreNothing | src/drivers/ps2.c:87-87 | other releases do nothing |
| KeyLaws.PrefixedKeys | src/drivers/ps2.c:55-74 | the prefix holds for one scan code, which gives one of the ten cursor and editing keys, 256 to 265, or nothing |
| Ps2.StoredValuesAreKeys | src/drivers/ps2.c:52-100 | every value the handler stores lies in 1..126 or 256..277, whatever the modifiers and scan code |
| Ps2.PutAppends | src/drivers/ps2.c:44-50 | storing appends to the pending values unless 127 are pending, when it changes nothing |
| Ps2.TakeDropsFirst | src/drivers/ps2.c:122-126 | advancing the tail drops exactly the oldest pending value |
| Ps2.HandleKeeps | src/drivers/ps2.c:52-100 | a handler run between any two accesses of the reader keeps the protocol's invariant |
| Ps2.ReadKeeps | src/drivers/ps2.c:113-129 | every single memory access of the reader keeps it |
| Ps2.ReaderSeesAcceptedPrefix | src/drivers/ps2.c:44-129 | under every interleaving the values returned are a prefix of the values accepted, at most 127 are outstanding, and each is a key, so -1 is unambiguous |
| Ps2.Keyboard.BufPut | src/drivers/ps2.c:44-50 | stores in the ring as the model does |
| Ps2.Keyboard.HandleScancode | src/drivers/ps2.c:52-100 | decodes and stores as the model does |
| Ps2.Keyboard.Poll | src/drivers/ps2.c:121-129 | returns and removes the oldest pending value, or -1 with nothing changed |
| Terminal.RunKeeps | src/drivers/fbcon.c:68-130 | for every stream the cursor stays on the screen and the window never moves up |
| Terminal.ScrolledRowsAreFrozen | src/drivers/fbcon.c:37-44 | rows that have left the screen never change again |
| Terminal.PrintableIsShown | src/drivers/fbcon.c:82-88 | a printable character appears at the cursor and in no other cell, and the cursor moves on, past the edge to the next row |
| Terminal.LineEnds | src/drivers/fbcon.c:71-74 | newline and carriage return move the cursor and change no cell |
| Terminal.BackspaceBlanks | src/drivers/fbcon.c:75-79 | backspace steps back, at most to the end of the row above, and blanks that cell alone |
| Terminal.TabMoves | src/drivers/fbcon.c:80-87 | a tab moves to the next multiple of 4, or to the next row, and changes no cell |
| Terminal.MovesStayOnScreen | src/drivers/fbcon.c:109-130 | the four moves change no cell and stop at the edges of the screen |
| Fbcon.Console.constructor | src/drivers/fbcon.c:45-51 | a blank screen with the cursor at the origin |
| Fbcon.Console.Scroll | src/drivers/fbcon.c:37-44 | every row moves up by one, a blank one enters, and the cursor stays with its row |
| Fbcon.Console.PutChar | src/drivers/fbcon.c:68-92 | the grid stays the window of the unbounded terminal that took the same character |
| Fbcon.Console.Move | src/drivers/fbcon.c:109-130 | so for the four cursor moves |
| Vga.Screen.constructor | src/drivers/vga.c:16-27 | a blank screen with the cursor at the origin |
| Vga.Screen.Scroll | src/drivers/vga.c:58-68 | every row of the flat array moves up by one and a blank one enters |
| Vga.Screen.SetColor | src/drivers/vga.c:29-31 | changes the colour of later characters and blanks, and leaves the window shown as it is |
| Vga.Screen.PutChar | src/drivers/vga.c:33-72 | the array stays the window of the unbounded terminal that took the same character |
| Vga.Screen.Move | src/drivers/vga.c:74-94 | so for the four cursor moves |
| Consoles.RunBoth | src/drivers/vga.c:33-94 | for every stream, fbcon and vga at 80 by 25 agree on every cell and on the cursor, and both show the same window of the unbounded terminal |

## Left out

- Saved register frames, `restore_context`, task state segments and interrupt stubs: the scheduler model says which task runs and what state it is in, and each tick or system call is one step.
- The keyboard echo and panic shortcuts in `yield`, and its wait loop: a dispatch that finds nothing leaves the current task, and a later tick dispatches.
- `sched_exec`, `sched_getpid`, and the freeing of stacks and address spaces in `sched_wait`: the heap and the virtual memory are proved on their own.
- Task objects get fresh identities, so the reuse of a freed task's address behind a stale `parent` pointer is not modelled; pids do not wrap.
- `vmm_unmap_page`, `vmm_free_page`, the page fault handler, `cr3` and the TLB: they would only add easy members. No code but the modelled one writes table entries.
- Physical frames are reached by number in the virtual memory operations; that the identity mapping makes them reachable is used explicitly only for the stack page of the loader.
- Flags passed to the mapping operations are the low 12 bits of an entry.
- VmmRuns.RunsKeepOwnership: page mappings are allocations of fresh frames, in slots not shared with the kernel or whose kernel table has no other entry; kernel mappings carry VMM_USER only where that is harmless, and a failed clone must meet no stale words. What the first operation outside these conditions does is stated by SharedMapFreesKernelPage, KernelMapSafeIff and FailedCloneRestoresIff; the run after it is not followed.
- HeapTiling.MallocAllowed: the heap lives in one address space, and what vmm_alloc_page still has for it is a parameter, with all pages below 4 GiB and a table missing only at the start of a slot.
- HeapAllocator.Allocator.Free: the freed block is marked after the list walk instead of before; the walk does not read it.
- HeapTiling.RunsPreserveTiling: a run ends at a malloc that faults, returns a pointer past the heap or hands out a hollow block; what that one call leaves behind is stated by Malloc of HeapAllocator, and later calls are not followed. Nothing is taken to be mapped right below HEAP_START.
- HeapAllocator.Allocator.constructor: a frame that heap_init gets for its very first page without a table for it is not told from a page.
- Pmm.PageAllocator.constructor: a kernel image outside memory is excluded; the walk by `mmap_entry_size` is a sequence of entries.
- Elf.LoadIsFaithful: the image must be mapped and in frames that hold no directory or table, and the segments lie in slots the kernel does not map; a program inside the identity map, as 0x08048000 is with 256 MiB, is outside, and what its mappings do is IdentityPageIsFreed. Reads of unmapped header bytes fault in the kernel and read as zero here. Segments that end in the last page of the address space wrap and are excluded.
- Printing, including the loader's messages.
- Ps2.Keyboard.Poll: the busy wait of `ps2_getchar` is the reader's loop in `ReaderSeesAcceptedPrefix`; it is not shown to end. Device initialisation is not modelled.
- Framebuffer pixels, cursor blinking and visibility, resizing of `fbcon`, the hardware cursor of `vga`, and colours beyond the blank cell that scrolling writes.
- `printf`, serial, boot tag walking, GDT and IDT encoding, PCI and VBE probing: device access or field packing.
