# The kernel's memory management, modelled and proved

A single-threaded model of the memory-management stack of the kernel, in four layers that rest on each other, with
the block-memory, number-printing and list routines that go with it.

1. **Pages** (`PhysicalMemory.dfy`, `PhysicalMemoryProofs.dfy`): the bitmap allocator of `pmm.c`. The class
   `PageAllocator` has the source's bytes and counter and is proved against `PmmState`, a set of taken pages and a
   counter.
2. **Heap** (`HeapList.dfy`, `HeapProofs.dfy`, `HeapMemory.dfy`, `KernelHeap.dfy`, `HeapInit.dfy`): the best-fit heap
   of `heap.c`. The class `Heap` walks and relinks 32-byte headers in a word-addressed memory; the list of blocks it
   is proved against is what those headers represent.
3. **Page tables** (`PageTables.dfy`, `TableForest.dfy`, `Mapping.dfy`, `Unmapping.dfy`, `Paging.dfy`,
   `Agreement.dfy`, `Access.dfy`): the four-level tables of `paging.c` and of the walk in `vmm.c` (Intel SDM, Volume
   3A, sections 4.5 and 4.6). `Walk` is the processor's own translation, huge entries included; what the kernel's functions do is measured
   by it. `Forest` is the invariant: the tables of all spaces have distinct places in trees,
   share the kernel's half, and lie in allocated frames; the tables the boot loader made for the kernel may also lie
   beyond the frames the allocator knows.
4. **Address spaces** (`Spaces.dfy`, `Lifecycle.dfy`, `Outcomes.dfy`, `Isolation.dfy`, `Conservation.dfy`, `Vmm.dfy`,
   `Startup.dfy`): creation, mapping, destruction, and whole runs of them across all layers, from the state that
   `heap_init` and `vmm_init` leave. `Outcomes` says of each call when it succeeds and what it brings about, without the
   steps it takes.

Beside them: `Words.dfy` (64-bit words, bitwise "or"), `BlockMemory.dfy` (`memcpy_simd`, `memset_simd`, `memmove`),
`Itoa.dfy`, `BrandString.dfy`, and `Tasks.dfy`.

Each operation that the source performs by updating memory is a method of a class or on an array, proved equal to a
specification function; the theorems are about those functions, so they hold of the methods. `own`, `blocks` and
`spaces` are ghost bookkeeping: no operation decides anything by them.

When the operations that can fail do so is proved in both directions: `AllocIsFirstFit`, `MallocIsBestFit`,
`ReallocKeeps`, `MapPageSucceedsIff`, `CreateMakes`, `InitHeap`.

Where a promise does not hold on all inputs, the condition under which it does is proved in both directions:
`AddressReadBack` and `NoExecuteIsKept` (flags above bit 11 end up in the address), `UnmapReturnsFrame`,
`RoundCovers`, `CallocCovers`, `ReallocFits` with `ReallocMisfit` (sizes that wrap around; the exact condition is what
`Krealloc` and the runs ask for), `FreeKeepsDrift` and
`BootClassifies` (unconditional counting), `KernelMappingShows` (PML4 slots the kernel adds later),
`MappersAgree`, `UserMappingIsUsable` and `KernelMapperSeldomUsable` (`PAGING_USER` in intermediate entries),
`LoopCopiesIff`, `SimdIsLoopIff` and `SimdCopiesIff` (overlap).

Two functions do not quite do what their names say, and the model follows the code: `heap_get_free_size` counts block
headers as free (`KernelHeap.Heap.GetFreeSize`), and `paging_get_physical_address` gives the page's address rather
than the byte's below the direct map, and a difference of addresses from its offset upwards
(`Paging.Mmu.GetPhysicalAddress`).

`dafny verify dfyconfig.toml` checks the whole project.

## Model

| member | source | states |
|---|---|---|
| Words.OrIsBitwise | kernel/src/memory/paging.c:105 | the arithmetic "or" used throughout is the machine's, bit by bit |
| Words.OrFrame | kernel/src/memory/paging.c:105 | "or" acts on the frame number of an entry apart from its low flags |
| Words.OrAbsorbs | kernel/src/memory/paging.c:105 | flags leave an address alone exactly when each of their bits is already in it |
| Words.PageBaseBits | kernel/src/memory/paging.c:133 | `& ~0xFFF` clears the low twelve bits and no other |
| PhysicalMemory.MaskIsShift | kernel/src/memory/pmm.c:18 | the bit masks are `1 << offset` |
| PhysicalMemory.SetBit | kernel/src/memory/pmm.c:15-33 | setting or clearing one bit of a byte changes the test of that bit and of no other |
| PhysicalMemory.PageAllocator.constructor | kernel/src/memory/pmm.c:6-13 | the zeroed statics are an allocator without pages |
| PhysicalMemory.PageAllocator.Init | kernel/src/memory/pmm.c:67-124 | with a memory map and an offset the bitmap and the counter are those of `Boot`; without either, there is no bitmap |
| PhysicalMemory.OverlapsIff | kernel/src/memory/pmm.c:106-110 | rounding outwards finds the pages that a region has a byte in, and one page for an empty region between page boundaries |
| PhysicalMemory.HoldsPageIff | kernel/src/memory/pmm.c:45-46 | a page is usable for a region that has its first byte; of a region of whole pages it then has all, and those are the pages it meets |
| PhysicalMemory.HighestEndIs | kernel/src/memory/pmm.c:88-89 | every usable region ends at or below the highest address, and one of them there |
| PhysicalMemory.LargestIs | kernel/src/memory/pmm.c:90-93 | the region chosen is usable, none is longer, and all usable ones before it are shorter |
| PhysicalMemory.PagesManaged | kernel/src/memory/pmm.c:97 | exactly the pages that end by the highest usable end are managed, so every page that lies wholly in a usable region is |
| PhysicalMemory.BitmapFits | kernel/src/memory/pmm.c:98-100 | the bitmap begins with the largest usable region, ends in it, and is as short as a bit a page allows |
| PhysicalMemory.PageAllocator.Survey | kernel/src/memory/pmm.c:79-95 | the loop finds the highest usable end and the first of the longest usable regions |
| PhysicalMemory.PageAllocator.MarkUnusable | kernel/src/memory/pmm.c:103-112 | marks and counts the pages of each unusable region, rounded outwards |
| PhysicalMemory.PageAllocator.MarkPages | kernel/src/memory/pmm.c:108-118 | marks exactly the pages of the range that exist, counting every one |
| PhysicalMemory.PageAllocator.Set | kernel/src/memory/pmm.c:15-20 | the bitmap represents one page more; the counter goes up regardless |
| PhysicalMemory.PageAllocator.Clear | kernel/src/memory/pmm.c:22-27 | the bitmap represents one page less; the counter goes down regardless |
| PhysicalMemory.PageAllocator.FindFreePages | kernel/src/memory/pmm.c:35-65 | the least start, page 1 or later, of a run of free usable pages; none exactly when there is no such run or 0 pages are asked for |
| PhysicalMemory.PageAllocator.AllocPages | kernel/src/memory/pmm.c:130-144 | the bitmap afterwards represents the abstract allocation |
| PhysicalMemory.PageAllocator.FreePages | kernel/src/memory/pmm.c:150-159 | the bitmap afterwards represents the abstract release |
| PhysicalMemory.LeastRun | kernel/src/memory/pmm.c:35-65 | where some run of free pages exists there is a first one |
| PhysicalMemoryProofs.AllocIsFirstFit | kernel/src/memory/pmm.c:130-144 | an allocation takes the least run of free usable pages, none marked before, and marks exactly it; it fails, changing nothing, exactly when there is none |
| PhysicalMemoryProofs.AllocThenFree | kernel/src/memory/pmm.c:130-159 | releasing an allocation restores bitmap and counter |
| PhysicalMemoryProofs.FreeKeepsDrift | kernel/src/memory/pmm.c:22-27 | a release keeps the counter in step with the bitmap exactly when every page it names that exists was marked |
| PhysicalMemoryProofs.PmmStepKeeps | kernel/src/memory/pmm.c:130-159 | each call of a client that frees only pages it holds, in whatever pieces, keeps what it holds apart from everything else and accounted for; an allocation gets it a run of free pages it did not hold, unless there is none; a release rids it of exactly the pages named |
| PhysicalMemoryProofs.PmmRunServes | kernel/src/memory/pmm.c:130-159 | in every run each call does so |
| PhysicalMemoryProofs.PmmRunSafe | kernel/src/memory/pmm.c:130-159 | over every run the pages marked are those marked at the start and, apart from them, those held; page 0 is never held; counter minus population count is constant; with nothing held the allocator is as at the start |
| PhysicalMemoryProofs.BootClassifies | kernel/src/memory/pmm.c:79-118 | after boot a page is marked exactly when it meets an unusable region or the bitmap; the counter is exact exactly when those regions share no page |
| PhysicalMemoryProofs.BootReserves | kernel/src/memory/pmm.c:103-118 | no page that can be handed out after boot has a byte of the bitmap or of an unusable region in it |
| PhysicalMemoryProofs.MarkRangeCounts | kernel/src/memory/pmm.c:106-110 | marking a region counts each page it meets once, marked before or not |
| PhysicalMemoryProofs.UsablePagesStartFree | kernel/src/memory/pmm.c:83-118 | neither the page count nor outward rounding costs a usable page: outside the bitmap they all start free |
| HeapList.Canonical | kernel/src/memory/heap.c:136-153 | in a coalesced heap the blocks in use determine the whole list |
| HeapProofs.RoundCovers | kernel/src/memory/heap.c:71-74 | rounding gives a multiple of 8, at least 32, that covers the request exactly when it does not wrap around |
| HeapProofs.HugeRequestIsTiny | kernel/src/memory/heap.c:71-74 | a request just below 2^64 rounds to 32 |
| HeapProofs.MallocIsBestFit | kernel/src/memory/heap.c:53-111 | `kmalloc` fails, changing nothing, exactly when asked for 0 bytes or no free block reaches the rounded size; otherwise the first smallest block that does goes into use, whole or, if it is 40 bytes longer or more, the beginning of it; nothing else changes hands, and the heap stays tiled and coalesced |
| HeapProofs.FreeAtKeeps | kernel/src/memory/heap.c:126-153 | `kfree` takes exactly one block out of use and leaves no two free neighbours |
| HeapProofs.MallocThenFree | kernel/src/memory/heap.c:68-154 | `kfree` right after `kmalloc` restores the exact block list |
| HeapProofs.HeapAccounted | kernel/src/memory/heap.c:39-41 | payload in use, free payload and 32 bytes a block add up to the heap's size |
| HeapProofs.TakeBytes | kernel/src/memory/heap.c:85-102 | allocating adds the block's payload to the bytes in use |
| HeapProofs.FreeAtBytes | kernel/src/memory/heap.c:126-153 | freeing subtracts exactly the freed block's payload, whatever merges |
| HeapProofs.PayloadsApart | kernel/src/memory/heap.c:86-111 | every payload in use is 8-aligned, in the heap, and clear of every other header and payload |
| HeapProofs.NewBlock | kernel/src/memory/heap.c:101-111 | a successful `kmalloc` puts one new block in use, at the pointer it returns, with room for the rounded size and fewer than 40 bytes more |
| HeapProofs.ReallocKeeps | kernel/src/memory/heap.c:165-183 | `krealloc` of a live block frees it for size 0, keeps it if it is large enough, and else replaces it by one with room for the old payload and the request, unless no free block reaches the rounded size, when it fails and changes nothing; asked for exactly where the copy does not overrun the new block (`CopyFits`) |
| HeapProofs.HeapStepKeeps | kernel/src/memory/heap.c:68-183 | every call with a null or live pointer, and no copy that overruns, does what is said of it above and keeps the blocks tiling the heap, aligned and coalesced |
| HeapProofs.HeapRunServes | kernel/src/memory/heap.c:68-183 | in every run each such call does so |
| HeapProofs.HeapRunSafe | kernel/src/memory/heap.c:68-183 | over every run of such calls from `heap_init` the heap stays tiled and coalesced; when the blocks in use are those of an earlier moment the list is that moment's; with nothing in use it is the one initial block |
| HeapMemory.SplitRepresents | kernel/src/memory/heap.c:85-96 | the split's stores leave headers, linked both ways, that represent the split list |
| HeapMemory.MergeRepresents | kernel/src/memory/heap.c:136-152 | the merge's stores leave headers that represent the merged list |
| HeapMemory.SplitKeepsPayloads | kernel/src/memory/heap.c:85-96 | splitting writes into no payload in use |
| HeapMemory.MergeKeepsPayloads | kernel/src/memory/heap.c:136-152 | merging writes into no payload in use |
| KernelHeap.Heap.constructor | kernel/src/memory/heap.c:33-44 | the first header and the counters are those of a heap of one free block |
| KernelHeap.Heap.FindFreeBlock | kernel/src/memory/heap.c:53-66 | the pointer walk finds the first of the smallest free blocks that fit, or none |
| KernelHeap.Heap.Kmalloc | kernel/src/memory/heap.c:68-112 | headers and counters follow the list's allocation; no live payload is written |
| KernelHeap.Heap.TakeBlock | kernel/src/memory/heap.c:85-102 | splitting or taking a block in memory is taking it in the list |
| KernelHeap.Heap.Kfree | kernel/src/memory/heap.c:114-154 | headers and counters follow the list's release; a pointer whose header reads as free changes nothing; what has just been released reads as free, so a second release does nothing; no live payload is written |
| KernelHeap.Heap.Kcalloc | kernel/src/memory/heap.c:156-163 | the payload handed out begins with `num * size` zero bytes, the product taken modulo 2^64; no live payload is written |
| KernelHeap.Heap.Krealloc | kernel/src/memory/heap.c:165-183 | for a null or live pointer, wherever the copy fits: the new payload begins with the old bytes; no other live payload is written; failure leaves the old block |
| KernelHeap.Heap.GetFreeSize | kernel/src/memory/heap.c:193-195 | free payload plus all block headers |
| KernelHeap.CallocCovers | kernel/src/memory/heap.c:157 | the block holds `num * size` bytes exactly when neither the product nor rounding it wraps around |
| KernelHeap.ReallocFits | kernel/src/memory/heap.c:173-179 | a live block that moves has room for its old payload exactly when rounding the new size does not wrap around or what the best free block is cut down to is large enough |
| KernelHeap.ReallocMisfit | kernel/src/memory/heap.c:173-179 | a concrete heap and size for which it has no room |
| HeapInit.MapPageKeepsClear | kernel/src/memory/paging.c:85-109 | a mapping puts no huge entry on any path |
| HeapInit.HeapPageMaps | kernel/src/memory/heap.c:22-27 | one iteration maps its page or leaves the books as they were, and keeps the earlier iterations' mappings |
| HeapInit.MapHeapPage | kernel/src/memory/heap.c:17-28 | an iteration is done exactly when paging has the direct map's offset and there is a free page and one for each missing table; one that fails gives its page back and changes no translation |
| HeapInit.SpendsNext | kernel/src/memory/heap.c:13-29 | only the first iteration meets missing tables: the pages of the heap share all theirs |
| HeapInit.InitHeap | kernel/src/memory/heap.c:11-44 | the end is reached exactly when paging has the direct map's offset and there are 256 free pages and one for each table missing above the first heap page; then all 256 pages are mapped present and writable to distinct frames that were free and are no tables, nothing else is mapped differently, and the heap is one free block; otherwise the pages mapped so far and the tables are all that was taken, and, with the offset, at most one page is left free |
| HeapInit.HeapStays | kernel/src/memory/heap.c:13-29 | once the heap is mapped, no run of calls moves its pages or gives one of their frames to a table, a space or a client |
| PageTables.IndexShifts | kernel/src/memory/paging.c:91-94 | the four shifts and masks are the four digits of the page number |
| PageTables.PageIsItsIndices | kernel/src/memory/paging.c:91-94 | pages with the same indices are the same page |
| PageTables.EntryIs | kernel/src/memory/paging.c:105 | a leaf entry is present and names the frame of address and flags together |
| PageTables.EntryBits | kernel/src/memory/paging.c:105 | each bit of a leaf is set exactly when it is in the address or in the flags, or is `PAGING_PRESENT`: no flag is lost, none invented |
| PageTables.EntrySum | kernel/src/memory/vmm.c:127 | for a page address and flags of twelve bits the low bits of the leaf are the flags with `PAGING_PRESENT`, the others the address |
| PageTables.FlagBits | kernel/src/include/memory/paging.h:11-18 | the flags asked for are bits 0, 2 and 7 |
| TableForest.BareKernel | kernel/src/memory/vmm.c:22-24 | a kernel root with nothing mapped, in an allocated frame or one beyond the allocator, satisfies the invariant, so it can be met |
| TableForest.LinkKeeps | kernel/src/memory/paging.c:78-81 | linking a cleared fresh frame keeps the forest and changes no translation |
| TableForest.DescendKeeps | kernel/src/memory/paging.c:67-83 | one creating step keeps the forest, changes no translation, and arrives at the table whose place the entry is |
| TableForest.LocateKeeps | kernel/src/memory/paging.c:96-103 | the three steps find the page table that the processor uses for the page |
| TableForest.CellWalk | kernel/src/memory/paging.c:105 | writing one entry of a page table changes the translation of exactly the pages looked up there |
| TableForest.PlacesUnique | kernel/src/memory/vmm.c:94-125 | outside the kernel's tree no two frames have the same place: the tables form trees |
| TableForest.PutLeafKeeps | kernel/src/memory/vmm.c:127 | writing a leaf keeps the forest, also when it replaces a mapped frame |
| Mapping.MapPageRefines | kernel/src/memory/vmm.c:86-129 | for any frame, allocated or not, shared or device memory: success makes exactly the spaces that see the page translate exactly that page to the new entry; failure changes no translation of any space |
| Mapping.MapPageKeeps | kernel/src/memory/vmm.c:94-127 | where the frame is the space's to own, the tables of all spaces stay trees without common tables |
| Mapping.LocateTakes | kernel/src/memory/paging.c:96-103 | a walk takes one page a missing level, all of them tables; when it fails no page is free |
| Mapping.MapPageTakes | kernel/src/memory/vmm.c:94-125 | success takes exactly as many pages as levels were missing, at most three; failure leaves at most two new tables |
| Mapping.MapPageSucceedsIff | kernel/src/memory/vmm.c:86-129 | a mapping succeeds exactly when there are as many free pages as tables are missing; it takes that many, all of them free before, or all there were |
| Mapping.AllocFailure | kernel/src/memory/pmm.c:126-137 | one page cannot be had exactly when none is free |
| Unmapping.QueriesReadTranslation | kernel/src/memory/paging.c:142-200 | the kernel's look-up reads the processor's translation, in either half of any space |
| Unmapping.UnmapPageRefines | kernel/src/memory/paging.c:111-140 | unmapping succeeds exactly on a mapped page, removes exactly its translation, and gives back exactly the page the entry names |
| Unmapping.UnmapPageKeeps | kernel/src/memory/paging.c:133-134 | where the entry names no table, the tables of all spaces stay trees |
| Unmapping.AddressReadBack | kernel/src/memory/paging.c:105-199 | masking an entry gives the address back exactly when the flags spare it; flags in the low 12 bits do |
| Unmapping.NoExecuteIsKept | kernel/src/memory/paging.c:69-133 | `PAGING_NO_EXECUTE` survives the mask and moves the frame out of memory |
| Unmapping.UnmapReturnsFrame | kernel/src/memory/paging.c:133 | unmapping gives the mapped frame back exactly when its flags spare the address |
| Unmapping.MapPageLocal | kernel/src/memory/vmm.c:86-129 | mapping any frame through one space writes no table of another |
| Unmapping.MapThenUnmap | kernel/src/memory/paging.c:85-200 | in between the page is mapped and reads back; afterwards every translation of every space is as before and exactly the leaf frame has been returned |
| Spaces.AddSpaceKeeps | kernel/src/memory/vmm.c:39-44 | a new space translates nothing in the lower half and the upper half as the kernel does; no other space sees a difference |
| Spaces.ReclaimExactly | kernel/src/memory/vmm.c:52-74 | the nested loops list exactly the frames placed under the entries they visit, each once |
| Spaces.DestroyFrees | kernel/src/memory/vmm.c:52-76 | destroying a space frees exactly its tables and mapped frames, each once |
| Spaces.DestroySpaceKeeps | kernel/src/memory/vmm.c:49-78 | bitmap and counter lose exactly the space's frames; the other trees are untouched |
| Lifecycle.NoSpaces | kernel/src/memory/vmm.c:12-27 | the kernel's tables and a fresh heap, with no space yet, are a state from which every run may begin |
| Lifecycle.MapPageBooks | kernel/src/memory/vmm.c:94-127 | the frames a space holds grow by the tables taken and the leaf, in place of the frame mapped there before |
| Lifecycle.UnmapBooks | kernel/src/memory/paging.c:111-140 | unmapping takes exactly the mapped frame from the space and from the marked pages |
| Lifecycle.StepKeeps | kernel/src/memory/vmm.c:29-136 | every call (pages, heap blocks, spaces, mapping, unmapping, kernel mapping) keeps the invariant of the whole system and the books of pages and heap blocks |
| Outcomes.CreateMakes | kernel/src/memory/vmm.c:29-47 | creation fails, changing nothing, exactly when no page or no block is to be had; else there is one space more, at a pointer not in use: its root a page that was free, translating nothing below and as the kernel above; its structure the one new block; no other space sees a difference |
| Outcomes.DestroyUnmakes | kernel/src/memory/vmm.c:49-78 | destruction removes the space, its root and exactly its pages and block, and counts the pages down; the other spaces translate as before |
| Outcomes.MapIntoMaps | kernel/src/memory/vmm.c:86-129 | mapping into a space succeeds exactly when there are pages for the missing tables, and then the space translates that page to the entry and every other as before; on failure no translation has changed |
| Outcomes.MapKernelMaps | kernel/src/memory/paging.c:85-109 | the same for the kernel, in every space that sees the page |
| Outcomes.UnmapFromUnmaps | kernel/src/memory/paging.c:111-140 | unmapping takes the page's translation away and gives exactly its frame back |
| Outcomes.StepServes | kernel/src/memory/vmm.c:29-136 | every legal call of a run does what is said of it, and every other nothing |
| Outcomes.RunServes | kernel/src/memory/vmm.c:29-136 | so does each call of every run, in the state that those before it left |
| Conservation.StepPlaces | kernel/src/memory/vmm.c:29-129 | a call leaves the frames of every space it is not about, and a call other than a kernel mapping leaves the kernel's |
| Conservation.RunConserves | kernel/src/memory/vmm.c:29-129 | from any state, whatever spaces live and whatever clients hold: after a run of allocating and freeing pages and heap blocks, and creating, mapping into (with success or failure), unmapping from and destroying other spaces, the pages taken are those that were but for what clients hold, the counter with them, and likewise the heap blocks; with the same blocks held the block list is the same; kernel mappings in between add kernel tables and nothing else |
| Conservation.RunRestores | kernel/src/memory/vmm.c:29-129 | in particular a run that begins and ends without spaces takes exactly what clients still hold; with nothing held bitmap, counter and block list are restored |
| Lifecycle.RunAccounts | kernel/src/memory/vmm.c:29-129 | in any run every page taken belongs to the base, a table or mapping, or a client, and to one of them only; likewise every heap block in use; the counter keeps its distance from the bitmap |
| Isolation.UpperHalfCoherent | kernel/src/memory/vmm.c:131-136 | in every state a space translates an upper-half page as the kernel does, or has no slot for it |
| Isolation.StepIsolates | kernel/src/memory/vmm.c:49-129 | a call about another space changes no translation of this one; a kernel mapping of a page not translated yet replaces none and adds only in the upper half; the upper slots stay |
| Isolation.RunIsolates | kernel/src/memory/vmm.c:49-136 | over every run of calls about other spaces all translations stay, lower half and upper half; with kernel mappings in between, all that there were |
| Isolation.RunKeepsKernel | kernel/src/memory/vmm.c:29-136 | over every run the kernel keeps every translation it had |
| Isolation.KernelMappingShows | kernel/src/memory/vmm.c:131-136 | a new kernel mapping shows in a space exactly when the space has the PML4 slot |
| Paging.LinkEntry | kernel/src/memory/vmm.c:100 | the "or" of address and link flags is their sum |
| Paging.Mmu.GetNextTable | kernel/src/memory/paging.c:67-83 | follows a present entry; else creates a cleared table, or nothing when memory is out |
| Paging.Mmu.NextTable | kernel/src/memory/paging.c:67-73 | without creating: the table a present entry names, nothing for an absent one |
| Paging.Mmu.MapKernelPage | kernel/src/memory/paging.c:85-109 | the tables and the allocator afterwards are those of the abstract mapping on the active root, for any frame |
| Paging.Mmu.UnmapKernelPage | kernel/src/memory/paging.c:111-140 | the tables and the allocator afterwards are those of the abstract unmapping, whatever the entry names |
| Paging.Mmu.IsMapped | kernel/src/memory/paging.c:142-166 | true exactly when the processor translates the page, in whatever space is loaded |
| Paging.Mmu.GetPhysicalAddress | kernel/src/memory/paging.c:168-200 | below the direct map's offset the page address in the processor's entry, 0 for none; above it a difference |
| Paging.Mmu.MapRoot | kernel/src/memory/vmm.c:89-128 | the three inlined levels and the leaf store of `vmm_map_page` are the abstract mapping |
| Paging.Mmu.NewRoot | kernel/src/memory/vmm.c:39-44 | clearing the root and copying 256 slots adds the abstract space |
| Paging.Mmu.FreeBelow | kernel/src/memory/vmm.c:52-74 | the loops release exactly the abstract list of frames |
| Paging.Mmu.FreeTree | kernel/src/memory/vmm.c:52-76 | the same with the root |
| Vmm.PointerRoundTrip | kernel/src/memory/vmm.c:39-76 | a pointer is the frame's address plus the direct map's offset modulo 2^64, and taking the offset off gives the frame back |
| Vmm.Kernel.constructor | kernel/src/memory/vmm.c:12-27 | the kernel's root is the one in CR3 |
| Startup.Start | kernel/src/kernel.c:90-106 | mapping the heap and then taking over CR3 leaves a kernel in a state from which every run may begin, exactly when there were the pages that `InitHeap` asks for and the direct map's offset |
| Vmm.Kernel.MapIn | kernel/src/memory/vmm.c:86-129 | a null space fails; otherwise the page is translated to the entry, and nothing else changed, exactly when there are pages for the missing tables; the whole system moves as the abstract mapping, for any frame |
| Vmm.Kernel.CreateSpace | kernel/src/memory/vmm.c:29-47 | null, with nothing changed, exactly when there is no free page or no block of 32 bytes; otherwise a new space with one new page as root, one new block, and the kernel's upper half; the whole system moves as the abstract creation |
| Vmm.Kernel.DestroySpaceAt | kernel/src/memory/vmm.c:49-78 | null does nothing; otherwise the space is gone, with exactly its pages and its block given back; the whole system moves as the abstract destruction |
| Agreement.MappersAgree | kernel/src/memory/vmm.c:86-129 | on one root and for any frame `vmm_map_page` and `paging_map_page` give the same answer, take the same pages, give every space the same translations, and leave tables equal but for `PAGING_USER` in new intermediate entries; they are equal outright exactly when the flags lack `PAGING_USER`, no table is missing, or no page is free |
| Agreement.LocateShows | kernel/src/memory/paging.c:96-103 | a walk that takes a page leaves an entry that tells the two copies apart |
| Agreement.TakesNothingIff | kernel/src/memory/paging.c:96-103 | a walk takes no page exactly when no table is missing or no page is free |
| Access.LocateUserWay | kernel/src/memory/vmm.c:94-125 | after the walk the way to the page table has `PAGING_USER` throughout exactly when each entry there was had it, and the new ones, if any, get it |
| Access.MappedUserMay | kernel/src/memory/vmm.c:86-129 | for any leaf: user mode may use a page just mapped exactly when the leaf and each intermediate entry there was have `PAGING_USER`, and the new ones get it |
| Access.UserMappingIsUsable | kernel/src/memory/vmm.c:86-129 | a page mapped by `vmm_map_page` with `PAGING_USER` may be used in user mode exactly when each intermediate entry there was had it |
| Access.KernelMapperSeldomUsable | kernel/src/memory/paging.c:85-109 | one mapped by `paging_map_page` with `PAGING_USER` exactly when, besides, no table was missing |
| BlockMemory.LoopCopiesIff | kernel/src/libc/string/memmove.c:8-11 | the ascending byte loop copies, whatever memory holds, exactly when the target does not begin inside the source |
| BlockMemory.SimdIsLoopIff | kernel/src/simd/simd.c:233-263 | `memcpy_simd` does what the byte loop does, whatever memory holds, exactly when `n < 32` or the target does not begin within the sixteen bytes behind the beginning of the source |
| BlockMemory.SimdCopiesIff | kernel/src/simd/simd.c:233-263 | it copies, whatever memory holds, exactly when the target does not begin inside the source, so also for the overlaps with a lower target that `restrict` rules out |
| BlockMemory.MemcpySimd | kernel/src/simd/simd.c:233-263 | head, blocks and tail in place leave, for every length, alignment and overlap, the memory that those two results speak of; areas that are apart are copied and nothing else is written |
| BlockMemory.MemsetSimd | kernel/src/simd/simd.c:265-299 | for every length and alignment exactly the target is filled with the low byte of `c` |
| BlockMemory.Memmove | kernel/src/libc/string/memmove.c:4-19 | the target receives the old source bytes for every overlap, and nothing else is written |
| Itoa.NumeralReadsBack | kernel/src/libc/string/itoa.c:3-33 | reading the digits back gives the value, and there is no leading zero, in all bases 2 to 16 |
| Itoa.ReadIsWritten | kernel/src/libc/string/itoa.c:3-33 | every numeral without a leading zero is what `itoa` writes for the value it reads as |
| Itoa.LengthIff | kernel/src/libc/string/itoa.c:15-19 | a value takes at most k digits exactly when it is below the k-th power of the base |
| Itoa.NumeralLength | kernel/src/libc/string/itoa.c:15-19 | the numeral has the least length that holds the value |
| Itoa.BuffersSuffice | kernel/src/libc/stdio/printf.c:312 | 21, 17 and 65 bytes hold every 64-bit value in bases 10, 16 and 2 with its NUL, and no fewer do |
| Itoa.AnyBaseFits | kernel/src/libc/stdio/printf.c:152 | 65 bytes do in every base |
| Itoa.DigitLoop | kernel/src/libc/string/itoa.c:15-19 | the loop writes the digits in reverse and nothing behind them |
| Itoa.ReverseInPlace | kernel/src/libc/string/itoa.c:24-30 | the two-pointer loop reverses the text in place |
| Itoa.Write | kernel/src/libc/string/itoa.c:3-33 | the buffer begins with the numeral and a NUL, the rest is untouched; for another base only a NUL is written |
| BrandString.SqueezeTidies | kernel/src/simd/simd.c:64-75 | no space at the front, no two in a row |
| BrandString.SqueezeKeepsWords | kernel/src/simd/simd.c:64-75 | the words are those of the original text |
| BrandString.TidyIsKept | kernel/src/simd/simd.c:64-75 | exactly the tidy texts are left as they are |
| BrandString.SqueezeSpaces | kernel/src/simd/simd.c:62-76 | the loop, in place, leaves the squeezed text, a NUL, and the bytes behind it |
| Tasks.Scheduler.Add | kernel/src/tasking/task.c:23-31 | the walk appends at the end of the list, with the nodes the new one leads to |
| Tasks.Scheduler.GetNextReady | kernel/src/tasking/task.c:33-48 | the first READY of those the current one leads to and then of those in front of it, null exactly when there is none, also for a current one that is not in the list; without a current one the head of the list, READY or not |
| Tasks.CyclicOrder | kernel/src/tasking/task.c:33-48 | for a current one in the list, those are the others in cyclic order |

## Left out

- Paging.Mmu.FreeBelow: the four nested loops of `vmm_destroy_space` are one method, recursive in the level; the order of the releases is the source's.
- Vmm.Kernel.MapIn: mapping the upper half through a space other than the kernel's, which no caller in the repository does, is excluded, as it would put tables of one space under slots meant to be shared. After mapping, through a space, a frame that is not an allocated page of its own (one shared with another page or space, or device memory), the invariant is not promised, since destroying the space will free the frame; what the mapping does is.
- Paging.Mmu.UnmapKernelPage: after unmapping, through the kernel's root, a page whose entry names the frame of a page table, the invariant is not promised, since the frame is given back while in use.
- Lifecycle.RunAccounts: kernel pages are mapped only where the kernel translates nothing yet, as remapping a page in use puts other memory under its users.
- KernelHeap.Heap.Krealloc: the copy of the old payload is word by word, which on payloads of whole words is the byte copy; what an overrunning copy does to the heap is not modelled.
- KernelHeap.Heap.Kcalloc: nor is what clearing does when rounding the size past 2^64 is granted a block.
- HeapProofs.HeapRunSafe: calls with dead pointers, and reallocations whose copy overruns the new block, are no part of a run.
- KernelHeap.Heap.Kfree: a pointer to no live block whose header word nevertheless reads as in use (into the middle of a payload, or to a freed block overwritten by a new owner) is not covered.
- PhysicalMemory.PageAllocator.Set: `used_pages` is an unbounded integer, of which the C counter is the value modulo 2^64.
- PhysicalMemory.PageAllocator.Init: `total_memory`, which nothing reads, is not computed; the bitmap's bytes are an array of their own rather than bytes of the largest region.
- Tasks.Scheduler.Add: adding the same node twice, which would close the list into a cycle, is excluded.
- The words of the heap and the frames its pages are mapped to are modelled apart; `InitHeap` shows the pages mapped, the heap's proofs use the mapped words.
- Pointers to tables are frame numbers in `Paging`; that adding and subtracting the direct map's offset cancels is `PointerRoundTrip`.
- CR3 is a field; loading it, the TLB and `invlpg` are not modelled.
- Paths with huge entries, which the kernel's walks take for tables, are excluded by `PathClear`.
- PML4 slots that the kernel fills after a space was created are not copied by the source; `KernelMappingShows` says when that shows.
- `vmm_unmap_page`, `vmm_is_mapped`, `vmm_get_physical` and `vmm_dump_mappings` are declared in the header but defined nowhere.
- The fault handlers, among them the on-demand mapping of heap pages in `handle_page_fault`.
- Serial and console output inside these functions, and the format handling of `printf`.
- Several processors: the sources take no locks, and the model is of one.
- Context switches and the scheduler's tick, which ends in an assembly routine that does not return.
- `strlen`, `strcpy`, `strcmp` and their kin, and device, interrupt and display code, are outside the subject of memory management.
