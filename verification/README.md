# A verified model of the kernel's memory manager, scheduler and storage readers

This project models the parts of the kernel that are hardest to get right and proves what they promise
over all inputs and all runs:

- **Physical pages** (`PageBitmap`, `Pmm`, `PmmRuns`): a bump allocator that hands over to a bitmap.
- **Page tables** (`PageTables`, `PageSteps`, `PageMap`, `PageRefinement`, `PageRanges`, `PageOwnership`,
  `PageRoundTrip`, `KernelPages`, `ExactMaps`, `MapFlags`, `Areas`, `Window`, `Bits`, `Vmm`): four levels, a recursive
  window in PML4 slot 510, tables made on demand and given back when they are empty, and the rights of pages.
- **Regions** (`Regions`, `RegionCopies`, `Conservation`): the memory of tasks and its copies, who owns which frame, and
  which steps leak.
- **Many address spaces** (`PageSync`, `KernelTop`, `TaskRegions`, `Coherence`, `Forks`, `ForkRoom`, `Supply`,
  `TaskRuns`): one PML4 per task, with kernel halves that are brought into agreement lazily, switches that map the
  regions of the task, forks, and how much memory these need. `Examples` and `SlotExamples` hold inputs on which they
  fail.
- **The chunk heap** (`HeapSpec`, `HeapSearch`, `HeapLinks`, `HeapGrow`, `HeapWrites`, `KernelHeap`, `HeapRuns`): an
  intrusive, address-ordered, doubly linked free list.
- **The scheduler** (`Sched`, `SchedRuns`, `SchedSlices`, `SchedTicks`, `Scheduler`): the timer handler and its task queue.
- **Exact readers** (`LongNames`, `LongNameReader`, `Disk`, `Partitions`, `DiskWalk`, `Timestamp`): FAT long names,
  byte reads from sectors, partition lists, calendar arithmetic.

Code that updates state step by step is a class or a method with loops (`Pmm`, `Vmm`, `KernelHeap`,
`Scheduler`, `Disk`, `Partitions.Table`, `LongNameReader`), tied by its contracts to functions on values; the
laws and the runs are lemmas about those functions. Physical memory is a map from frames to tables of entries,
and `Vmm` reaches its own tables only through virtual addresses that the modelled processor translates, so that
the recursive window is part of what is proved. The heap's memory is a map from addresses to 8-byte words.

Where the code does less than its comments say, the model follows the code and states exactly when the
property holds:

- The page allocator looks at the first byte of a page only. No byte of a live page is ever reserved exactly if no
  reserved range starts strictly inside a page that is free at the start (`PmmRuns.RunCleanExact`). Boot
  information need not start at a page, and then its first page is handed out (`PmmRuns.BootInfoHandedOut`).
- `task_switch` maps the regions of the task after loading its PML4, in the kernel half too. The kernel's view of
  memory survives exactly if the kernel pages of the regions already have their frames and flags
  (`Coherence.SwitchView`). A forked task has a kernel stack at its parent's address in frames of its own, so that a
  switch to it moves that stack for everybody (`Forks.ForkedRegions`, `Examples.SwitchMovesStack`).
- `task_switch` returns 0 exactly if every region passes the checks of `vmm_map_exact`; it fails for a region of
  one page that is mapped to its frame already (`Coherence.SwitchSucceeds`, `TaskRegions.OnePageFails`).
- `vmm_sync` makes the kernel halves agree exactly if the PML4 slot of its temporary page is taken (`PageSync.Syncing`);
  otherwise the synced PML4 leads to a table that has been given back (`PageSync.SyncDangles`), and cannot be loaded
  (`Coherence.ActivatingExact`). The kernel takes its lowest unmapped page, whose slot is taken unless the page is the
  first of its slot and no later page of it is mapped (`KernelTop.LowestTaken`); that happens when the first slot of the
  kernel area, 512 GiB, is full (`SlotExamples.SyncSpoils`). User slot 255 is not cleared.
- A task that is being forked is not in the queue, and is not told of changes of the PML4. The copies of its
  regions leave no trace there, wherever they are filled; it ends up in agreement exactly if the slots of the page of
  its sync and of the pages that the heap grew by were taken before (`Forks.Forking`). That is so if the slot of the
  lowest unmapped page is begun and has room for the largest region and one page for each (`ForkRoom.RoomSuffices`);
  `SlotExamples.ForkSpoils` is a fork that has not.
- Frames are orphaned exactly by the steps that `Conservation.Harmless` excludes; among them is `region_copy` when the
  heap has no room for the copy's structure or no frame to grow by (`Conservation.CopyLeaks`,
  `Examples.CopyLosesFrame`).
- If the bump position is beyond the bitmap, the marking loop of `pmm_init` writes past its end
  (`Pmm.Pmm.EnableBitmap`); `Pmm.OverrunExact` says when that can be, and `Pmm.OverrunHappens` that it can.
- `heap_alloc` does not try a chunk that breaks a run as the start of the next: it finds the lowest run that begins at
  the first chunk or right after a skipped one (`HeapSearch.AllocExact`), and fails exactly if no such run suffices when
  every page is added (`HeapSearch.AllocFails`). A run with one chunk to spare is always found
  (`HeapSearch.OneMoreServes`), a run without one can be missed (`HeapSearch.RunMissed`).
- `heap_realloc` leaves the free list right exactly if it takes one chunk, or takes neither end of the list
  (`KernelHeap.KernelHeap.ReallocMem`; `HeapRuns.ReallocSpoils` and `HeapRuns.ReallocUnlinks` reach a state where it
  does not).
- `vmm_map_exact` shrinks its page count while it still counts up when the first page already has its frame;
  `ExactMaps.ExactRefused` says exactly when it is then refused, and `ExactMaps.OnePageRefused` that one page is.
- The bitmap covers every page of the region exactly if the page count is a multiple of 8 or its bytes do not
  fill whole pages (`Pmm.CoverageExact`, `Pmm.CoverageFails`).
- A slice has the length `prio * 20` exactly for priorities 1 to 12, because the counter has 8 bits
  (`SchedSlices.SliceFits`).
- The tail of the task queue stays at its head, so tasks always join right after the head
  (`Scheduler.Scheduler.QueueAdd`); `dlist_del` sets a wrong backward link, which nothing reads
  (`Scheduler.Scheduler.QueueDel`).
- An 8.3 name loses its extension unless its base has 8 characters (`LongNames.ShortNameExact`).
- An entry word gives back its address only if it is canonical, so physical addresses below 2^47
  (`Bits.AddressBack`).

## Model

| member | source | states |
|---|---|---|
| `PageBitmap.FirstFit` | kernel/mm/pmm.c:221-261 | the lowest aligned frame that starts `num` free frames, or none if there is none |
| `PageBitmap.FirstFitUnique` | kernel/mm/pmm.c:221-261 | first fit determines the result: any two answers that are lowest fits are equal |
| `PageBitmap.AllocExact` | kernel/mm/pmm.c:221-261 | `pmm_alloc` answers with the lowest aligned frame that starts `num` free ones and takes exactly those; null, with nothing taken, if and only if there is none, no page is asked for, or the alignment is refused |
| `PageBitmap.AlignRefused` | kernel/mm/pmm.c:222-225 | the alignments refused are those that neither divide a page nor are divided by one |
| `Pmm.Pmm.CheckFreeMemory` | kernel/mm/pmm.c:95-124 | true exactly for addresses of available memory outside the kernel, the boot information and known devices |
| `Pmm.ScanStep` | kernel/mm/pmm.c:236-249 | a step of the scan keeps "nothing below the current run fits" although the counter is reset and unaligned starts are skipped |
| `Pmm.ScanEnd` | kernel/mm/pmm.c:251-254 | when the one-pass scan ends it has the first fit, or none exists |
| `Pmm.Pmm.Scan` | kernel/mm/pmm.c:230-254 | the scan over the bitmap returns the first fit of the abstract bitmap |
| `Pmm.Bump` | kernel/mm/pmm.c:196-219 | what the bump allocator hands out was free and aligned, and stays used together with everything used before |
| `Pmm.BumpExact` | kernel/mm/pmm.c:196-219 | in bump mode too the answer is the first fit, null if and only if there is none, no page is asked for or the alignment is refused; and exactly what was used before and everything up to the end of the block is used |
| `Pmm.Pmm.AllocNoBitmap` | kernel/mm/pmm.c:196-219 | the bump scan is first fit from the bump position on: the address is that of the lowest fit of the state before, and null if and only if there is none |
| `Pmm.Pmm.SetBits` | kernel/mm/pmm.c:256-258 | exactly the pages handed out become used |
| `Pmm.Pmm.AllocPages` | kernel/mm/pmm.c:221-261 | in either mode the address is that of the lowest fit of the state before, null if and only if there is none, no page is asked for or the alignment is bad; and the new bitmap |
| `Pmm.Pmm.ClearBits` | kernel/mm/pmm.c:282-300 | succeeds exactly if all pages are used; stops at the first that is not, with those before it freed |
| `Pmm.Pmm.FreePages` | kernel/mm/pmm.c:274-301 | `pmm_free` succeeds exactly if the bitmap exists and every page is allocated in it |
| `Pmm.Pmm.InitRegion` | kernel/mm/pmm.c:126-162 | the region starts at the first page boundary after the kernel and ends in the page where the last available entry does; it exists if and only if some available entry ends a page or more after its start |
| `Pmm.Pmm.EnableBitmap` | kernel/mm/pmm.c:164-194 | every page handed out in bump mode is used in the bitmap, and what the bitmap has free was free; exactly when the marking would leave the bitmap |
| `Pmm.CoverageExact` | kernel/mm/pmm.c:164-166 | the bitmap has a bit for every page if and only if the page count is a multiple of 8 or its bytes do not fill whole pages |
| `Pmm.CoverageFails` | kernel/mm/pmm.c:164-166 | 32769 pages get 32768 bits |
| `Pmm.OverrunExact` | kernel/mm/pmm.c:187-191 | marking the pages handed out can write past the bitmap if and only if it does not cover the region; it does if all pages were handed out |
| `Pmm.OverrunHappens` | kernel/mm/pmm.c:187-191 | 32769 pages that have all been handed out |
| `PmmRuns.TakeSafe` | kernel/mm/pmm.c:196-261 | an allocation in either mode keeps live blocks apart, used, and made of pages that the kernel takes for free memory |
| `PmmRuns.GiveBackSafe` | kernel/mm/pmm.c:274-301 | so does giving back any part of a block, as page-wise unmapping does |
| `PmmRuns.RunSafe` | kernel/mm/pmm.c:126-301 | over every run, with the switch to the bitmap in it, live blocks never overlap and their pages pass the kernel's test |
| `PmmRuns.FreeMemoryExact` | kernel/mm/pmm.c:95-124 | the test passes if and only if the first byte of the page is not reserved and one available entry holds all its bytes |
| `PmmRuns.PageCleanExact` | kernel/mm/pmm.c:95-124 | a page that passes the test holds no reserved byte if and only if no reserved range starts strictly inside it |
| `PmmRuns.RunCleanExact` | kernel/mm/pmm.c:95-301 | over every run no byte of a live page is reserved, if and only if no reserved range starts strictly inside a page that is free at the start |
| `PmmRuns.BootInfoHandedOut` | kernel/inc/boot/boot.h:28-29 | with boot information that starts inside a page, the first allocation hands that page out |
| `PmmRuns.StartSafe` | kernel/mm/pmm.c:126-194 | the allocator object, before or after its bitmap exists, is a safe start of a run |
| `PmmRuns.SwitchAllowed` | kernel/mm/pmm.c:176-191 | what taking the bitmap into use leaves is a step of a run |
| `PmmRuns.TakeThenGiveBack` | kernel/mm/pmm.c:221-301 | freeing an allocation restores the bitmap exactly |
| `PageTables.ForeignFrame` | kernel/mm/vmm.c:67-80 | a frame that holds no table can change without moving any table |
| `PageTables.StoreElsewhere` | kernel/mm/vmm.c:295-353 | writing one entry moves no table that is not below it |
| `PageSteps.Growing` | kernel/mm/vmm.c:302-338 | hanging in a zeroed free frame changes one slot and keeps tables well formed and unshared |
| `PageSteps.Pruning` | kernel/mm/vmm.c:267-289 | unhooking an empty table and freeing it changes one slot and keeps tables well formed and unshared |
| `PageMap.IndicesDetermine` | kernel/mm/vmm.c:48-65 | pages with the same four indices are the same page |
| `PageRefinement.EnsuringPath` | kernel/mm/vmm.c:302-338 | making the tables of a page, alerting other tasks when the PML4 changes, changes no translation |
| `PageRefinement.MappingOne` | kernel/mm/vmm.c:302-350 | mapping one page changes the flat map at that page and nowhere else, leaves other address spaces alone, and leaves no empty table |
| `PageRefinement.CollapsingPath` | kernel/mm/vmm.c:267-289 | collapsing a path removes exactly its empty tables and no translation |
| `PageRefinement.UnmappingOne` | kernel/mm/vmm.c:252-290 | unmapping one page removes that page from the flat map and nothing else, and leaves no empty table |
| `PageRanges.MappingPages` | kernel/mm/vmm.c:295-353 | a mapped range gets frames in order with its flags, every other page keeps its entry, no table is empty |
| `PageRanges.MappedAddresses` | kernel/mm/vmm.c:234-244 | after mapping, `vaddr + k*4096 + o` resolves to `paddr + k*4096 + o` for every page of the range and every offset |
| `MapFlags.FlagsExact` | kernel/mm/vmm.c:82-104 | the flags of entries, as 64-bit words, are those that the branches on the attribute bits compute, for pages and for tables |
| `MapFlags.LeafHas` | kernel/mm/vmm.c:82-104 | which attribute gives a page which flag |
| `MapFlags.TableHas` | kernel/mm/vmm.c:82-89 | which flags a table gets |
| `MapFlags.PagesMapped` | kernel/mm/vmm.c:295-353 | after a range is mapped, every entry on the path of every page of it has the flags of its attributes, and no table entry lost a flag |
| `MapFlags.MappedRights` | kernel/mm/vmm.c:82-104 | after a range is mapped, for every page: bit 63 set iff NO_EXEC, bit 4 iff NO_CACHE, the owner bit iff not SAVE, user code can reach it through the whole path iff USER, and it can be written iff not RDONLY |
| `PageRanges.UnmappingPages` | kernel/mm/vmm.c:246-293 | the pages up to the first failure lose their entries and no other page does; success means all of them |
| `PageRanges.ShapeIsMinimal` | kernel/mm/vmm.c:267-289 | a table exists if and only if some mapped page goes through it |
| `PageOwnership.OwnMapOne` | kernel/mm/vmm.c:302-350 | mapping a page keeps allocated frames partitioned into held frames, tables and frames owned by pages; a frame that the page owned before falls to the holders |
| `PageOwnership.OwnUnmapOne` | kernel/mm/vmm.c:252-290 | unmapping a mapped page never fails and keeps that partition: its frame is freed or handed over, never both |
| `PageRoundTrip.OwnMapPages` | kernel/mm/vmm.c:295-364 | the same for a range that is mapped |
| `PageRoundTrip.OwnUnmapPages` | kernel/mm/vmm.c:246-293 | unmapping a range accounts for each frame of the pages up to the first that is not mapped, and succeeds if and only if all are |
| `PageRoundTrip.TablesFromMap` | kernel/mm/vmm.c:267-289 | the flat map determines which tables exist |
| `PageRoundTrip.MapUnmapRestores` | kernel/mm/vmm.c:246-353 | mapping an unmapped range and unmapping it gives back every table frame, the same tree in the same frames, the same map and the same bitmap |
| `Window.IndexesOfAddr` | kernel/mm/vmm.c:40-65 | the address made of four indices is canonical and has those indices, at any offset in its page |
| `Window.AddrOfIndexes` | kernel/mm/vmm.c:40-65 | the indices of a canonical page address make that address |
| `Window.WalkIsResolve` | kernel/mm/vmm.c:67-80 | the processor's walk (section 4.5 of the Intel SDM, Volume 3A) finds what the kernel's lookup finds |
| `Window.WindowReaches` | kernel/mm/vmm.c:46-65 | in a PML4 whose slot 510 holds its own frame, the computed PML4, PDPT, PD and PT addresses reach the tables on the page's path, entry by entry |
| `Window.WindowFaults` | kernel/mm/vmm.c:46-65 | the address of a table that is missing faults, except that below a 2 MiB entry the PT address reaches the beginning of the large page |
| `Bits.AddressBack` | kernel/mm/vmm.c:33-36 | an entry word gives back its page address if and only if that address is canonical, whatever its flags |
| `Bits.FlagsBack` | kernel/mm/vmm.c:38-38 | an entry word gives back its flags without the accessed and dirty bits |
| `Bits.IndexesBack` | kernel/mm/vmm.c:40-62 | on 64-bit words, shifting and masking gives back the indices that an address was made of |
| `Bits.AddrBack` | kernel/mm/vmm.c:40-62 | on 64-bit words, a canonical page address is made of its indices |
| `Vmm.LookupChain` | kernel/mm/vmm.c:67-80 | how far the path of a page goes decides where its entry is found, 2 MiB entries included |
| `Vmm.Vmm.AlertTasks` | kernel/mm/vmm.c:113-123 | every queued task on another PML4 becomes stale, and no other |
| `Vmm.Vmm.IsTableFree` | kernel/mm/vmm.c:106-111 | true exactly if every entry of the table is zero, read through the window |
| `Vmm.Vmm.EntryFromVaddr` | kernel/mm/vmm.c:67-80 | the window address of the page's entry, or none if and only if the page is not mapped |
| `Vmm.Vmm.ResolveAddress` | kernel/mm/vmm.c:234-244 | the physical address of the flat map, through the window |
| `Vmm.Vmm.EnsureTable` | kernel/mm/vmm.c:318-338 | get or create a table through the window, as the specification of one level says |
| `Vmm.Vmm.EnsureTop` | kernel/mm/vmm.c:303-316 | the PML4 level, with the alert exactly when its entry is new or its flags differ |
| `Vmm.Vmm.EnsureLower` | kernel/mm/vmm.c:318-338 | the two lower tables, through the window, as the specification of the levels says |
| `Vmm.Vmm.MapPage` | kernel/mm/vmm.c:302-350 | one page mapped through the window refines the step on the tree of tables |
| `Vmm.Vmm.MapToPaddr` | kernel/mm/vmm.c:295-353 | the mapping loop refines mapping a range |
| `Vmm.Vmm.CollapsePath` | kernel/mm/vmm.c:267-289 | the three collapse steps through the window refine the collapse of the path |
| `Vmm.Vmm.UnmapPage` | kernel/mm/vmm.c:252-290 | one page unmapped through the window refines the step on the tree of tables |
| `Vmm.Vmm.Unmap` | kernel/mm/vmm.c:246-293 | the unmapping loop refines unmapping a range, with its early return |
| `KernelPages.Find` | kernel/mm/vmm.c:366-403 | the lowest run of unmapped kernel pages before the window, or that there is none |
| `Vmm.Vmm.FindContiguous` | kernel/mm/vmm.c:366-403 | the lowest aligned run of unmapped pages of the area, whenever there is one |
| `Vmm.Vmm.Map` | kernel/mm/vmm.c:405-412 | finding pages, allocating frames and mapping them through the window refines mapping for the kernel |
| `Vmm.Vmm.CheckExact` | kernel/mm/vmm.c:463-495 | the loop of checks passes exactly as specified, although it shrinks the count that it runs to |
| `Vmm.Vmm.MapExact` | kernel/mm/vmm.c:459-498 | the loop over pages refines the specification: passed, refused, or without memory for a table |
| `ExactMaps.ExactMapping` | kernel/mm/vmm.c:459-498 | after it every page of the range has its frame, a first page that had it keeps its flags, and all other pages keep their entries |
| `ExactMaps.ExactRefused` | kernel/mm/vmm.c:463-495 | with reuse, exactly when such a request is refused |
| `ExactMaps.OnePageRefused` | kernel/mm/vmm.c:481-492 | one page that is mapped to its frame already is refused |
| `Areas.AddressBack` | kernel/mm/vmm.c:40-65 | the address of a page is canonical and leads back to the page |
| `Areas.AreaExact` | kernel/mm/vmm.c:22-31 | a page passes the area check if and only if its address is in [0x1000, 0x7fffffffffff) or from 0xffff800000000000 to the start of the kernel image |
| `Areas.AreaStarts` | kernel/mm/vmm.c:22-25 | searches begin at the addresses where the areas do |
| `Areas.AlignExact` | kernel/mm/vmm.c:376-379 | alignments are those of addresses |
| `Areas.UnmappedExact` | kernel/mm/vmm.c:459-498 | a range of unmapped pages is refused if and only if some address is outside the areas, and mapped otherwise while tables can be had |
| `Areas.UserIn` | kernel/mm/vmm.c:22-31 | all pages from address 0x1000 to the end of the lower half are in the areas |
| `Areas.RegionAttrs` | kernel/mm/region.c:19-26 | which attributes each kind of region has, in which area |
| `Areas.RegionRights` | kernel/mm/region.c:123-152 | the pages of a region that was mapped have its frames, and the rights of its kind and area, down the whole path |
| `Areas.RegionMaps` | kernel/mm/region.c:123-152 | after `region_map` succeeds the region has an address and frames, its pages are mapped to them, and what it had before it kept |
| `Areas.RegionMapOk` | kernel/mm/region.c:123-152 | when it succeeds, for each of its three cases, by addresses and free frames |
| `PageSync.MapTop` | kernel/mm/vmm.c:302-316 | mapping a page changes the loaded PML4 in the slot of that page only |
| `PageSync.UnmapTop` | kernel/mm/vmm.c:281-289 | unmapping a page clears the PML4 slot exactly if the page's PDPT goes |
| `PageSync.Syncing` | kernel/mm/vmm.c:141-164 | a sync keeps every translation and every other PML4; the kernel halves agree afterwards if and only if the slot of the temporary page was taken before |
| `PageSync.SyncDangles` | kernel/mm/vmm.c:141-164 | if it was not, the synced PML4 leads to a frame that has been given back |
| `PageSync.AnchoredExact` | kernel/mm/vmm.c:267-289 | the slot of an unmapped page is taken if and only if another page of the slot is mapped |
| `Supply.MapSucceeds` | kernel/mm/vmm.c:302-338 | a page can be mapped while three frames are free, whatever tables exist, and takes at most three |
| `Supply.PagesSucceed` | kernel/mm/vmm.c:295-353 | a range can be mapped while three frames are free for each page, and takes only the lowest of them |
| `SlotExamples.SyncSpoils` | kernel/mm/vmm.c:141-164 | with the image, the bitmap and device memory mapped so that the first kernel slot is full, the sync of a stale task through the page that the kernel finds leaves a PML4 that cannot be loaded |
| `KernelTop.MapPagesTop` | kernel/mm/vmm.c:302-316 | mapping for the kernel leaves PML4 entries of the kernel half that are there as they are |
| `KernelTop.UnmapPagesTop` | kernel/mm/vmm.c:281-289 | unmapping leaves PML4 entries or clears them |
| `KernelTop.SlotUsed` | kernel/mm/vmm.c:267-289 | a kernel slot of the PML4 is taken if and only if a page below it is mapped |
| `KernelTop.LowestTaken` | kernel/mm/vmm.c:366-403 | the slot of the lowest unmapped kernel page is taken if and only if the page is not the first of the slot or a later page of it is mapped |
| `TaskRegions.MappingRegions` | kernel/sched/task.c:120-125 | what the region loop does to every page, as far as it gets, and that tasks are told |
| `TaskRegions.LoopMaps` | kernel/sched/task.c:120-125 | a loop that succeeds leaves every region mapped to its frames |
| `TaskRegions.LoopSucceeds` | kernel/sched/task.c:120-125 | it succeeds if and only if every region passes at its start |
| `TaskRegions.OnePageFails` | kernel/mm/vmm.c:481-492 | it fails for a region of one page that is mapped to its frame already |
| `TaskRegions.ViewExact` | kernel/sched/task.c:120-125 | it leaves all kernel translations alone if and only if the kernel pages of the regions are settled |
| `Coherence.Loading` | kernel/mm/vmm.c:195-206 | loading a PML4 that agrees keeps tables well formed and every kernel translation |
| `Coherence.Activating` | kernel/sched/task.c:107-118 | syncing and loading the PML4 of a queued task changes no kernel translation and keeps all tasks coherent |
| `Coherence.ActivatingExact` | kernel/sched/task.c:107-118 | after a sync the PML4 of a stale task can be loaded if and only if the slot of the page that the sync went through was taken |
| `Coherence.Switching` | kernel/sched/task.c:104-128 | the whole switch keeps all tasks coherent, and every kernel page has the entry that the regions mapped so far give it, or the one it had |
| `Coherence.SwitchView` | kernel/sched/task.c:104-128 | a switch that returns 0 keeps the kernel's view if and only if the kernel pages of the regions have their frames and flags already |
| `Coherence.SwitchMaps` | kernel/sched/task.c:120-127 | a switch that returns 0, other than to the loaded PML4, leaves every region mapped to its frames |
| `Coherence.SwitchSucceeds` | kernel/sched/task.c:120-127 | it returns 0 if and only if every region passes the checks in the task's own address space |
| `Supply.SwitchServed` | kernel/sched/task.c:104-128 | with three free frames for each page of the regions and three more, a switch gets all its tables, and returns 0 if and only if every region passes the checks |
| `Areas.UserSwitch` | kernel/sched/task.c:104-128 | a switch to a task whose regions lie in the user area and are not mapped there returns 0 and maps each to its frames |
| `Examples.SwitchMapsUser` | kernel/sched/task.c:104-128 | a state and a switch that map a user code region of one page at address 0x400000 |
| `Coherence.ForkedSwitch` | kernel/sched/stack.c:25-32 | a switch to a task with its parent's addresses and other frames changes the translation of each page of a kernel region |
| `Examples.SwitchMovesStack` | kernel/sched/task.c:104-128 | a state and a switch that move a kernel stack to another frame; mapping it once more fails |
| `Coherence.NewTaskGood` | kernel/mm/vmm.c:166-183 | a new PML4 is well formed and the rest is as before; it agrees with the loaded one if and only if the slot of the page of its sync was taken |
| `Coherence.Exiting` | kernel/sched/task.c:70-94 | giving back a dead task's region frames and PML4 disturbs nobody |
| `Coherence.ExitGivesBack` | kernel/sched/task.c:70-94 | exactly the frames of the regions and of the PML4 are given back |
| `Coherence.Enqueuing` | kernel/sched/sched.c:36-75 | a task that joins the queue keeps coherence if and only if it is stale, uses the loaded PML4, or agrees with it |
| `Coherence.Touching` | kernel/mm/vmm.c:313-314 | the accessed bit that the processor sets breaks nothing |
| `Forks.CopySeen` | kernel/mm/region.c:160-189 | after a copy, with the heap growing between its mapping and its unmapping, PML4 entries that were there are as before, and the only new one is that of the page that the heap grew by |
| `Forks.CopyUnseen` | kernel/mm/region.c:160-189 | if the heap did not grow, the kernel halves of all PML4s are as they were, wherever the copy is filled, and also if it fails |
| `Forks.SlotsAgree` | kernel/mm/vmm.c:113-123 | a task that is not queued stays in agreement if the slot of the page that the heap grew by was taken, and is behind if not |
| `Forks.CopyAllSeen` | kernel/sched/task.c:50-60 | over all copies a PML4 that is not loaded stays in agreement if the slots of all pages that the heap grew by were taken at the start, and is behind if not |
| `Forks.NewTaskKeeps` | kernel/mm/vmm.c:166-183 | making a PML4 leaves every frame in use, every table and every mapping as they were |
| `Forks.ForkIsolated` | kernel/sched/task.c:37-68 | a fork, successful or not, leaves every frame in use, every table and every mapping as they were; the child's regions are the parent's in order, with equal contents, in frames that were free and that no two share, though the heap grows meanwhile |
| `Supply.ForkServed` | kernel/sched/task.c:37-68 | with runs of free frames and of unmapped kernel pages that are long enough, a fork succeeds if and only if every region has a page and the heap has room for every structure |
| `Forks.Forking` | kernel/sched/sched.c:214-247 | a fork keeps all tasks coherent if and only if it fails, or the slots of the page of its sync and of all pages that the heap grew by were taken before |
| `ForkRoom.RoomSuffices` | kernel/mm/vmm.c:366-403 | they are if the lowest unmapped kernel page is not the first of its slot and the slot has more unmapped pages than the largest region and one for each region |
| `Forks.ForkedRegions` | kernel/sched/task.c:50-60 | of any fork of a task with a kernel region: a switch to the child, while that region is mapped, changes the translation of all its pages |
| `SlotExamples.ForkSpoils` | kernel/sched/task.c:37-68 | with all but the last page of the first kernel slot mapped, a fork of a task with one page, during which the heap grows, queues a child whose kernel half is not the parent's |
| `TaskRuns.StepGood` | kernel/mm/vmm.c:113-164 | every step of map, unmap, fork, switch, exit and touch keeps coherence, well-formed tables and no empty table, with the pages that the kernel finds |
| `TaskRuns.RunGood` | kernel/mm/vmm.c:113-353 | over every run every queued task whose PML4 is not loaded is stale or agrees with the loaded kernel half |
| `Regions.CopyingPages` | kernel/mm/region.c:173-174 | copying pages moves contents between frames and leaves tables and translations alone |
| `RegionCopies.MappingKernel` | kernel/mm/vmm.c:405-412 | mapping for the kernel gives fresh frames to the lowest run of unmapped pages, and leaves every other page, every table and every frame in use alone |
| `RegionCopies.KernelExact` | kernel/mm/vmm.c:405-412 | the pages are the lowest unmapped run, the frames the first fit; null only if no page is asked for or there are no frames |
| `RegionCopies.CopyKeeps` | kernel/mm/region.c:160-189 | a copy, successful or not, leaves every frame in use, every table and every mapping as they were, but for the page that the heap grew by |
| `RegionCopies.CopyYields` | kernel/mm/region.c:160-189 | a copy that succeeds has the region's kind, area, address and length, and its contents in frames that were free |
| `RegionCopies.CopyOwned` | kernel/mm/region.c:160-189 | the frames that a copy obtains go to its caller, those of the heap to its page, and all others stay with their owners |
| `RegionCopies.CopiesIsolated` | kernel/sched/task.c:50-60 | the copies of all regions have equal contents in frames that were free and that no two share |
| `Conservation.StepOwned` | kernel/mm/region.c:44-189 | each of map, unmap (of part of a range too), region_new, region_map, region_unmap, region_copy and region_free keeps allocated frames the disjoint union of tables, page frames, regions, what was in use from the start, and what is lost |
| `Conservation.LostMeans` | kernel/mm/pmm.c:256-301 | the lost frames are exactly the orphans: allocated, but in no region, table or page, and not in use from the start |
| `Conservation.LossExact` | kernel/mm/vmm.c:246-498 | after a step there is an orphan that was none before if and only if the step broke one of the rules that a caller can check |
| `Conservation.CopyLeaks` | kernel/mm/region.c:167-186 | a region copy orphans frames if and only if it got some and the heap then has no room, or no frame to grow by |
| `Examples.CopyLosesFrame` | kernel/mm/region.c:170-186 | a run of three steps that ends with an orphan |
| `Conservation.RunOwned` | kernel/mm/vmm.c:246-498 | over every run nothing is owned twice, orphans stay orphans, and there are new ones if and only if some step broke a rule |
| `HeapSpec.Extending` | kernel/mm/heap.c:62-88 | a page added keeps the list sorted and apart, and adds exactly its chunks |
| `HeapSpec.Searching` | kernel/mm/heap.c:103-135 | the search finds adjacent chunks that suffice, and no more than needed, or fails only when no page is left |
| `HeapSearch.SearchExact` | kernel/mm/heap.c:103-135 | the search adds no page while a run can serve, and takes the lowest that can |
| `HeapSearch.AllocExact` | kernel/mm/heap.c:103-168 | `heap_alloc` adds pages exactly until a run of adjacent chunks from a possible start on, long enough and with a chunk after it, exists in the list; it takes the lowest such run, and no more of it than needed |
| `HeapSearch.AllocFails` | kernel/mm/heap.c:132-135 | it fails if and only if there is no such run when every page is added |
| `HeapSearch.OneMoreServes` | kernel/mm/heap.c:103-135 | a run with one chunk more than needed, and a chunk after it, always serves, without a new page |
| `HeapSearch.RunMissed` | kernel/mm/heap.c:122-126 | a list with a run of enough chunks and a chunk after it on which the allocation fails |
| `HeapSpec.Allocating` | kernel/mm/heap.c:103-168 | an allocation is new, holds `16 + 32k >= size` bytes with the least such k, loses no chunk and touches no live block |
| `HeapSpec.Releasing` | kernel/mm/heap.c:243-281 | a release keeps the list sorted and apart, makes exactly the chunks of the block free, and exactly that block is no longer live |
| `HeapSpec.AllocThenFree` | kernel/mm/heap.c:103-281 | freeing a block right after an allocation that did not extend the heap restores the same heap |
| `HeapLinks.Bypassing` | kernel/mm/heap.c:137-161 | letting the neighbours of a run point at each other takes it off the doubly linked list, at the ends too |
| `HeapLinks.Inserting` | kernel/mm/heap.c:255-280 | linking a run in between two positions puts it on the doubly linked list, at the ends too |
| `HeapLinks.WritesKeep` | kernel/mm/heap.c:42-57 | writes to free chunks touch no tag and no payload of a live block |
| `HeapGrow.Missing` | kernel/mm/heap.c:183-204 | the least number of chunks that a block lacks |
| `HeapGrow.Growing` | kernel/mm/heap.c:226-240 | growing in place keeps the invariant and every chunk |
| `HeapGrow.Reallocating` | kernel/mm/heap.c:170-241 | a reallocation keeps the invariant and every chunk, holds `size` bytes, and changes no other live block |
| `HeapGrow.RoomExact` | kernel/mm/heap.c:186-204 | there is room in the sorted list if and only if each of the next chunks is free |
| `HeapGrow.ReallocExact` | kernel/mm/heap.c:170-241 | the same block if it is large enough; the same block, longer by the least number of chunks, if those are all free; else what an allocation answers, with the old block released |
| `HeapWrites.PayloadWrites` | kernel/mm/heap.c:42-57 | whatever the owner of a block writes into it leaves the list, the tags and the other blocks alone |
| `KernelHeap.KernelHeap.Extend` | kernel/mm/heap.c:62-88 | the links, the ends and the tags after a page was added are those of the extended heap |
| `KernelHeap.KernelHeap.ChunkNext` | kernel/mm/heap.c:90-101 | the next chunk of the list, extended rather than ended |
| `KernelHeap.KernelHeap.Unlink` | kernel/mm/heap.c:137-165 | the run leaves the list, which stays linked both ways with right ends, and is tagged with its size |
| `KernelHeap.KernelHeap.AllocBytes` | kernel/mm/heap.c:103-168 | the loop over links finds what the specification finds, and keeps every payload |
| `KernelHeap.KernelHeap.FreeMem` | kernel/mm/heap.c:243-281 | null is ignored, untagged addresses panic, and any other block goes back to its place in address order |
| `KernelHeap.KernelHeap.Claim` | kernel/mm/heap.c:186-204 | the scan claims the missing chunks if and only if they are free right after the block |
| `KernelHeap.KernelHeap.Absorb` | kernel/mm/heap.c:220-240 | the block takes over the chunks; the list is right afterwards if and only if one chunk was taken or neither end |
| `KernelHeap.KernelHeap.Move` | kernel/mm/heap.c:206-218 | a new block with the old contents replaces the old one; the copy faults if there is no memory |
| `KernelHeap.KernelHeap.ReallocMem` | kernel/mm/heap.c:170-241 | result and heap as specified, the first old-size bytes kept, other live blocks untouched, and exactly when the list stays right |
| `HeapRuns.RunKeeps` | kernel/mm/heap.c:103-281 | over every run of alloc, free and realloc the list stays sorted and apart, and no chunk is lost |
| `HeapRuns.Partition` | kernel/mm/heap.c:62-281 | from the empty heap on, the chunks of the pages given are each free or in exactly one live block, and there are no others |
| `HeapRuns.FreeIsUntagged` | kernel/mm/heap.c:252-253 | a free chunk never looks tagged, so a second release panics |
| `HeapRuns.ReallocSpoils` | kernel/mm/heap.c:232-236 | one allocation after which growing by two chunks takes the first chunk of the list |
| `HeapRuns.ReallocUnlinks` | kernel/mm/heap.c:226-239 | then the list begins with a chunk of the block and its links no longer run through the free chunks |
| `Sched.PickGood` | kernel/sched/sched.c:104-126 | the task picked exists and is not dead |
| `Sched.AddGood` | kernel/sched/sched.c:36-75 | a task with at most the head's priority joins the chain once, as `[head, task] + rest`; one with a higher priority does not; it is promoted if and only if it is above the current task |
| `Sched.CleanGood` | kernel/sched/sched.c:77-101 | exactly the dead task leaves |
| `Sched.HandleGood` | kernel/sched/sched.c:162-254 | what the current task's state asks for keeps the queue sound; a fork adds exactly one task, and a dead task is no longer current |
| `Sched.TurnGood` | kernel/sched/sched.c:161-290 | after the handler the current task exists and is ready, nobody is dead, and only a dead task is gone |
| `SchedRuns.InitGood` | kernel/sched/sched.c:363-380 | the queue that initialisation leaves is sound |
| `SchedRuns.StepGood` | kernel/sched/sched.c:144-431 | every tick, state change and exit keeps the invariant and the head; after a tick that is not held off the current task is on the chain, ready, and nobody is dead |
| `SchedRuns.RunCounts` | kernel/sched/sched.c:144-290 | over every run the chain holds each task once, tasks are those born less those buried, and no request to fork makes two children |
| `SchedSlices.TickStays` | kernel/sched/sched.c:262-288 | when a tick of a task that neither waits nor is dead selects, and what it does to the counter if it does not |
| `SchedTicks.SelectsExact` | kernel/sched/sched.c:161-277 | for every state of the current task: a tick selects if and only if the task is not held and waits, is dead, or has used its slice |
| `SchedTicks.FirstTick` | kernel/sched/sched.c:154-155 | the first tick is one of the head, or of the promoted task |
| `SchedTicks.TickHeld` | kernel/sched/sched.c:163-171 | a tick of a held task changes nothing |
| `SchedTicks.HandleExact` | kernel/sched/sched.c:162-254 | a fork puts the child right after the head and promotes nobody; a waiting task loses its ticks; nothing else changes |
| `SchedTicks.TickRuns` | kernel/sched/sched.c:279-288 | the whole queue after a tick that does not select: one tick less, ready, and the child of a fork |
| `SchedTicks.TickSwitches` | kernel/sched/sched.c:188-199 | the whole queue after a tick of a task that waits or has used its slice: the promoted task is current, or the next on the chain, or the head after the last, with its slice less one tick |
| `SchedTicks.TickBuries` | kernel/sched/sched.c:201-212 | the whole queue after a tick of a dead task: it is gone, the promoted task or the head is current, and nobody else changed |
| `SchedSlices.SliceFits` | kernel/inc/sched/task.h:201-201 | the 8-bit counter gives slices of `prio * 20` ticks if and only if the priority is 1 to 12 |
| `SchedSlices.SliceExact` | kernel/sched/sched.c:262-288 | a selected task that neither waits nor exits is current for exactly its slice, not counting ticks that it holds off |
| `SchedSlices.Rotates` | kernel/sched/sched.c:104-126 | in a run without fork or exit the current task is as many positions on as there were selections |
| `SchedSlices.Fair` | kernel/sched/sched.c:104-126 | in such a run every task on the chain becomes current within as many selections as there are tasks |
| `SchedTicks.SelectionsCome` | kernel/sched/sched.c:262-288 | over every run at least one in 256 ticks that are not held off selects, whatever the tasks do |
| `SchedTicks.FairTicks` | kernel/sched/sched.c:104-126 | in a run without fork or exit every task on the chain becomes current within 256 ticks for each task, and 255 more, that are not held off |
| `Scheduler.Scheduler.QueueAdd` | kernel/sched/sched.c:36-75 | the walk back from the tail puts the task right after the head, or nowhere if its priority is higher |
| `Scheduler.Scheduler.QueueDel` | kernel/inc/util/list.h:69-88 | the forward chain loses exactly the entry; the head's backward link stays null |
| `Scheduler.Scheduler.QueueClean` | kernel/sched/sched.c:77-101 | the first dead task that is not current is unlinked and freed |
| `Scheduler.Scheduler.QueueNext` | kernel/sched/sched.c:104-126 | terminates, and returns the promoted task, the next one that is not dead, or the head |
| `Scheduler.Scheduler.TimerHandler` | kernel/sched/sched.c:144-290 | the handler over links is the handler on values, and reads no freed task |
| `Scheduler.Scheduler.SetState` | kernel/inc/sched/sched.h:28-35 | the running task changes its own state only |
| `Scheduler.Scheduler.Exit` | kernel/sched/sched.c:398-431 | a panic for the head, otherwise the current task is dead until the next tick |
| `LongNames.TextInverts` | kernel/fs/fat32/entry.c:45-61 | the three loops read back any part that was padded into 13 characters |
| `LongNames.RoundTrip` | kernel/fs/fat32/entry.c:77-151 | every name of 1 to 254 characters, stored last part first with unused entries in between (section 7 of the Microsoft FAT Specification), is read back, and the cursor is on its short entry |
| `LongNames.RoundTripExact` | kernel/fs/fat32/entry.c:84-100 | exactly names of at most 254 characters that fit the buffer with a terminator are read |
| `LongNames.ShortReads` | kernel/fs/fat32/entry.c:108-117 | what an entry without long-name entries is read as |
| `LongNames.ShortNameExact` | kernel/fs/fat32/entry.c:108-113 | an 8.3 name is read as base, dot and extension if and only if it has no extension or a full base |
| `LongNameReader.ReadText` | kernel/fs/fat32/entry.c:45-61 | the buffer holds the text of the entry |
| `LongNameReader.ReadShort` | kernel/fs/fat32/entry.c:108-117 | the loop over an 8.3 name fills the buffer as specified, with its errors |
| `LongNameReader.EntryName` | kernel/fs/fat32/entry.c:77-151 | outcome, buffer and cursor of the whole loop, 16-bit index arithmetic and errors included |
| `Disk.Disk.ReadLba` | kernel/core/disk/disk.c:73-102 | succeeds exactly if every needed sector can be read, and then the buffer holds exactly the bytes and is untouched after them |
| `Disk.Disk.ReadWhole` | kernel/core/disk/disk.c:79-89 | the sector loop fills the buffer sector by sector and stops at the first failure |
| `Disk.Disk.ReadRest` | kernel/core/disk/disk.c:91-101 | the part of the last sector completes the bytes |
| `Disk.Disk.ReadBytes` | kernel/core/disk/disk.c:104-117 | any byte range is read exactly, aligned or not |
| `Partitions.Table.Add` | kernel/core/disk/part.c:13-47 | the existing partition, or a new one at the head; never two with the same place; the count is right |
| `Partitions.Table.Block` | kernel/core/disk/part.c:49-54 | no partition is available afterwards, and nothing else changed |
| `Partitions.Table.Clear` | kernel/core/disk/part.c:56-82 | exactly the available partitions remain, in order, and the others are freed |
| `Partitions.Table.Load` | kernel/core/mbr.c:64-72 | the partition found is there and available, the others are as before |
| `Partitions.Table.Scan` | kernel/core/disk/part.c:84-116 | after a successful scan the list holds exactly what was found, without duplicates, counted right, with old structures reused |
| `DiskWalk.Next` | kernel/core/disk/disk.c:137-160 | terminates, and returns an available partition that is further on |
| `DiskWalk.WalksAll` | kernel/core/disk/disk.c:137-160 | repeated calls visit the list of all available partitions, disk by disk |
| `DiskWalk.VisitsOnce` | kernel/core/disk/disk.c:137-160 | each available partition of each disk is visited once, in order, and nothing else is |
| `Timestamp.YearStep` | kernel/util/timestamp.c:38-40 | the closed formula grows by the days of the year |
| `Timestamp.MonthStep` | kernel/util/timestamp.c:42-44 | the table of days before a month grows by the days of the month |
| `Timestamp.Calc` | kernel/util/timestamp.c:34-52 | for every date from 1970 on the loops equal the formula of section 4.16 of the POSIX.1-2017 Base Definitions |
| `Timestamp.Ascending` | kernel/util/timestamp.c:34-52 | timestamps are ordered exactly as dates are, and distinct for distinct dates |

## Left out

- Hardware: assembly, port and MSR access, the TLB, interrupts, PIC, PCI, AHCI registers, serial, video. CR3 is a variable; the accessed bit is the one thing the processor writes (`Coherence.Touching`); a disk is its bytes and the set of sectors that fail.
- Failure of `pmm_alloc` while a table or the PML4 of a fork is made: the kernel does not check it, so the model has no state after it (`None`); `Supply.MapSucceeds`, `Supply.SwitchServed` and `Supply.ForkServed` say when it cannot happen.
- Pages inside 2 MiB mappings and pages of the window slot are not mapped or unmapped in the model; lookups do handle 2 MiB entries.
- Words of data pages that a copy moves are modelled as table entries, page by page.
- The bitmap of the frame allocator is a sequence of bits with a word index and a bit number, not 64-bit words.
- `vmm_set`, `vmm_clear`, `vmm_vma` and `vmm_init`: easy members.
- User tables that `vmm_sync` drops when it clears slots 0 to 254 are not given back by the kernel; conservation (`Conservation.RunOwned`) is stated for runs without a sync.
- Vmm.Vmm.FindContiguous: needs a run of unmapped pages to exist, because the loop of the kernel has no end of its own.
- Vmm.Vmm.ResolveAddress: 1 GiB entries in a PDPT are outside well-formed tables.
- Supply.ForkServed: asks for its frames and for its pages in one run each, and for three frames for the tables of every page; a fork needs less, and what it takes is not stated to the frame.
- Coherence.NewTaskGood: needs slot 255 of the new frame to be zero, because the sync neither clears nor copies it.
- TaskRuns.StepGood: the slot of the lowest unmapped kernel page has room for a fork, and that page is not the first of its slot when a switch must sync; `Forks.Forking`, `Coherence.ActivatingExact` and `SlotExamples` show that this is needed.
- Coherence.SwitchView: regions of one task do not share pages, as those of two program segments in one page would; the same holds for `Coherence.SwitchMaps`, `Coherence.SwitchSucceeds`, `TaskRegions.LoopMaps`, `TaskRegions.LoopSucceeds` and `TaskRegions.ViewExact`. `Coherence.Switching` does not need it.
- Coherence.Switching: every region of a task has an address and frames; the kernel maps regions before it adds them. If a stale task is synced through a page of a free slot, its PML4 is corrupt (`Coherence.ActivatingExact`) and nothing is promised of the switch.
- Forks.Forking: says nothing of a fork whose sync goes through a page of a free slot into which the heap then grows: by chance that may give the slot the very frame that the sync left in the child's PML4. A failed fork leaves its PML4 and its copies behind, as in the kernel; the heap grows by at most one page for the structure of a region, which a page holds many times over; the structure of the task is allocated before, by a step of its own.
- Conservation.StepOwned: device frames that are mapped without the save attribute, as the frame buffer is, are not in the model; the pages of a region without an address are given.
- The list operations of `region_add`, `region_del` and `region_find`: regions are sequences in order.
- Pmm.Pmm.InitRegion: the branch that would lower the start of the region is never taken, since the start is still 0, and has no counterpart.
- KernelHeap.KernelHeap.AllocBytes: needs a size above 0, and pages that come in ascending order, because a new page is appended at the tail and `heap_free` relies on the order.
- KernelHeap.KernelHeap.FreeMem: an address whose tag word holds the magic value must be a live block; forged tags are not modelled.
- Scheduler.Scheduler.TimerHandler: signals, registers and the wait queue; the address space switch inside the handler is `Coherence.Switching`. A running task sets its own state and priority between ticks.
- Scheduler.Scheduler.Exit: PIDs, and so the new parent of a dead task's children.
- Scheduler.Scheduler.QueueDel: the head is not deleted; the invariant shows that it never is.
- LongNameReader.EntryName: the end of the directory buffer counts as the end of the directory, since the kernel has no bound there.
- Disk.Disk.ReadBytes: a size of 0 is not modelled, since it is left to the controller; disk writes are not modelled.
- Partition tables themselves (MBR and GPT parsing): what they contain is a parameter of `Partitions.Table.Scan`.
- DiskWalk.Next: disks and partitions are sequences of flags rather than links.
- FAT cluster chains, file contents, VFS, mounts, ELF loading, system calls, string formatting, strings and locks.
