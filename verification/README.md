# DedOS kernel model

A Dafny model of the parts of the DedOS kernel that carry invariants, with proofs that hold for every input, every run
and every reachable state of the model:

- **Memory.** The bitmap frame allocator, the four-level page tables stored in the frames it hands out, and the kernel
  heap on top of both: intrusive slab free lists in directly mapped frames and page-backed large blocks in a
  bump-allocated virtual region. `kfree` finds a large block's frames only by walking the page tables, so conservation
  of heap memory rests on the page tables, which rest on the freshness of frames.
- **Scheduling.** The run queue as a state machine over interrupts, sleep, exit, yield, lock, unlock and the two stores
  of an addition, and the interrupt stub as a push and pop machine, so that "a thread resumes with the registers it
  had" is one theorem from stub to stub.
- **Files.** The path tokenizer and tree walk, the tmpfs tree, and the ustar loader that fills it.

Each subsystem has two layers. The value layer (`FrameRuns`, `PageTables`, `AddressSpaces`, `Slabs`, `HeapState`,
`SlabHeap`, `LargeHeap`, `BlockCost`, `HeapRuns`, `HeapBlocks`, `HeapAccounts`, `HalfMapped`, `Scheduling`,
`SchedulerRuns`, `UnlockedAddition`, `Fairness`, `InterruptStub`, `ThreadStacks`, `FileTree`, `FileEntries`,
`FileStorage`, `Ustar`, `ArchiveTrees`) gives every operation as a function on a state and proves the theorems, most of
them by induction over runs. The object layer (`FrameAllocator.Pmm`, `Vmm.PageMapper`, `Heap.KernelHeap`,
`Scheduler.RunQueue`, `Threads`, `CStrings`, `Tmpfs.FileSystem`, `Initrd`) is the code as it runs: bitmap bytes,
page-table words, free-list pointers, `next` pointers and character buffers changed in place by loops. The operations
of that layer are proved equal to the corresponding function of the value layer, so the theorems are theorems about it;
the string loops and thread creation have their specification in their own contracts. Every lemma is marked
`{:induction false}`: each induction is written out in its proof.

Physical memory is a map from frame number to 512 words. The page-table tree is kept as a ghost map `place` that gives
each table frame its owner, level and virtual-address prefix; distinctness of reachable tables and the independence of
lower halves follow from it. 64-bit wrap-around of the tick counter, of wake times, of octal sizes and of archive
offsets, and the 8-bit path cursor, are written out with `%`.

## What the proofs found

These are properties one might expect that the code does not have. The code is modelled as it is, and each one has a
lemma that states exactly when it holds or shows that it fails.

- `vmm_get_phys` returns the `phys` given to `vmm_map` if and only if `phys` is page aligned, for flags in bits 0..11
  (`AddressSpaces.MapRoundTrip`); for other flags the value is given exactly by `AddressSpaces.MapHit`.
- `vmm_map` cannot report failure, so a large `kmalloc` can hand out a block whose last page is not mapped, or fault on
  the header of a one-page block. The number of free frames before the call decides: it happens if and only if they
  cover every page but the last with its tables and one frame more, but not the tables the last page lacks
  (`BlockCost.LargeOutcome`; `HalfMapped.HalfMappedRun` is a run that gets there). `kfree` of such a block leaks one
  frame (`LargeHeap.LargeConservation`), and `thread_create` on such a stack faults (`ThreadStacks.StackStore`).
- A page map and the one it was copied from share an upper-half PML4 slot, ever after, if and only if it was present at
  copy time (`AddressSpaces.SharedExactlyIfPresent`).
- `pmm_free` of a page between `total_pages` and the end of the bitmap's last byte raises the counter although no frame
  becomes free (`FrameAllocator.Pmm.FreeFrame`, `FrameAllocator.Pmm.FreePastTheEnd`).
- Sizes 1001..1024 have no slab class and are too small for the page path: `kmalloc` always gives NULL
  (`SlabHeap.KmallocSlabOutcome`). The tmpfs copies file data without looking, so the initrd loader faults on the first
  file of such a size and loads nothing after it: an archive loads completely if and only if it has no such file
  (`ArchiveTrees.ArchiveLoads`; `Ustar.SmallGapArchive` is one that does not). Given the frames, exactly the other
  sizes are granted (`FileStorage.StorableIsGranted`).
- The reap pass never finds a thread: an exited thread is never queued, so `thread_destroy` is never called and its
  stack is never given back (`Scheduling.ReapFindsNothing`, `SchedulerRuns.NothingIsDestroyed`).
- The requeue is at the head, so there is no fairness: while threads neither block nor end nor are added, of the
  threads ready when a running one is switched out only the first in the queue ever runs
  (`Fairness.OnlyFirstReadyRuns`; `Fairness.StarvedThreads` is a run with two starved threads).
- `scheduler_add_thread` outside the lock can lose a ready thread: `UnlockedAddition.LostThread` is such a run. It
  keeps the scheduler's invariant if and only if the head of the run queue is the same at its two stores
  (`UnlockedAddition.UnlockedAdditionSurvives`); preempted once, if and only if the interrupt does not have to reach
  past a blocked head for a ready thread (`UnlockedAddition.PreemptedOnceAddition`). When the head has changed, a
  thread is lost if the old head is still queued (`UnlockedAddition.LosesThreadIf`).
- `tmpfs_add_entry` puts an entry whose parent path is missing in the root, so the added path then finds the new node
  if and only if the entry has a name and its parent path names a directory (`FileEntries.AddThenFind`).
- A lookup that runs into a file with components left keeps one vnode open, and every `tmpfs_add_entry` below a
  directory keeps its parent's vnode open (`Tmpfs.FileSystem.FindPath`, `Tmpfs.FileSystem.AddEntry`).
- The comment beside `THREAD_STACK_SIZE` in `kernel/src/scheduler/thread.h` says 64 KB; the constant is 4096, and the
  model uses 4096.

## Model

| member | source | states |
|---|---|---|
| `FrameAllocator.SetTest` | kernel/src/mm/pmm.c:7-9 | setting a bit changes exactly that bit, across byte boundaries |
| `FrameAllocator.ClearTest` | kernel/src/mm/pmm.c:7-9 | clearing a bit changes exactly that bit |
| `FrameAllocator.FreeFramesUpdate` | kernel/src/mm/pmm.c:7-9 | the set of clear bits below `total_pages` loses or gains exactly the bit that is set or cleared |
| `FrameAllocator.HighestAttained` | kernel/src/mm/pmm.c:24-31 | the end of usable memory is the end of some usable entry, unless it is 0 |
| `FrameAllocator.Pmm.FindHighest` | kernel/src/mm/pmm.c:24-31 | the scan gives the highest end of a usable entry: no usable entry ends past it and one ends there, or it is 0 |
| `FrameAllocator.Pmm.FindSlot` | kernel/src/mm/pmm.c:36-42 | the first usable entry at least as long as the bitmap, or none |
| `FrameAllocator.Pmm.Init` | kernel/src/mm/pmm.c:17-75 | for every memory map of aligned, disjoint usable entries: `total_pages` pages end where the last usable entry ends; either no usable entry is as long as the bitmap, or the bitmap is at the start of the first that is, and afterwards exactly the pages inside usable entries that do not overlap the bitmap's bytes are free, the counter counts the clear bits, and the bits past `total_pages` are set |
| `FrameAllocator.Pmm.Alloc` | kernel/src/mm/pmm.c:77-87 | takes the lowest free frame and returns its address; when none is free returns 0 and changes nothing (the address of frame 0 is also 0); counter and bitmap stay in agreement |
| `FrameAllocator.Pmm.FreeFrame` | kernel/src/mm/pmm.c:89-95 | a page below `total_pages` joins the free set, and freeing a free one changes nothing; the counter stays right if and only if the page is below `total_pages` or its bit in the last byte is clear |
| `FrameAllocator.Pmm.FreePastTheEnd` | kernel/src/mm/pmm.c:17-95 | after initialisation, freeing the page at `total_pages` leaves the counter one too high whenever the bitmap has a bit for it |
| `FrameRuns.Allocate` | kernel/src/mm/pmm.c:77-87 | a call of `pmm_alloc` is one event of the runs below, with their effect on the free set |
| `FrameRuns.Release` | kernel/src/mm/pmm.c:89-95 | a call of `pmm_free` of a frame in use is one event of the runs below |
| `FrameRuns.HandedOutAgainOnlyAfterFree` | kernel/src/mm/pmm.c:77-95 | in every run a frame in use is handed out only after a free of it |
| `FrameRuns.NoDoubleHandout` | kernel/src/mm/pmm.c:77-95 | in every run between two hand-outs of a frame there is a free of it |
| `FrameRuns.OnlyManagedFrames` | kernel/src/mm/pmm.c:17-95 | only frames freed at initialisation are ever handed out, and the free count is conserved over every run |
| `Words.PageBaseOfOr` | kernel/src/mm/vmm.c:52 | masking an or of two words is the or of their page numbers |
| `Words.OrAligned` | kernel/src/mm/vmm.c:30 | or-ing flags below 4096 into an aligned address adds them |
| `PageTables.IndexIsField` | kernel/src/mm/vmm.c:40-43 | the four shifts and masks are the four 9-bit fields of the page number |
| `PageTables.IndicesDeterminePage` | kernel/src/mm/vmm.c:40-43 | two pages with the same four indices are the same page |
| `PageTables.LinkKeepsTree` | kernel/src/mm/vmm.c:17-32 | linking a zeroed fresh table keeps the tree: tables distinct, in place, none free |
| `PageTables.LinkKeepsLookups` | kernel/src/mm/vmm.c:17-32 | linking an empty table changes no leaf word seen from any table |
| `PageTables.LinkCost` | kernel/src/mm/vmm.c:21-31 | linking takes exactly one frame from the allocator and makes it a table |
| `PageTables.MapCost` | kernel/src/mm/vmm.c:45-52 | from any level down: success exactly when the missing tables fit in the free frames, cost exactly those tables, on failure all free frames are linked |
| `AddressSpaces.MapLookups` | kernel/src/mm/vmm.c:34-53 | one statement of every leaf word after a map, from every table at every level |
| `AddressSpaces.MapOutcome` | kernel/src/mm/vmm.c:34-53 | keeps the tree; reaches the leaf if and only if the 0 to 3 missing tables can be allocated; costs exactly them, and on failure exactly the 0 to 2 already linked |
| `AddressSpaces.MapHit` | kernel/src/mm/vmm.c:52 | the leaf word of every address of the mapped page is the or of `phys` and `flags`, all its bits, and its translation is that word masked |
| `AddressSpaces.MapLeaf` | kernel/src/mm/vmm.c:52 | for an aligned frame and flags in bits 0..11 the leaf word is `phys + flags`: present, writable and open to user mode exactly as the flags say |
| `AddressSpaces.MapEntryFlags` | kernel/src/mm/vmm.c:17-50 | on the walk to the mapped page, entries that were present are as they were, and each created one links a frame that was free with the bits 7 if the mapping is for user mode and 3 if not |
| `AddressSpaces.MapRoundTrip` | kernel/src/mm/vmm.c:105-121 | with flags in bits 0..11 the translation is `phys` if and only if `phys` is page aligned |
| `AddressSpaces.MapMiss` | kernel/src/mm/vmm.c:34-53 | the leaf word of every other page of every page map is unchanged, and a failed map changes no leaf word at all |
| `AddressSpaces.UnmapOutcome` | kernel/src/mm/vmm.c:55-72 | keeps the tree and the free set |
| `AddressSpaces.UnmapLookups` | kernel/src/mm/vmm.c:55-72 | the leaf word of the page is 0, so not present, in its map and in every map that shares the last table; every other leaf word of every map is unchanged, and so is the same page's in a map that does not share the last table |
| `AddressSpaces.NewPagemapKeepsTree` | kernel/src/mm/vmm.c:74-86 | the new root is a fresh frame and the tree invariant holds with it |
| `AddressSpaces.NewPagemapLookups` | kernel/src/mm/vmm.c:74-86 | the new map has the current one's leaf words on the whole upper half and leaf words 0 in the lower half; existing maps are unchanged |
| `AddressSpaces.NewPagemapEntries` | kernel/src/mm/vmm.c:74-86 | entries 256 to 511 of the new root are the current root's words, entries 0 to 255 are 0, and no existing table changes |
| `AddressSpaces.RunExtends` | kernel/src/mm/vmm.c:17-86 | over every run of map, unmap and new page map, tables are only added and never moved or re-linked |
| `AddressSpaces.LowerHalfIsolation` | kernel/src/mm/vmm.c:34-86 | no run of lower-half map and unmap in one page map changes any leaf word of another |
| `AddressSpaces.SharedSlotStaysShared` | kernel/src/mm/vmm.c:74-86 | two maps that share a present slot have the same leaf words below it after every run |
| `AddressSpaces.UpperHalfStaysShared` | kernel/src/mm/vmm.c:74-86 | from the copy on, the two maps have the same leaf word after every run at every upper-half address whose slot was present at copy time |
| `AddressSpaces.AbsentSlotDiverges` | kernel/src/mm/vmm.c:78-84 | the first mapping made in one map below a slot absent in both is invisible in the other |
| `AddressSpaces.NeverShared` | kernel/src/mm/vmm.c:17-86 | two roots that do not share a slot never come to share it, over every run |
| `AddressSpaces.SharedExactlyIfPresent` | kernel/src/mm/vmm.c:74-86 | after every run from the copy on, the new map and the one it was copied from share a slot if and only if it is an upper-half slot that was present at copy time |
| `Vmm.PageMapper.FollowOrCreate` | kernel/src/mm/vmm.c:17-32 | follows a present entry, or allocates, zeroes and links a table, or fails leaving all as it was |
| `Vmm.PageMapper.ClearFrame` | kernel/src/mm/vmm.c:27-28 | all 512 words of the frame are zero, no other frame changes |
| `Vmm.PageMapper.Map` | kernel/src/mm/vmm.c:34-53 | the code on table words equals the value-level map |
| `Vmm.PageMapper.Walk` | kernel/src/mm/vmm.c:61-68 | finds the last-level table exactly when every entry on the way is present |
| `Vmm.PageMapper.ReadLeaf` | kernel/src/mm/vmm.c:111-120 | the whole leaf word, flag bits included, 0 when the walk does not reach a last-level table |
| `Vmm.PageMapper.Translate` | kernel/src/mm/vmm.c:105-121 | equals the value-level translation |
| `Vmm.PageMapper.Unmap` | kernel/src/mm/vmm.c:55-72 | equals the value-level unmap |
| `Vmm.PageMapper.NewPagemap` | kernel/src/mm/vmm.c:74-86 | equals the value-level new page map |
| `Slabs.FreshRepresents` | kernel/src/mm/heap.c:37-59 | the words written by `create_slab` are a free list of all objects, in order, ending in NULL, whatever the frame held before |
| `Slabs.PopRepresents` | kernel/src/mm/heap.c:116-126 | taking the head of the free list keeps the list acyclic and duplicate-free and moves exactly that object to the live ones |
| `Slabs.PushRepresents` | kernel/src/mm/heap.c:138-143 | putting a live object back does the reverse |
| `Slabs.StoreRepresents` | kernel/src/mm/heap.c:127 | a store inside a live object's contents disturbs neither list nor tags |
| `Slabs.FreeTag` | kernel/src/mm/heap.c:10-28 | the tag over a free object's `next` pointer is neither magic |
| `SlabHeap.KmallocSlabOutcome` | kernel/src/mm/heap.c:101-130 | with an initialised cache NULL means exactly that the chain is full and no frame is free, and then nothing changed; at most one slab is added and only when all are full; sizes 1001..1024 always give NULL |
| `SlabHeap.KmallocSlabKeeps` | kernel/src/mm/heap.c:101-130 | the slab path keeps the whole heap invariant |
| `SlabHeap.KfreeSlabKeeps` | kernel/src/mm/heap.c:138-143 | freeing a live object keeps the whole heap invariant |
| `LargeHeap.MapPagesLookups` | kernel/src/mm/heap.c:87-91 | the mapping loop changes no leaf word outside the block, and only its last page can be left unmapped |
| `LargeHeap.AfterPagesKeeps` | kernel/src/mm/heap.c:82-91 | a loop that stops half way keeps the heap invariant and what it mapped |
| `LargeHeap.KmallocLargeKeeps` | kernel/src/mm/heap.c:79-98 | the page path keeps the heap invariant in all its outcomes, blocks with an unmapped last page included |
| `LargeHeap.KmallocLargeCost` | kernel/src/mm/heap.c:79-98 | a returned block took from the allocator exactly one frame a page and the tables created for it; it holds all those frames, or all but the last one |
| `LargeHeap.KmallocLargeLookups` | kernel/src/mm/heap.c:79-98 | no leaf word outside the consumed pages changes, header write included |
| `LargeHeap.MappedPart` | kernel/src/mm/heap.c:87-98 | when every page got a frame and the first is present and writable, all pages but perhaps the last have the leaf word frame times 4096 plus 3, and an unmapped last page has 0 |
| `BlockCost.MissingAfterMap` | kernel/src/mm/vmm.c:34-53 | after a page is mapped, any other page lacks the tables it lacked before, except those it shares with the mapped one |
| `BlockCost.MapPagesCost` | kernel/src/mm/heap.c:87-91 | with the frames counted on the state before the loop, the loop maps every page and costs exactly that many |
| `BlockCost.MapPagesShort` | kernel/src/mm/heap.c:87-91 | with fewer the allocator ends empty, and every page got a frame exactly when all but the last could be mapped and one frame was left |
| `BlockCost.LargeOutcome` | kernel/src/mm/heap.c:79-98 | decided by the free frames before the call: all pages mapped if and only if they cover the pages and the tables the pages lack; last page unmapped (fault for a one-page block) if and only if they cover all but the last page and one frame more; NULL otherwise |
| `HalfMapped.HalfMappedRun` | kernel/src/mm/heap.c:61-156 | a run from the initialised heap, two requests long, whose second request is answered with a pointer to a block with an unmapped last page; freeing it gives back one of its two frames |
| `LargeHeap.KfreeLargeEffect` | kernel/src/mm/heap.c:144-156 | exactly the frames behind the block's mapped pages, each once, go back, one less than its pages if and only if the last page was unmapped; the leaf words of its pages are 0, so a use after free faults, and all others are as before |
| `LargeHeap.KfreeLargeKeeps` | kernel/src/mm/heap.c:144-156 | freeing a large block keeps the heap invariant |
| `LargeHeap.LargeConservation` | kernel/src/mm/heap.c:79-156 | allocate then free, for every returned pointer: the free set loses exactly the tables created and the frame of an unmapped last page; every leaf word of the region is as before, those of the block's own pages 0 |
| `HeapRuns.ApplyKeeps` | kernel/src/mm/heap.c:74-160 | every `kmalloc`, `kfree` of a pointer it returned and store to mapped words of its blocks keeps the invariant: free lists acyclic, slabs partitioned, blocks backed, no frame in two roles |
| `HeapRuns.RunAll` | kernel/src/mm/heap.c:74-160 | the invariant holds after every run |
| `HeapRuns.LiveBlockFits` | kernel/src/mm/heap.c:74-131 | a live block holds its header and the bytes asked for inside its own slab page or its own bump-allocated range |
| `HeapRuns.LiveBlocksDisjoint` | kernel/src/mm/heap.c:74-131 | any two live blocks, slab or large, are disjoint, headers included |
| `HeapRuns.LargeBlockLeaves` | kernel/src/mm/heap.c:87-98 | the leaf word of every address in a mapped page of a live large block is its frame times 4096 plus 3, that of an unmapped last page is 0 |
| `HeapRuns.FreedObjectRejected` | kernel/src/mm/heap.c:133-143 | in every state with the invariant a free object's tag is neither magic |
| `HeapRuns.BlockIsPrivateMemory` | kernel/src/mm/heap.c:74-160 | over every run a block that is not freed keeps address and size, and each of its mapped words is what was last stored through it, whatever is allocated, freed and written elsewhere |
| `HeapRuns.LargeBlockGivesBackItsFrames` | kernel/src/mm/heap.c:144-156 | freed after any run, a large block gives back exactly the frames behind its mapped pages, none of which was free: one a page, but for an unmapped last page |
| `HeapBlocks.KmallocSlabGives` | kernel/src/mm/heap.c:101-130 | a slab allocation makes live exactly the head of the free list of the first slab with room in the chain of the smallest class that fits, or the first object of a new slab when all are full |
| `HeapBlocks.KmallocGivesBlock` | kernel/src/mm/heap.c:74-131 | `kmalloc` gives the address of one block that was not live, of the size asked for, and no other block comes or goes; without a pointer none does; a large request advances the bump pointer by its rounded-up pages in every outcome |
| `HeapBlocks.KfreeEndsBlock` | kernel/src/mm/heap.c:133-156 | `kfree` ends exactly the block given, and a slab object becomes the head of its slab's free list |
| `HeapBlocks.ContentsBehindAddress` | kernel/src/mm/heap.c:93-131 | the words of a block are the ones behind the address returned for it: in the direct map for a slab object, where the page tables lead for a large block |
| `HeapAccounts.RolesApart` | kernel/src/mm/heap.c:37-156 | free frames, page tables, slabs and frames of large blocks are disjoint |
| `HeapAccounts.StepAccounts` | kernel/src/mm/heap.c:74-160 | no operation loses or gains a frame; what it leaks is exactly what a failed or half-mapped large `kmalloc` took and no block gives back |
| `HeapAccounts.RunAccounts` | kernel/src/mm/heap.c:74-160 | over every run the frames that left the allocator are exactly the new tables, the slabs and the frames taken for large blocks, and of the last those behind no live block are exactly the ones leaked by failed and half-mapped calls |
| `Heap.HeaderTag` | kernel/src/mm/heap.c:136-144 | the tag read tells live slab object, large block and free object apart, in both directions |
| `Heap.InitialisedKeeps` | kernel/src/mm/heap.c:61-72 | after `heap_init` a class has a slab exactly when there was a frame for it, at one frame a class |
| `Heap.KernelHeap.CreateSlab` | kernel/src/mm/heap.c:37-59 | the stores through the direct map give a fresh slab in the lowest free frame, or NULL |
| `Heap.KernelHeap.HeapInit` | kernel/src/mm/heap.c:61-72 | equals the value-level initialisation |
| `Heap.KernelHeap.FindClass` | kernel/src/mm/heap.c:101-107 | the smallest class that holds the size and the header |
| `Heap.KernelHeap.KmallocSmall` | kernel/src/mm/heap.c:101-130 | the chain walk terminates and equals the value-level slab path |
| `Heap.KernelHeap.KmallocBig` | kernel/src/mm/heap.c:79-98 | the page loop and header writes equal the value-level page path |
| `Heap.KernelHeap.Kmalloc` | kernel/src/mm/heap.c:74-131 | equals the value-level `kmalloc` for every size |
| `Heap.KernelHeap.Kfree` | kernel/src/mm/heap.c:133-160 | frees a live object, or a large block that was handed out, its last page mapped or not; NULL and an object that is already free leave the heap unchanged |
| `Scheduling.InitialInv` | kernel/src/scheduler/scheduler.c:24-51 | the state after `scheduler_init` satisfies the invariant |
| `Scheduling.AliveOrder` | kernel/src/scheduler/scheduler.c:79-94 | of any two parts of the queue the survivors of the first stay before those of the second |
| `Scheduling.AliveMembers` | kernel/src/scheduler/scheduler.c:79-94 | the reap pass keeps exactly the queued threads that are not dead |
| `Scheduling.NobodyDead` | kernel/src/scheduler/scheduler.c:79-94 | the reap pass leaves a queue without dead threads as it is |
| `Scheduling.ReapFindsNothing` | kernel/src/scheduler/scheduler.c:79-94 | under the invariant the reap pass changes nothing and destroys nobody |
| `Scheduling.SwitchKeeps` | kernel/src/scheduler/scheduler.c:100-167 | select, requeue, save and restore keep the invariant |
| `Scheduling.StepKeeps` | kernel/src/scheduler/scheduler.c:53-167 | every step keeps the invariant |
| `SchedulerRuns.RunKeeps` | kernel/src/scheduler/scheduler.c:53-167 | in every reachable state the queue has no thread twice, neither current nor idle, and every thread is exactly one of queued, current, being added or exited |
| `SchedulerRuns.OneRunning` | kernel/src/scheduler/scheduler.c:124-167 | in every reachable state a running thread other than idle is the current one |
| `SchedulerRuns.NothingIsDestroyed` | kernel/src/scheduler/scheduler.c:79-94 | no run destroys a thread, in particular never the current one |
| `SchedulerRuns.ContextIntegrity` | kernel/src/scheduler/scheduler.c:137-193 | a thread preempted at one interrupt and resumed by a later one gets exactly the twenty registers it had |
| `SchedulerRuns.FirstRun` | kernel/src/scheduler/scheduler.c:165-193 | a thread's first run starts from the context it was added with |
| `SchedulerRuns.IdleContextFixed` | kernel/src/scheduler/scheduler.c:124-158 | the idle thread's context is never overwritten |
| `SchedulerRuns.SleepIsNotCutShort` | kernel/src/scheduler/thread.c:74-81 | a sleeper that was switched out is current again only when the tick count has reached the count at the call plus `ms`, in every run without wrap of the counter |
| `SchedulerRuns.SleeperIsWoken` | kernel/src/scheduler/scheduler.c:72-77 | the first unlocked interrupt at or past the wake tick that finds the sleeper queued makes it ready or current |
| `SchedulerRuns.ExitIsFinal` | kernel/src/scheduler/scheduler.c:124-136 | a thread switched out dead is never current and never queued again |
| `SchedulerRuns.ExitedThreadIsGone` | kernel/src/scheduler/thread.c:64-72 | the same from the call of `thread_exit` on |
| `SchedulerRuns.SliceIsBounded` | kernel/src/scheduler/scheduler.c:96-98 | fewer than ten unlocked interrupts pass without a selection |
| `SchedulerRuns.SliceIsTen` | kernel/src/scheduler/scheduler.c:96-167 | over every run, a slice that is not given up is exactly ten unlocked interrupts: from one selection on, the tenth is the next, and not before |
| `SchedulerRuns.YieldSelects` | kernel/src/scheduler/scheduler.c:63-98 | after a yield the first unlocked interrupt selects, whatever happens in between, and the yielder is still current until then |
| `SchedulerRuns.TicksCounted` | kernel/src/arch/x86_64/isr.c:39-43 | over every run the tick count is the number of interrupts, under the lock too, modulo 2^64 |
| `SchedulerRuns.LeavingStep` | kernel/src/scheduler/scheduler.c:124-158 | a thread switched out has the interrupt frame as context; a running one becomes ready with a quantum of ten, a blocked or dead one stays so; it is queued if and only if it is not dead |
| `SchedulerRuns.SuccessorIsFirstReady` | kernel/src/scheduler/scheduler.c:100-122 | the successor is the first ready queued thread after the wake pass, idle if there is none |
| `SchedulerRuns.Alternation` | kernel/src/scheduler/scheduler.c:124-133 | while the current thread and a ready head stay runnable and nothing is added, selections swap exactly those two and the rest keeps its order |
| `SchedulerRuns.Starvation` | kernel/src/scheduler/scheduler.c:131-132 | from a state with a running thread and a ready head, no other thread ever runs while those two stay runnable and nothing is added |
| `Fairness.OnlyFirstReadyRuns` | kernel/src/scheduler/scheduler.c:100-133 | from the moment a running thread is switched out, and while threads neither block nor end nor are added, a queued ready thread ever runs if and only if it is the first ready one of the queue |
| `Fairness.StarvedThreads` | kernel/src/scheduler/scheduler.c:100-133 | a run from the start of the scheduler after which two ready threads never run again under those conditions |
| `UnlockedAddition.OtherHeadCorrupts` | kernel/src/scheduler/scheduler.c:58-61 | publication through a live `next` pointer when the head has changed: the thread now at the head is lost, or an exited thread is queued again |
| `UnlockedAddition.LosesThreadIf` | kernel/src/scheduler/scheduler.c:58-61 | when the old head is still queued, or the queue was empty, a queued thread is lost if and only if the head has changed |
| `UnlockedAddition.StaleLinkKeepsThreads` | kernel/src/scheduler/scheduler.c:58-94 | when the old head has exited and its stale `next` is the new head, nothing is lost: the list is the queue behind the new and the exited thread, and the reap pass leaves the queue behind the new one |
| `UnlockedAddition.SurvivesIfSameHead` | kernel/src/scheduler/scheduler.c:58-61 | after the second store the list is well formed and the invariant holds if and only if the head is the one the first store saw |
| `UnlockedAddition.UnlockedAdditionSurvives` | kernel/src/scheduler/scheduler.c:58-61 | the same over every run between the stores after which the adder is current again |
| `UnlockedAddition.PreemptedOnceSurvives` | kernel/src/scheduler/scheduler.c:58-133 | when the adder is switched out and back once, the head is the same if and only if, at the first store, the head of the queue is ready or no queued thread is (after the wake pass) |
| `UnlockedAddition.PreemptedOnceAddition` | kernel/src/scheduler/scheduler.c:58-133 | so the addition then succeeds exactly under that condition on the queue before it |
| `UnlockedAddition.LostThread` | kernel/src/scheduler/scheduler.c:58-133 | a run from the start of the scheduler in which the queue 2, 3, 4 with 2 asleep becomes 5, 2, 4: thread 3 is ready and in no list |
| `InterruptStub.FrameRoundTrip` | kernel/src/arch/x86_64/regs.h:5-10 | reading the frame after writing it gives what was written, all twenty registers |
| `InterruptStub.EntryCaptures` | kernel/src/arch/x86_64/isr.asm:67-85 | delivery and the pushes build a frame that holds exactly the interrupted registers |
| `InterruptStub.ExitRestores` | kernel/src/arch/x86_64/isr.asm:87-104 | the pops and `iretq` load exactly the frame, whatever the call left in the registers |
| `InterruptStub.StubIsTransparent` | kernel/src/arch/x86_64/isr.c:29-49 | end to end a timer interrupt is the scheduler's function on the interrupted registers, whatever the call leaves in the registers and on the stack below the frame |
| `InterruptStub.ThreadResumesWithItsRegisters` | kernel/src/arch/x86_64/isr.asm:67-104 | over every run, from stub to stub, a resumed thread continues with the registers it was interrupted with |
| `Scheduler.RunQueue.constructor` | kernel/src/scheduler/scheduler.c:24-51 | only the idle thread exists and is current; its context is the idle function and the boot stack with kernel selectors, interrupts enabled, all general registers 0 |
| `Scheduler.RunQueue.WakeAll` | kernel/src/scheduler/scheduler.c:72-77 | the loop over `next` pointers equals the wake pass |
| `Scheduler.RunQueue.ReapAll` | kernel/src/scheduler/scheduler.c:79-94 | on any acyclic queue the unlinking loop leaves exactly the threads that are not dead, in their order |
| `Scheduler.RunQueue.SelectNext` | kernel/src/scheduler/scheduler.c:100-122 | unlinks and returns the first ready thread, or gives idle |
| `Scheduler.RunQueue.Retire` | kernel/src/scheduler/scheduler.c:124-158 | requeues and saves the outgoing thread |
| `Scheduler.RunQueue.SaveContext` | kernel/src/scheduler/scheduler.c:137-157 | the context holds the frame's registers |
| `Scheduler.RunQueue.RestoreContext` | kernel/src/scheduler/scheduler.c:173-193 | the frame holds the context's registers |
| `Scheduler.RunQueue.Enter` | kernel/src/scheduler/scheduler.c:165-167 | the successor is running with a full quantum and current |
| `Scheduler.RunQueue.SwitchNow` | kernel/src/scheduler/scheduler.c:100-193 | equals the value-level switch |
| `Scheduler.RunQueue.TickIrq` | kernel/src/scheduler/scheduler.c:69-194 | equals the value-level tick, frame included |
| `Scheduler.RunQueue.TimerIrq` | kernel/src/arch/x86_64/isr.c:39-43 | counts the tick, then equals the value-level interrupt |
| `Scheduler.RunQueue.AddThread` | kernel/src/scheduler/scheduler.c:58-61 | the two stores one after the other: the thread is queued in front |
| `Scheduler.RunQueue.LinkThread` | kernel/src/scheduler/scheduler.c:59 | the first store changes only the new thread's `next`, which the scheduler does not see |
| `Scheduler.RunQueue.PublishThread` | kernel/src/scheduler/scheduler.c:60 | the second store makes the thread the head, and the list is whatever the `next` pointers in memory make it from there; it is the old queue with the thread in front when the head has not changed in between |
| `Scheduler.RunQueue.PointersOfQueue` | kernel/src/scheduler/scheduler.c:58-61 | in a valid state the `next` pointers in memory are those of the run queue |
| `Scheduler.RunQueue.YieldMark` | kernel/src/scheduler/scheduler.c:63-66 | only the current thread's quantum becomes 0 |
| `Scheduler.RunQueue.ThreadSleep` | kernel/src/scheduler/thread.c:74-79 | only the current thread is blocked until the tick count plus `ms`, modulo 2^64 |
| `Scheduler.RunQueue.ThreadExit` | kernel/src/scheduler/thread.c:64-69 | only the current thread is marked dead |
| `Threads.EntryStackInside` | kernel/src/scheduler/thread.c:34-38 | the return address lies inside the new stack and the pointer is aligned as after a call |
| `Threads.ThreadMaker.Create` | kernel/src/scheduler/thread.c:12-55 | no thread exactly when an allocation fails, giving the thread's block back when there is no stack, or when the word for the return address is unmapped and the store faults; otherwise numbers the thread, writes `thread_exit` at the aligned stack top minus 8, and leaves it ready with quantum 10 and with `rip` the entry function, `rsp` that word, `cs` 8, `ss` 0x10, `rflags` 0x202 and every other register 0 |
| `ThreadStacks.ReturnInLastPage` | kernel/src/scheduler/thread.c:34-38 | the return address goes to the last of the two pages of the stack's block |
| `ThreadStacks.StackStore` | kernel/src/scheduler/thread.c:20-38 | the free frames before the allocation decide whether there is a stack and whether the store of the return address lands or faults |
| `Threads.CreatedThreadStarts` | kernel/src/scheduler/thread.c:36-50 | over every run, end to end: from the return address that `thread_create` stores to the interrupt that first selects the thread, which leaves the processor with `rip` the entry function, `cs` 8, `ss` 0x10, `rflags` 0x202, every general register 0, and `rsp` the aligned stack top minus 8, where the word is `thread_exit` |
| `Threads.StubWritesItsStack` | kernel/src/arch/x86_64/isr.asm:67-104 | a timer interrupt writes no memory but its frame and the part of the same stack below it that the called handler reaches |
| `Threads.ReturnAddressKept` | kernel/src/arch/x86_64/isr.asm:67-104 | while interrupts use other stacks and no code writes to a new thread's stack, every word of it stays, over every run |
| `CStrings.StrUnique` | kernel/src/lib/string.c:92-98 | memory holds at most one C string at a place |
| `CStrings.StrLen` | kernel/src/lib/string.c:92-98 | the length of the string there |
| `CStrings.CompareEqual` | kernel/src/lib/string.c:61-73 | lexicographic comparison is 0 exactly on equal strings and antisymmetric |
| `CStrings.StrCmp` | kernel/src/lib/string.c:61-73 | equals lexicographic comparison |
| `CStrings.StrCpy` | kernel/src/lib/string.c:75-81 | the destination holds the string, nothing past its terminator changes |
| `CStrings.StrRChr` | kernel/src/lib/string.c:83-90 | the last occurrence, terminator included, or none |
| `CStrings.MemCpy` | kernel/src/lib/string.c:10-19 | exactly the first `n` bytes are replaced |
| `CStrings.MemCmp` | kernel/src/lib/string.c:48-59 | equals lexicographic comparison of the two spans |
| `FileTree.WordIsComponent` | kernel/src/fs/vfs.c:27-33 | a run without slashes is one component, cut to 127 characters |
| `FileTree.SlashIgnored` | kernel/src/fs/vfs.c:35-40 | a slash before the rest of a path does not change its components |
| `FileTree.ComponentsOfJoin` | kernel/src/fs/vfs.c:23-63 | the components of a path are those before its last slash and then its final name |
| `FileTree.InsertKeepsTree` | kernel/src/fs/tmpfs.c:74-93 | head insertion under a directory keeps the node graph a tree |
| `FileTree.ResolveInjective` | kernel/src/fs/vfs.c:23-63 | two component sequences that resolve to the same node are equal |
| `FileTree.BeyondMeans` | kernel/src/fs/vfs.c:42-58 | a walk looks a name up in a node exactly when a proper prefix of the path resolves to that node and the name comes next |
| `FileTree.ResolveAfterInsert` | kernel/src/fs/tmpfs.c:47-93 | every resolution after an insertion: walks that look the new name up there find the new node, or nothing beyond it; all others end where they did |
| `FileEntries.AddEntryKeepsTree` | kernel/src/fs/tmpfs.c:107-137 | adding an entry keeps the tree |
| `FileEntries.AddEntryKeepsContents` | kernel/src/fs/tmpfs.c:107-137 | old nodes keep name, kind and bytes; the new node has those of the call |
| `FileEntries.AddThenFind` | kernel/src/fs/tmpfs.c:107-137 | the added path finds the new node if and only if it has a final name and its parent path is the root or names a directory |
| `FileEntries.AddThenFindOther` | kernel/src/fs/tmpfs.c:107-137 | every path that does not look that name up in that parent finds what it found before |
| `FileEntries.FallsBackToRoot` | kernel/src/fs/tmpfs.c:119-137 | an entry whose parent path names nothing, or a file, is found by its final name in the root |
| `FileEntries.ReadsConcatenate` | kernel/src/fs/tmpfs.c:37-45 | successive reads of any sizes concatenate to one contiguous span of the file |
| `FileEntries.ReadAllIsTheFile` | kernel/src/fs/tmpfs.c:37-45 | reading in chunks of any positive size until nothing comes back gives exactly the data |
| `FileEntries.StopsAtFileMeans` | kernel/src/fs/vfs.c:42-45 | the not-a-directory exit is taken exactly when a proper prefix of the path names a file |
| `FileEntries.LeftOpenMeans` | kernel/src/fs/vfs.c:42-71 | a lookup leaves a vnode open if and only if it finds a node other than the root or a proper prefix of the path names a file |
| `FileEntries.ListingLoads` | kernel/src/fs/initrd.c:54-87 | loading any listing with directories before their contents and no entry twice: an entry is found by its own path, with its kind and bytes, if and only if no file at or before it has data that cannot be stored; the others are not found |
| `FileEntries.NothingElseLoaded` | kernel/src/fs/initrd.c:54-87 | and every path that finds a node other than the root names a listed entry before the first fault |
| `FileStorage.GapGivesNull` | kernel/src/mm/heap.c:77-109 | for 1001..1024 bytes every heap answers NULL and stays as it is |
| `FileStorage.GrantedExactly` | kernel/src/fs/tmpfs.c:84-87 | on an initialised heap the data allocation gives a fully mapped block if and only if the size is storable and there is a slab object or frame for it, or the frames for its pages and the tables they lack |
| `FileStorage.StorableIsGranted` | kernel/src/fs/tmpfs.c:84-87 | so with those frames free exactly the storable sizes are granted |
| `FileStorage.NodesAreGranted` | kernel/src/fs/tmpfs.c:20-24 | nodes and vnodes are of storable sizes, so one free frame is enough for either |
| `Tmpfs.FileSystem.constructor` | kernel/src/fs/tmpfs.c:64-72 | the empty tree, no vnode open |
| `Tmpfs.FileSystem.CreateVnode` | kernel/src/fs/tmpfs.c:20-35 | a new open handle that agrees with its node |
| `Tmpfs.FileSystem.FindNode` | kernel/src/fs/tmpfs.c:52-59 | the first node of the child list with the name: the newest child |
| `Tmpfs.FileSystem.FindDir` | kernel/src/fs/tmpfs.c:47-60 | one step of the walk, opening one handle exactly when it succeeds |
| `Tmpfs.FileSystem.NextName` | kernel/src/fs/vfs.c:24-33 | the inner loop reads exactly the next word, cut to 127 characters, and the 8-bit cursor does not wrap |
| `Tmpfs.FileSystem.FindPath` | kernel/src/fs/vfs.c:13-65 | for every path up to 255 characters: terminates, equals the fold of lookups over the split path, finds nothing for the empty path, and leaves open exactly one handle for a result other than the root, none for the root or a missing component, one when it stops at a file |
| `Tmpfs.FileSystem.Close` | kernel/src/fs/vfs.c:67-71 | closes an open handle, never the root's |
| `Tmpfs.FileSystem.CreateFile` | kernel/src/fs/tmpfs.c:74-93 | refuses a missing or non-directory parent unchanged; faults on 1001..1024 bytes of data with the tree unchanged; otherwise the linked structure stands for the tree with the new file first among the children |
| `Tmpfs.FileSystem.CreateDir` | kernel/src/fs/tmpfs.c:95-101 | the same with an empty directory |
| `Tmpfs.FileSystem.Read` | kernel/src/fs/tmpfs.c:37-45 | copies exactly the span of the file and nothing past it |
| `Tmpfs.FileSystem.CutPath` | kernel/src/fs/tmpfs.c:109-117 | the copy, cut in place at its last slash, holds the directory part and the final name |
| `Tmpfs.FileSystem.FindParent` | kernel/src/fs/tmpfs.c:119-130 | the parent is the directory the prefix names, else the root |
| `Tmpfs.FileSystem.AddEntry` | kernel/src/fs/tmpfs.c:107-137 | equals the value-level addition, or faults with the tree unchanged exactly on a file of 1001..1024 bytes; the handles left open are those of the parent lookup |
| `Ustar.ParseRun` | kernel/src/fs/initrd.c:31-38 | digits up to the first other character are read as their octal number |
| `Ustar.NumberOfDigits` | kernel/src/fs/initrd.c:31-38 | encoding a number in octal digits and reading it back is the identity |
| `Ustar.DottedName` | kernel/src/fs/initrd.c:67-83 | an entry named `./` and a rest is added under the rest without one slash at its end, a directory if and only if its type is 5; the bare `./` adds nothing |
| `Ustar.PlainName` | kernel/src/fs/initrd.c:67-83 | an entry whose name does not start with `./` is added under that name without one slash at its end |
| `Ustar.WalkAgrees` | kernel/src/fs/initrd.c:67-87 | the walk from an offset depends on nothing before it, so name edits never affect later headers |
| `Ustar.WalkInvertsEncode` | kernel/src/fs/initrd.c:54-87 | for every list of well-formed entries and any other header contents, and an end, an empty name or a block without the magic behind them, the walk over the encoded archive makes exactly the calls of the entries before the first file that cannot be stored, in order, contents exact, and faults if and only if there is such a file |
| `Ustar.ListingArchiveLoads` | kernel/src/fs/initrd.c:54-87 | an encoded archive whose names give a listing, with or without `./`: the loader ends without a fault if and only if no file has 1001..1024 bytes, and an entry is found by its path with its kind and bytes if and only if no such file is at or before it |
| `Ustar.SmallGapArchive` | kernel/src/fs/initrd.c:54-87 | an archive of two files, the first of 1010 bytes, of which neither is loaded |
| `ArchiveTrees.PathParts` | kernel/src/fs/tmpfs.c:107-130 | the path made of a list of names has those names as components, the last one as final name and the others before it |
| `ArchiveTrees.ArchivedCalls` | kernel/src/fs/initrd.c:67-87 | the members `tar` writes for a directory tree, `./` for the root, `./` and the path for a file, and a slash behind it for a directory, make exactly one call for each file and directory, under its path |
| `ArchiveTrees.ArchiveLoads` | kernel/src/fs/initrd.c:40-90 | an archive of any directory tree, loaded into an empty tree: the path of a file or directory from the root finds it, with its name, kind and bytes, if and only if no file at or before it has 1001..1024 bytes; the loader faults if and only if there is such a file |
| `ArchiveTrees.FindsTestFile` | kernel/src/main.c:185-187 | in the archive of `./`, `./etc/` and `./etc/test.txt`, `/etc/test.txt` is found with its bytes, unless they are 1001 to 1024 |
| `Initrd.OctalToInt` | kernel/src/fs/initrd.c:31-38 | the loop equals the octal number, modulo 2^64 |
| `Initrd.StripName` | kernel/src/fs/initrd.c:67-81 | the pointer steps over a leading `./` and nothing else; the only byte written is a NUL over a slash at the end of the name; the bare `./` is skipped |
| `Initrd.LoadEntry` | kernel/src/fs/initrd.c:54-87 | one turn adds exactly the call its header asks for, or faults with the tree unchanged exactly when its data cannot be stored; it changes no byte outside that header and advances by a multiple of 512 |
| `Initrd.LoadArchive` | kernel/src/fs/initrd.c:54-87 | ends or faults at a multiple of 512 with the tree of exactly the calls of the archive as it was before any edit, up to the first that faults |
| `Initrd.InitrdInit` | kernel/src/fs/initrd.c:40-90 | nothing without a module; otherwise the first module is loaded up to its end or its first fault |

## Left out

- Interrupt controllers, descriptor tables, timers and their calibration, framebuffer, logging, ACPI, keyboard: hardware and output plumbing; log calls are no-ops.
- `invlpg`, CR3, `cli`, `sti`, `hlt` and the TLB: the current root is a parameter, and interrupts are atomic steps between thread actions.
- `gdt_update_tss_rsp` and user-mode stacks: the stack the processor switches to is a parameter of the stub.
- `process.c`, `kcalloc`, `memset`, `memmove`: they would only add easy members; the `memset` calls appear as zeroed buffers.
- Multi-processor behaviour: the kernel does not implement it.
- Large pages: walks require that no entry on the way has the large-page bit, which the code does not recognise.
- `Vmm.PageMapper.NewPagemap`: requires a free frame; without one the code would write through the direct map of frame 0.
- Frame 0: the allocator's contract covers it (its address is 0, like failure); the page tables and the heap require that it is not free.
- `FrameAllocator.Pmm.FreeFrame`: an address past the end of the bitmap would test and clear memory that is not the bitmap's; excluded.
- `Heap.KernelHeap.Kmalloc`: requests that run past the end of the 64-bit heap region are excluded, because the bump pointer would wrap.
- `Heap.KernelHeap.KmallocBig`: the same.
- `Heap.KernelHeap.Kfree`: a pointer is NULL, any object of a slab (live or free) or a large block that was handed out and not yet freed; a pointer never handed out, and a large block already freed (its header page is unmapped, so the read faults), are not modelled.
- Stores to the unmapped last page of a block are page faults, which halt the kernel; runs contain only stores to mapped words.
- `Tmpfs.FileSystem.constructor`: its allocations are taken to succeed, as are the node and vnode allocations below and data allocations of storable sizes: there are frames for them. `FileStorage` states on the heap model when that is so; the two models are not composed into one.
- `Tmpfs.FileSystem.CreateFile`: the heap has the frames for the node and, if its size is storable, the data.
- `Tmpfs.FileSystem.CreateDir`: the heap has a frame for the node.
- `Tmpfs.FileSystem.CreateVnode`: the inode, write and ptr fields of a vnode, which nothing reads, are not modelled, and a vnode's read and finddir are always the tmpfs ones.
- `Tmpfs.FileSystem.NextName`: is a method of its own, as is each turn of the outer loop, where the source nests the loops in one function.
- `Tmpfs.FileSystem.AddEntry`: the heap has the frames; paths longer than 255 characters and names longer than 127 overflow fixed buffers in the code and are excluded.
- `Tmpfs.FileSystem.Read`: offset plus size below 2^64 and a buffer of at least size bytes are required of the caller.
- `Initrd.LoadArchive`: archives whose walked headers or contents reach past the archive, whose names fill all 100 characters, or whose sizes overflow 64 bits are excluded; every other archive, well formed or not, is covered.
- `Initrd.InitrdInit`: the same for the first module.
- `Threads.ThreadMaker.Create`: the process pointer is not kept, and the two allocations and the mapping of the stack's last page are given as parameters; `ThreadStacks.StackStore` is their value on the heap model.
- `Threads.CreatedThreadStarts`: that other code does not write to a stack it does not own is a hypothesis about that code; for blocks of the heap model it is `HeapRuns.BlockIsPrivateMemory`.
- Node names, node data and read-only strings are sequences; buffers that the code edits are arrays.
