/** When the heap (kernel/src/mm/heap.c) has memory for what the tmpfs (kernel/src/fs/tmpfs.c) stores. */
module FileStorage {
  import opened Common
  import opened FrameAllocator
  import opened Slabs
  import opened HeapState
  import opened SlabHeap
  import opened LargeHeap
  import opened BlockCost
  import HeapRuns
  import Files = FileEntries

  const NODE_SIZE: nat := 168   // sizeof(struct tmpfs_node)
  const VNODE_SIZE: nat := 192  // sizeof(vfs_node_t)

  ghost predicate Askable(h: Heap, size: nat) {
    HInv(h) && size > 0 && (size > 1024 ==> Roomy(h, PagesFor(size)))
  }

  /** `kmalloc` gives a block all of whose bytes can be written. */
  ghost predicate Granted(h: Heap, size: nat)
    requires Askable(h, size)
  {
    var (h1, r) := HeapRuns.Kmalloc(h, size);
    r.Pointer? && (size > 1024 ==> h.vaddr in h1.chunks && |h1.chunks[h.vaddr].frames| == PagesFor(size))
  }

  /** For 1001..1024 bytes every heap answers NULL and stays as it is. */
  lemma {:induction false} GapGivesNull(h: Heap, size: nat)
    requires HInv(h) && 1001 <= size <= 1024
    ensures HeapRuns.Kmalloc(h, size) == (h, Null)
  {
    hide HInv, KmallocSlab;
    KmallocSlabOutcome(h, size);
  }

  /** Every slab of the class is full. */
  ghost predicate Full(h: Heap, c: nat)
    requires c < |h.chains|
  {
    forall i :: 0 <= i < |h.chains[c]| ==> h.chains[c][i] in h.slabs && h.slabs[h.chains[c][i]].free == []
  }

  /** The memory the request needs is there: room in a slab or a frame for a new one; frames for the pages and the page
      tables they lack. */
  ghost predicate HasMemory(h: Heap, size: nat)
    requires Askable(h, size)
  {
    if size <= 1024 then
      ClassFor(size) < |h.chains| ==> h.vm.free != {} || !Full(h, ClassFor(size))
    else |h.vm.free| >= Needed(h.vm, h.root, h.vaddr, PagesFor(size))
  }

  /** After `heap_init` with a frame for every class. */
  ghost predicate Ready(h: Heap) {
    |h.chains| == CLASSES && forall c :: 0 <= c < CLASSES ==> h.chains[c] != []
  }

  /** On an initialised heap a request is granted if and only if its size is storable and the memory is there. */
  lemma {:induction false} GrantedExactly(h: Heap, size: nat)
    requires Askable(h, size) && Ready(h)
    ensures Granted(h, size) <==> Files.Storable(size) && HasMemory(h, size)
  {
    hide HInv, KmallocSlab, KmallocLarge, Needed;
    if size > 1024 {
      LargeOutcome(h, size);
    } else {
      KmallocSlabOutcome(h, size);
      SlabsDoNotFault(h, size);
    }
  }

  lemma {:induction false} SlabsDoNotFault(h: Heap, size: nat)
    requires HInv(h)
    ensures !KmallocSlab(h, size).1.Fault?
  {
    hide HInv, TakeObject, Grow;
  }

  /** So with a free frame for the slab path, or frames for the pages and their tables, exactly the storable sizes are
      granted. */
  lemma {:induction false} StorableIsGranted(h: Heap, size: nat)
    requires Askable(h, size) && Ready(h)
    requires if size <= 1024 then h.vm.free != {} else |h.vm.free| >= Needed(h.vm, h.root, h.vaddr, PagesFor(size))
    ensures Granted(h, size) <==> Files.Storable(size)
  {
    hide HInv, Granted, Needed;
    GrantedExactly(h, size);
  }

  /** Nodes and vnodes are always of a storable size. */
  lemma {:induction false} NodesAreGranted(h: Heap)
    requires HInv(h) && Ready(h) && h.vm.free != {}
    ensures Granted(h, NODE_SIZE) && Granted(h, VNODE_SIZE)
  {
    hide HInv, Granted;
    StorableIsGranted(h, NODE_SIZE);
    StorableIsGranted(h, VNODE_SIZE);
  }
}
