/** The stacks that `thread_create` (kernel/src/scheduler/thread.c) takes from the heap (kernel/src/mm/heap.c). */
module ThreadStacks {
  import opened Common
  import opened Words
  import opened PageTables
  import opened AddressSpaces
  import opened HeapState
  import opened SlabHeap
  import opened LargeHeap
  import opened BlockCost
  import Threads

  /** A stack of 4096 bytes and its 24-byte header take two pages, and the return address goes to the second. */
  lemma {:induction false} ReturnInLastPage(base: nat)
    requires base % PAGE_SIZE == 0
    ensures PagesFor(Threads.STACK_SIZE) == 2 && Threads.EntryStack(base + 24) == base + 4104
    ensures Threads.EntryStack(base + 24) / PAGE_SIZE == (base + PAGE_SIZE) / PAGE_SIZE
  {
    var k := base / 4096;
    assert base == 4096 * k;
    Rounds(k);
    assert (4096 * k + 4104) / 4096 == k + 1;
  }

  lemma {:induction false} Rounds(k: nat)
    ensures (4096 * k + 24 + 4096) / 16 * 16 == 4096 * k + 4112
  {
    var q := 256 * k + 257;
    assert 4096 * k + 24 + 4096 == 16 * q + 8;
    assert (16 * q + 8) / 16 == q;
  }

  /** The frames free before the allocation decide whether there is a stack, and whether the store of the return address
      lands: it faults if and only if they cover the first page with its tables and one frame more, but not the table
      the second page lacks. */
  lemma {:induction false} StackStore(h: Heap)
    requires Roomy(h, PagesFor(Threads.STACK_SIZE))
    ensures
      var (h1, r) := KmallocLarge(h, Threads.STACK_SIZE);
      var free, first, both := |h.vm.free|, Needed(h.vm, h.root, h.vaddr, 1), Needed(h.vm, h.root, h.vaddr, 2);
      && (r.Pointer? <==> free > first) && first < both
      && (r.Pointer? ==>
            var sp := Threads.EntryStack(r.addr);
            HEAP_BASE <= sp < TOP && (LeafWord(h1.vm, h.root, sp) != 0 <==> free >= both))
  {
    hide HInv, Inv, KmallocLarge, Needed, LeafWord, RegionOk, Region, Backed, Roomy;
    RoomyFacts(h, PagesFor(Threads.STACK_SIZE));
    ReturnInLastPage(h.vaddr);
    LargeOutcome(h, Threads.STACK_SIZE);
    var (h1, r) := KmallocLarge(h, Threads.STACK_SIZE);
    if r.Pointer? {
      KmallocLargeKeeps(h, Threads.STACK_SIZE);
      KmallocLargeCases(h, Threads.STACK_SIZE);
      KmallocLargeCost(h, Threads.STACK_SIZE);
      SecondPage(h1, h.vaddr);
      RegionPages(h.vaddr + 4104, h.vaddr + PAGE_SIZE);
      SamePageSameLookup(h1.vm, h.root, h.vaddr + PAGE_SIZE, h.vaddr + 4104);
    }
  }

  /** The second page of a two-page block is mapped if and only if the block has two frames. */
  lemma {:induction false} SecondPage(h: Heap, base: nat)
    requires LiveChunk(h, base) && h.chunks[base].pages == 2
    ensures LeafWord(h.vm, h.root, base + PAGE_SIZE) != 0 <==> |h.chunks[base].frames| == 2
  {
    ChunkFacts(h, base);
    if |h.chunks[base].frames| == 2 {
      assert PageOk(h, base, 1) && OwnedFrame(h, h.chunks[base].frames[1]);
    }
  }
}
