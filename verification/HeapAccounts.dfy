/** Where every frame of the machine is, over whole runs of the heap (kernel/src/mm/heap.c). */
module HeapAccounts {
  import opened Common
  import opened Words
  import opened FrameAllocator
  import opened PageTables
  import AddressSpaces
  import opened Slabs
  import opened HeapState
  import opened SlabHeap
  import opened LargeHeap
  import opened HeapRuns

  /** All frames the allocator ever had: free ones, page tables, slabs, and frames taken for pages of large blocks. */
  ghost function Managed(h: Heap): set<nat> {
    h.vm.free + h.vm.place.Keys + h.slabs.Keys + h.data.Keys
  }

  /** No frame has two roles. */
  lemma {:induction false} RolesApart(h: Heap)
    requires HInv(h)
    ensures h.vm.free !! h.vm.place.Keys && h.vm.free + h.vm.place.Keys !! h.slabs.Keys + h.data.Keys
    ensures h.slabs.Keys !! h.data.Keys
  {
    forall f | f in h.slabs || f in h.data
      ensures f !in h.vm.free && f !in h.vm.place
    {
      assert OwnedFrame(h, f);
    }
  }

  /** The frame is behind a page of a live block. */
  ghost predicate Backs(h: Heap, f: nat) {
    exists b :: b in h.chunks && f in h.chunks[b].frames
  }

  /** Frames taken for a page that no live block gives back. */
  ghost function Leaked(h: Heap): set<nat> {
    set f | f in h.data && !Backs(h, f)
  }

  /** What a step leaks: all frames taken by a large `kmalloc` that gives NULL or faults, and the last page's frame when
      the block is handed out with its last page unmapped. */
  ghost function Leaks(h: Heap, op: Op): set<nat>
    requires HInv(h) && Allowed(h, op)
  {
    if !op.Malloc? || op.size <= 1024 then {}
    else if KmallocLarge(h, op.size).1.Pointer? then Lost(h, op.size)
    else Elements(PagesTaken(h, PagesFor(op.size)))
  }

  /* ---------- steps that concern slabs ---------- */

  /** Frames change roles, but no page of a large block is involved. */
  ghost predicate SlabStep(h: Heap, h1: Heap) {
    Managed(h1) == Managed(h) && h1.data == h.data && h1.chunks == h.chunks
  }

  lemma {:induction false} SlabStepLeaks(h: Heap, h1: Heap)
    requires SlabStep(h, h1)
    ensures Managed(h1) == Managed(h) && Leaked(h1) == Leaked(h)
  {
    assert forall f :: Backs(h1, f) <==> Backs(h, f);
  }

  lemma {:induction false} KmallocSlabAccounts(h: Heap, size: nat)
    requires HInv(h)
    ensures SlabStep(h, KmallocSlab(h, size).0)
  {
    hide HInv;
    var c := ClassFor(size);
    if c < CLASSES {
      var chain := ChainOf(h, c);
      RoomInChain(h, c);
      if FirstRoom(h.slabs, chain) == |chain| && chain != [] && h.vm.free != {} {
        GrownHasRoom(h, c);
        GrowAccounts(h, c);
      }
    }
  }

  lemma {:induction false} GrowAccounts(h: Heap, c: nat)
    requires HInv(h) && c < CLASSES && h.vm.free != {}
    ensures CanGrow(h, c) && SlabStep(h, Grow(h, c))
  {
    GrowReady(h, c);
    GrowMemory(h, c);
    assert Lowest(h.vm.free) in h.vm.free;
  }

  /* ---------- steps that concern large blocks ---------- */

  lemma {:induction false} KmallocLargeAccounts(h: Heap, size: nat)
    requires Roomy(h, PagesFor(size)) && size > 1024
    ensures
      var h1, taken := KmallocLarge(h, size).0, PagesTaken(h, PagesFor(size));
      && Managed(h1) == Managed(h) && h1.data.Keys == h.data.Keys + Elements(taken) && h.data.Keys !! Elements(taken)
  {
    hide HInv, KmallocLarge, AddressSpaces.LeafWord, AllMapped, MapPages, Roomy, Elements, Managed, Inv, AfterPages;
    var n := PagesFor(size);
    RoomyFacts(h, n);
    KmallocLargeCases(h, size);
    AfterPagesFacts(h, n);
    TakenFrames(h, n);
    KmallocLargeData(h, size);
    TakesExactly(h.vm, AfterPages(h, n).vm, PagesTaken(h, n));
    ManagedMoves(h, KmallocLarge(h, size).0, Elements(PagesTaken(h, n)));
  }

  lemma {:induction false} KmallocLargeData(h: Heap, size: nat)
    requires Roomy(h, PagesFor(size)) && size > 1024
    ensures
      var n := PagesFor(size);
      var h1, h2 := AfterPages(h, n), KmallocLarge(h, size).0;
      h2.data == h1.data && h2.vm.free == h1.vm.free && h2.vm.place == h1.vm.place && h2.slabs == h1.slabs == h.slabs
  {
    hide HInv, AddressSpaces.LeafWord, AllMapped, MapPages, AddData, HeaderRow;
  }

  lemma {:induction false} TakenFrames(h: Heap, n: nat)
    requires Roomy(h, n)
    ensures AfterPages(h, n).data.Keys == h.data.Keys + Elements(PagesTaken(h, n))
    ensures h.data.Keys !! Elements(PagesTaken(h, n))
  {
    AfterPagesFacts(h, n);
    AfterPagesFrames(h, n);
    AddDataAt(h.data, h.vaddr, PagesTaken(h, n));
  }

  lemma {:induction false} ManagedMoves(h: Heap, h1: Heap, taken: set<nat>)
    requires h1.vm.free <= h.vm.free && h.vm.place.Keys <= h1.vm.place.Keys && h1.slabs.Keys == h.slabs.Keys
    requires h.vm.free - h1.vm.free == taken + (h1.vm.place.Keys - h.vm.place.Keys)
    requires h1.data.Keys == h.data.Keys + taken
    ensures Managed(h1) == Managed(h)
  {
    var tables := h1.vm.place.Keys - h.vm.place.Keys;
    assert h.vm.free == h1.vm.free + (h.vm.free - h1.vm.free);
    assert h.vm.free == h1.vm.free + (taken + tables);
    assert h1.vm.place.Keys == h.vm.place.Keys + tables;
  }

  lemma {:induction false} KmallocLargeLeaks(h: Heap, size: nat)
    requires Roomy(h, PagesFor(size)) && size > 1024
    ensures
      var h1, taken := KmallocLarge(h, size).0, Elements(PagesTaken(h, PagesFor(size)));
      Leaked(h1) == Leaked(h) + (if KmallocLarge(h, size).1.Pointer? then Lost(h, size) else taken)
  {
    hide HInv, KmallocLarge, AddressSpaces.LeafWord, AllMapped, MapPages, Inv;
    var n := PagesFor(size);
    var (h1, r) := KmallocLarge(h, size);
    KmallocLargeCases(h, size);
    KmallocLargeAccounts(h, size);
    BackedInData(h);
    var taken := PagesTaken(h, n);
    if r.Pointer? {
      KmallocLargeCost(h, size);
      TakenApart(h, n);
      SplitTaken(taken, h1.chunks[h.vaddr].frames);
      NewBlockBacks(h, h1, h.vaddr, h1.chunks[h.vaddr]);
    } else {
      assert forall f :: Backs(h1, f) <==> Backs(h, f);
    }
  }

  /** Frames of live blocks are data frames. */
  lemma {:induction false} BackedInData(h: Heap)
    requires HInv(h)
    ensures forall f :: Backs(h, f) ==> f in h.data
  {
    forall f | Backs(h, f)
      ensures f in h.data
    {
      var b :| b in h.chunks && f in h.chunks[b].frames;
      ChunkFacts(h, b);
      var i :| 0 <= i < |h.chunks[b].frames| && h.chunks[b].frames[i] == f;
      assert PageOk(h, b, i);
    }
  }

  lemma {:induction false} NewBlockBacks(h: Heap, h1: Heap, base: nat, c: Chunk)
    requires base !in h.chunks && h1.chunks == h.chunks[base := c]
    ensures forall f :: Backs(h1, f) <==> Backs(h, f) || f in Elements(c.frames)
  {
    forall f
      ensures Backs(h1, f) <==> Backs(h, f) || f in Elements(c.frames)
    {
      if f in c.frames {
        assert base in h1.chunks && f in h1.chunks[base].frames;
      } else if Backs(h, f) {
        var b :| b in h.chunks && f in h.chunks[b].frames;
        assert b in h1.chunks && f in h1.chunks[b].frames;
      }
    }
  }

  lemma {:induction false} KfreeLargeAccounts(h: Heap, base: nat)
    requires LiveChunk(h, base)
    ensures Managed(KfreeLarge(h, base)) == Managed(h) && Leaked(KfreeLarge(h, base)) == Leaked(h)
  {
    hide KfreeLarge, HInv, AddressSpaces.LeafWord, RegionOk, Inv, Managed, Leaked, GivesBack;
    KfreeLargeMoves(h, base);
    BackedInData(h);
    KfreeLargeParts(h, base);
    GivenBack(h, KfreeLarge(h, base), base);
  }

  lemma {:induction false} KfreeLargeMoves(h: Heap, base: nat)
    requires LiveChunk(h, base)
    ensures
      var h1, frames := KfreeLarge(h, base), Elements(h.chunks[base].frames);
      && h1.data == h.data - frames && h1.vm.free == h.vm.free + frames && h1.vm.place == h.vm.place
  {
    KfreeLargeData(h, base);
    hide KfreeLarge, HInv, AddressSpaces.LeafWord, RegionOk, Inv, Elements;
    KfreeLargeEffect(h, base);
  }

  lemma {:induction false} KfreeLargeData(h: Heap, base: nat)
    requires base in h.chunks
    ensures KfreeLarge(h, base).data == h.data - Elements(h.chunks[base].frames)
  {
  }

  lemma {:induction false} GivenBack(h: Heap, h1: Heap, base: nat)
    requires base in h.chunks && h1.chunks == h.chunks - {base} && h1.slabs == h.slabs
    requires
      var frames := Elements(h.chunks[base].frames);
      h1.data == h.data - frames && h1.vm.free == h.vm.free + frames && h1.vm.place == h.vm.place
    requires forall f :: Backs(h, f) ==> f in h.data
    ensures Managed(h1) == Managed(h) && Leaked(h1) == Leaked(h)
  {
    var c := h.chunks[base];
    forall f | f in Elements(c.frames)
      ensures f in h.data
    {
      assert Backs(h, f);
    }
    assert h1.chunks[base := c] == h.chunks;
    NewBlockBacks(h1, h, base, c);
  }

  /* ---------- every step and every run ---------- */

  /** No step loses or gains a frame, and it leaks exactly what `Leaks` says. */
  lemma {:induction false} StepAccounts(h: Heap, op: Op)
    requires HInv(h) && Allowed(h, op)
    ensures Managed(Apply(h, op)) == Managed(h) && Leaked(Apply(h, op)) == Leaked(h) + Leaks(h, op)
  {
    hide HInv, Managed, Leaked, KmallocLarge, KfreeLarge, KmallocSlab, SlabStep, Lost;
    match op
    case Malloc(size) =>
      if size > 1024 {
        KmallocLargeAccounts(h, size);
        KmallocLargeLeaks(h, size);
      } else if size > 0 {
        KmallocSlabAccounts(h, size);
        SlabStepLeaks(h, KmallocSlab(h, size).0);
      }
    case Free(b) =>
      match b {
        case Object(f, k) =>
          ObjectStep(h, f, k);
          SlabStepLeaks(h, KfreeSlab(h, f, k));
        case Pages(base) => KfreeLargeAccounts(h, base);
      }
    case Store(b, w, v) =>
      StoreStep(h, b, w, v);
      SlabStepLeaks(h, StoreWord(h, b, w, v));
  }

  lemma {:induction false} ObjectStep(h: Heap, f: nat, k: nat)
    requires LiveObject(h, f, k)
    ensures SlabStep(h, KfreeSlab(h, f, k))
  {
    hide HInv;
  }

  lemma {:induction false} StoreStep(h: Heap, b: Block, w: nat, v: nat)
    requires Live(h, b)
    ensures SlabStep(h, StoreWord(h, b, w, v))
  {
  }

  /** What a run leaks. */
  ghost function RunLeaks(h: Heap, ops: seq<Op>): set<nat>
    requires HInv(h) && IsRun(h, ops)
    decreases ops
  {
    if ops == [] then {}
    else
      ApplyKeeps(h, ops[0]);
      Leaks(h, ops[0]) + RunLeaks(Apply(h, ops[0]), ops[1..])
  }

  /** Over every run each frame stays accounted for: what left the allocator is exactly the new page tables, the slabs
      and the frames taken for large blocks, and of these the ones that no live block gives back are exactly those that
      failed and half-mapped calls leaked. */
  lemma {:induction false} RunAccounts(h: Heap, ops: seq<Op>)
    requires HInv(h) && IsRun(h, ops)
    ensures Managed(RunAll(h, ops)) == Managed(h)
    ensures Leaked(RunAll(h, ops)) == Leaked(h) + RunLeaks(h, ops)
    decreases ops
  {
    hide HInv, Managed, Leaked, Apply, Leaks;
    if ops != [] {
      ApplyKeeps(h, ops[0]);
      StepAccounts(h, ops[0]);
      RunAccounts(Apply(h, ops[0]), ops[1..]);
    }
  }
}
