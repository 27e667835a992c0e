/** What `kmalloc` and `kfree` do to the set of live blocks, and where a block's contents are (kernel/src/mm/heap.c). */
module HeapBlocks {
  import opened Common
  import opened Words
  import opened FrameAllocator
  import opened PageTables
  import opened AddressSpaces
  import opened Slabs
  import opened HeapState
  import opened SlabHeap
  import opened LargeHeap
  import opened HeapRuns

  /** `b` is the one block that `h1` has more than `h`: it has the size asked for and its address was returned. */
  ghost predicate NewBlock(h: Heap, h1: Heap, b: Block, size: nat, addr: nat) {
    && !Live(h, b) && Live(h1, b) && Size(h1, b) == size && Address(h1, b) == addr
    && forall x :: Live(h1, x) <==> Live(h, x) || x == b
  }

  /** The same blocks are live. */
  ghost predicate SameLive(h: Heap, h1: Heap) {
    forall x :: Live(h1, x) <==> Live(h, x)
  }

  lemma {:induction false} TakeObjectGives(h: Heap, f: nat, size: nat)
    requires HasRoom(h, f)
    ensures h.slabs[f].cls < CLASSES
    ensures
      var b := Object(f, h.slabs[f].free[0]);
      NewBlock(h, TakeObject(h, f, size), b, size, ObjPointer(h, f, h.slabs[f].free[0]))
  {
    hide HInv, PopRow, ObjAddr, PutRow;
    FirstFree(h, f);
  }

  ghost predicate Full(h: Heap, f: nat) {
    f in h.slabs && h.slabs[f].free == []
  }

  /** `b` is the head of the free list of the first slab with room in the chain of class `c`, or, when all slabs of the
      chain are full, the first object of a new slab. */
  ghost predicate FirstFit(h: Heap, c: nat, b: Block) {
    && b.Object? && c < |h.chains|
    && var chain := h.chains[c];
    && if b.frame in h.slabs then
         && h.slabs[b.frame].free != [] && b.index == h.slabs[b.frame].free[0]
         && exists j :: 0 <= j < |chain| && chain[j] == b.frame && forall i :: 0 <= i < j ==> Full(h, chain[i])
       else
         && b.index == 0 && h.vm.free != {} && b.frame == Lowest(h.vm.free)
         && forall i :: 0 <= i < |chain| ==> Full(h, chain[i])
  }

  /** The object is the head of the free list of the first slab of the chain with a free object, in the smallest class
      that holds the bytes and the header; when all slabs are full, the first object of a new slab. */
  lemma {:induction false} KmallocSlabGives(h: Heap, size: nat)
    requires HInv(h)
    ensures
      var (h1, r) := KmallocSlab(h, size);
      && (!r.Pointer? ==> SameLive(h, h1))
      && h1.vaddr == h.vaddr
      && (r.Pointer? ==>
            exists b: Block :: FirstFit(h, ClassFor(size), b) && NewBlock(h, h1, b, size, r.addr)
              && h1.slabs[b.frame].cls == ClassFor(size))
  {
    hide HInv, Grow, TakeObject, ObjPointer;
    var c := ClassFor(size);
    SixChains(h);
    if c < CLASSES {
      var chain := ChainOf(h, c);
      var j := FirstRoom(h.slabs, chain);
      RoomInChain(h, c);
      if j < |chain| {
        TakeObjectGives(h, chain[j], size);
        TakenClass(h, chain[j], size);
        var b := Object(chain[j], h.slabs[chain[j]].free[0]);
        assert chain[j] == b.frame && forall i :: 0 <= i < j ==> Full(h, chain[i]);
        assert FirstFit(h, c, b);
        assert NewBlock(h, KmallocSlab(h, size).0, b, size, KmallocSlab(h, size).1.addr);
      } else if chain != [] && h.vm.free != {} {
        GrownHasRoom(h, c);
        var g, f := Grow(h, c), Lowest(h.vm.free);
        TakeObjectGives(g, f, size);
        TakenClass(g, f, size);
        GrowAddsNone(h, c);
        assert FirstFit(h, c, Object(f, 0));
        assert NewBlock(h, KmallocSlab(h, size).0, Object(f, 0), size, KmallocSlab(h, size).1.addr);
      }
    }
  }

  lemma {:induction false} SixChains(h: Heap)
    requires HInv(h)
    ensures |h.chains| == CLASSES
  {
  }

  lemma {:induction false} TakenClass(h: Heap, f: nat, size: nat)
    requires HasRoom(h, f)
    ensures f in TakeObject(h, f, size).slabs && TakeObject(h, f, size).slabs[f].cls == h.slabs[f].cls
    ensures TakeObject(h, f, size).vaddr == h.vaddr
  {
    hide HInv, PopRow;
  }

  lemma {:induction false} GrowAddsNone(h: Heap, c: nat)
    requires HInv(h) && c < CLASSES && h.vm.free != {}
    ensures CanGrow(h, c) && SameLive(h, Grow(h, c)) && Lowest(h.vm.free) !in h.slabs && Grow(h, c).vaddr == h.vaddr
  {
    GrowReady(h, c);
    var f := Lowest(h.vm.free);
    if f in h.slabs { SlabFrame(h, f); }
    hide HInv, FreshRow;
  }

  /** `kmalloc` gives a block that was not live, of exactly the size asked for, and no other block comes or goes; when
      it gives no pointer, none does. A large block starts at the bump pointer, which advances by its pages in every
      outcome. */
  lemma {:induction false} KmallocGivesBlock(h: Heap, size: nat)
    requires HInv(h) && (size > 1024 ==> Roomy(h, PagesFor(size)))
    ensures
      var (h1, r) := Kmalloc(h, size);
      && (size == 0 ==> r == Null && h1 == h)
      && (!r.Pointer? ==> SameLive(h, h1))
      && h1.vaddr == (if size > 1024 then h.vaddr + 4096 * ((size + 24 + 4095) / 4096) else h.vaddr)
      && (r.Pointer? ==>
            exists b: Block :: NewBlock(h, h1, b, size, r.addr)
              && (size <= 1024 ==> b.Object?)
              && (size > 1024 ==>
                    b == Pages(h.vaddr) && r.addr == h.vaddr + 24
                    && h1.chunks[h.vaddr].pages == (size + 24 + 4095) / 4096))
  {
    hide HInv, KmallocSlab, KmallocLarge, MapPages, PagesFor, Roomy, NewBlock;
    if size > 1024 {
      KmallocLargeGives(h, size);
    } else if size > 0 {
      KmallocSlabGives(h, size);
    }
  }

  lemma {:induction false} KmallocLargeGives(h: Heap, size: nat)
    requires Roomy(h, PagesFor(size)) && size > 1024
    ensures
      var (h1, r) := KmallocLarge(h, size);
      && (!r.Pointer? ==> SameLive(h, h1))
      && h1.vaddr == h.vaddr + 4096 * ((size + 24 + 4095) / 4096)
      && (r.Pointer? ==> NewBlock(h, h1, Pages(h.vaddr), size, r.addr))
      && (r.Pointer? ==> r.addr == h.vaddr + 24 && h1.chunks[h.vaddr].pages == (size + 24 + 4095) / 4096)
  {
    hide HInv, KmallocLarge, MapPages, Roomy, AllMapped, LeafWord, CanStore;
    KmallocLargeCases(h, size);
    if KmallocLarge(h, size).1.Pointer? {
      KmallocLargeCost(h, size);
    }
  }

  /** `kfree` ends exactly the block it is given. */
  lemma {:induction false} KfreeEndsBlock(h: Heap, b: Block)
    requires HInv(h) && Live(h, b)
    ensures forall x :: Live(Kfree(h, b), x) <==> Live(h, x) && x != b
    ensures b.Object? ==>
      var h1 := Kfree(h, b);
      b.frame in h1.slabs && h1.slabs[b.frame].free == [b.index] + h.slabs[b.frame].free
  {
    match b
    case Object(f, k) =>
      hide HInv, PushRow;
    case Pages(base) =>
      hide HInv, KfreeLarge;
      KfreeLargeParts(h, base);
  }

  /** The contents of a block are behind its address: word `w` of a slab object is at that many words past the address
      in the direct map, and word `w` of a large block is where the page tables lead from there. */
  lemma {:induction false} ContentsBehindAddress(h: Heap, b: Block, w: nat)
    requires HInv(h) && InBounds(h, b, w)
    ensures
      var (f, i) := Location(h, b, w);
      var v := Address(h, b) + 8 * w;
      && i < 512
      && (b.Object? ==> v == h.hhdm + f * 4096 + 8 * i)
      && (b.Pages? ==> LeafWord(h.vm, h.root, v) == f * 4096 + 3 && v % 4096 == 8 * i)
  {
    hide HInv, LeafWord;
    match b
    case Object(f, k) =>
      ObjectBounds(h, f, k, w);
    case Pages(base) =>
      ChunkAligned(h, base);
      PageWord(h, base, w);
      InPage(base, w);
      LargeBlockLeaves(h, base, (w + HEADER_WORDS) / ROW, base + 24 + 8 * w);
  }

  lemma {:induction false} ChunkAligned(h: Heap, base: nat)
    requires HInv(h) && base in h.chunks
    ensures base % 4096 == 0 && |h.chunks[base].frames| <= h.chunks[base].pages
  {
    ChunkFacts(h, base);
  }

  lemma {:induction false} InPage(base: nat, w: nat)
    requires base % 4096 == 0
    ensures
      var p, i := (w + 3) / 512, (w + 3) % 512;
      base + 24 + 8 * w == base + 4096 * p + 8 * i && (base + 24 + 8 * w) % 4096 == 8 * i
  {
    var p, i, k := (w + 3) / 512, (w + 3) % 512, base / 4096;
    assert base + 24 + 8 * w == 4096 * (k + p) + 8 * i;
  }
}
