/** The heap code as it runs (kernel/src/mm/heap.c): pointers followed word by word through physical memory. */
module Heap {
  import opened Common
  import opened Words
  import opened FrameAllocator
  import opened PageTables
  import opened AddressSpaces
  import opened Vmm
  import opened Slabs
  import H = HeapState
  import opened SlabHeap
  import opened LargeHeap
  import Runs = HeapRuns

  class KernelHeap {
    const mapper: PageMapper
    const pmm: Pmm
    const hhdm: nat
    const root: nat            // the page map in CR3
    ghost const limit: nat     // frames below this are managed by the allocator
    var firstSlab: seq<nat>    // caches[i].first_slab
    var heapVaddr: nat         // kernel_heap_vaddr
    ghost var chains: seq<seq<nat>>
    ghost var slabs: map<nat, Slab>
    ghost var chunks: map<nat, H.Chunk>
    ghost var data: map<nat, (nat, nat)>

    ghost function Value(): H.Heap
      reads this, mapper, mapper.pmm, mapper.pmm.bitmap
    {
      H.Heap(mapper.Value(), hhdm, limit, root, chains, slabs, heapVaddr, chunks, data)
    }

    ghost predicate Caches()
      reads this`firstSlab, this`chains
    {
      && |firstSlab| == |chains| == CLASSES
      && forall c :: 0 <= c < CLASSES ==> firstSlab[c] == SlabPtr(hhdm, chains[c], 0)
    }

    ghost predicate Valid()
      reads this, mapper, mapper.pmm, mapper.pmm.bitmap
    {
      && mapper.pmm == pmm && mapper.Valid() && H.HInv(Value()) && Caches()
      && limit == pmm.totalPages
    }

    /** The globals before `heap_init`: no slab, no block, the whole heap region unused. */
    constructor (mapper: PageMapper, hhdm: nat, root: nat)
      requires mapper.Valid() && hhdm > 0 && hhdm % PAGE_SIZE == 0
      requires H.FrameAddr(hhdm, mapper.pmm.totalPages) <= H.HEAP_BASE
      requires forall v: nat :: H.HEAP_BASE <= v < H.TOP ==> Walkable(mapper.Value(), root, v)
      ensures Valid()
      ensures Value()
           == H.Heap(mapper.Value(), hhdm, mapper.pmm.totalPages, root, Unused(), map[], H.HEAP_BASE, map[], map[])
      ensures this.mapper == mapper && this.pmm == mapper.pmm && this.hhdm == hhdm && this.root == root
    {
      this.mapper := mapper;
      this.pmm := mapper.pmm;
      this.hhdm := hhdm;
      this.root := root;
      this.limit := mapper.pmm.totalPages;
      firstSlab := [0, 0, 0, 0, 0, 0];
      heapVaddr := H.HEAP_BASE;
      chains := Unused();
      slabs := map[];
      chunks := map[];
      data := map[];
      new;
      mapper.pmm.FreeBelow();
    }

    /* ---------- loads and stores through the direct map ---------- */

    method Load(p: nat, ghost f: nat, ghost i: nat) returns (w: nat)
      requires p == WordAddr(hhdm, f, i) && f in mapper.mem && |mapper.mem[f]| == ROW && i < ROW
      ensures w == mapper.mem[f][i]
    {
      AddrParts(hhdm, f, i);
      w := mapper.mem[(p - hhdm) / PAGE_SIZE][(p - hhdm) % PAGE_SIZE / 8];
    }

    method Store(p: nat, w: nat, ghost f: nat, ghost i: nat)
      requires p == WordAddr(hhdm, f, i) && f in mapper.mem && |mapper.mem[f]| == ROW && i < ROW
      modifies mapper`mem
      ensures mapper.mem == WriteEntry(old(mapper.mem), f, i, w)
    {
      AddrParts(hhdm, f, i);
      mapper.mem := WriteEntry(mapper.mem, (p - hhdm) / PAGE_SIZE, (p - hhdm) % PAGE_SIZE / 8, w);
    }

    /* ---------- slabs ---------- */

    /** `create_slab`: a fresh frame whose words are the free list of all its objects, or NULL. */
    method CreateSlab(cls: nat) returns (slab: nat)
      requires mapper.pmm == pmm && mapper.Valid() && cls < CLASSES && hhdm > 0
      modifies mapper`mem, pmm`freePages, pmm.bitmap
      ensures pmm.Valid() && pmm.totalPages == old(pmm.totalPages) && pmm.bitmap == old(pmm.bitmap)
      ensures old(pmm.Free()) == {} ==> slab == 0 && pmm.Free() == {} && mapper.mem == old(mapper.mem)
      ensures old(pmm.Free()) != {} ==>
                var f := Lowest(old(pmm.Free()));
                && slab == H.FrameAddr(hhdm, f) && pmm.Free() == old(pmm.Free()) - {f}
                && f in old(mapper.mem) && |old(mapper.mem)[f]| == ROW
                && mapper.mem == old(mapper.mem)[f := FreshRow(old(mapper.mem)[f], slab, cls)]
    {
      ghost var s := mapper.Value();
      if s.free != {} {
        FreeFrameReady(s);
      }
      var phys := pmm.Alloc();
      if phys == 0 {
        return 0;
      }
      ghost var f := Lowest(s.free);
      slab := phys + hhdm;
      InitRow(slab, cls, f);
    }

    /** The stores of `create_slab`. */
    method InitRow(slab: nat, cls: nat, ghost f: nat)
      requires cls < CLASSES && slab == H.FrameAddr(hhdm, f) && f in mapper.mem && |mapper.mem[f]| == ROW
      modifies mapper`mem
      ensures mapper.mem == old(mapper.mem)[f := FreshRow(old(mapper.mem)[f], slab, cls)]
    {
      ghost var row := mapper.mem[f];
      Store(slab, ObjSize(cls), f, 0);
      Store(slab + 16, 0, f, 2);
      Store(slab + 8, slab + 24, f, 1);
      ghost var start: seq<nat> := row[0 := ObjSize(cls)][2 := 0][1 := ObjAddr(slab, cls, 0)];
      assert mapper.mem[f] == start;
      hide LinkObjects;
      LinkAll(slab, cls, f);
    }

    /** The loop of `create_slab` that chains the objects. */
    method LinkAll(slab: nat, cls: nat, ghost f: nat)
      requires cls < CLASSES && slab == H.FrameAddr(hhdm, f) && f in mapper.mem && |mapper.mem[f]| == ROW
      modifies mapper`mem
      ensures mapper.mem == old(mapper.mem)[f := LinkObjects(old(mapper.mem)[f], slab, cls, Count(cls))]
    {
      ghost var m0, row := mapper.mem, mapper.mem[f];
      CountValues();
      var num := 4072 / ObjSize(cls);
      var current := slab + 24;
      for i := 0 to num - 1
        invariant current == ObjAddr(slab, cls, i)
        invariant mapper.mem == m0[f := LinkObjects(row, slab, cls, i)]
      {
        ObjectLayout(cls, i, i + 1);
        Store(current, current + ObjSize(cls), f, ObjWord(cls, i));
        current := current + ObjSize(cls);
      }
      ObjectLayout(cls, num - 1, num - 1);
      Store(current, 0, f, ObjWord(cls, num - 1));
    }

    /** The stores that unlink, tag and size the head of a free list. */
    method Unlink(slab: nat, size: nat, ghost f: nat, ghost cls: nat, ghost k: nat) returns (header: nat)
      requires f in mapper.mem && |mapper.mem[f]| == ROW && slab == H.FrameAddr(hhdm, f) && cls < CLASSES
      requires k < Count(cls)
      requires mapper.mem[f][1] == WordAddr(hhdm, f, ObjWord(cls, k))
      modifies mapper`mem
      ensures header == WordAddr(hhdm, f, ObjWord(cls, k))
      ensures mapper.mem == old(mapper.mem)[f := PopRow(old(mapper.mem)[f], cls, k, size)]
    {
      ObjectLayout(cls, k, k);
      ghost var w, row := ObjWord(cls, k), mapper.mem[f];
      hide ObjWord, SetLow, ObjWords;
      header := Load(slab + 8, f, 1);
      var next := Load(header, f, w);
      Store(slab + 8, next, f, 1);
      var word := Load(header, f, w);
      Store(header, SetLow(word, MAGIC_SLAB), f, w);
      Store(header + 16, size, f, w + 2);
      assert mapper.mem[f] == PopRow(row, cls, k, size);
    }

    /** The head of the slab's free list is handed out. */
    method TakeHead(slab: nat, size: nat, ghost h: H.Heap, ghost f: nat, ghost s: Slab) returns (ptr: nat)
      requires Valid() && h == Value() && HasRoom(h, f) && slab == H.FrameAddr(hhdm, f) && size >= 1
      requires s == h.slabs[f] && s.cls < CLASSES && size + 24 <= ObjSize(s.cls)
      modifies this`slabs, mapper`mem
      ensures Valid() && Value() == TakeObject(h, f, size)
      ensures ptr == ObjAddr(slab, s.cls, s.free[0]) + 24
    {
      hide H.HInv, Inv, ObjWord, Represents, PopRow, FreeFrames, Pop;
      TakeObjectKeeps(h, f, size);
      HeadOfList(h, f);
      TreeInside(TakeObject(h, f, size));
      var header := Unlink(slab, size, f, s.cls, s.free[0]);
      ptr := header + 24;
      slabs := slabs[f := Pop(s, size)];
    }

    /** `slab->next_slab = create_slab(...)` on the last slab of a chain. */
    method Extend(slab: nat, cls: nat, ghost h: H.Heap, ghost last: nat) returns (next: nat)
      requires Valid() && h == Value() && cls < CLASSES && h.chains[cls] != [] && last == H.Last(h.chains[cls])
      requires slab == H.FrameAddr(hhdm, last)
      modifies this`slabs, this`chains, mapper`mem, pmm`freePages, pmm.bitmap
      ensures Valid()
      ensures h.vm.free == {} ==> Value() == h && next == 0
      ensures h.vm.free != {} ==>
        H.CanGrow(h, cls) && Value() == H.Grow(h, cls) && next == H.FrameAddr(hhdm, Lowest(h.vm.free))
    {
      hide H.HInv, Inv, H.Grow, FreeFrames, FreshRow, Caches, WriteEntry;
      LastSlab(h, cls);
      TreeInside(h);
      GrowIs(h, cls);
      next := CreateSlab(cls);
      Store(slab + 16, next, last, 2);
      if h.vm.free != {} {
        RecordSlab(cls, h);
      }
    }

    /** The description of the heap follows the two stores. */
    ghost method RecordSlab(cls: nat, h: H.Heap)
      requires cls < CLASSES == |h.chains| && h.vm.free != {} && H.CanGrow(h, cls) && H.HInv(H.Grow(h, cls))
      requires mapper.pmm == pmm && pmm.Valid() && limit == pmm.totalPages && Caches() && chains[cls] != []
      requires Value() == h.(vm := H.Grow(h, cls).vm)
      modifies this`slabs, this`chains
      ensures Valid() && Value() == H.Grow(h, cls)
    {
      hide H.HInv, Inv, H.Grow, FreeFrames, FreshRow;
      ghost var f := Lowest(h.vm.free);
      H.GrowMemory(h, cls);
      TreeInside(H.Grow(h, cls));
      chains := chains[cls := chains[cls] + [f]];
      slabs := slabs[f := FreshSlab(cls)];
    }

    /** `heap_init`: one slab for each class, as long as there are frames. */
    method HeapInit(ghost h: H.Heap)
      requires Valid() && h == Value() && chains == Unused()
      modifies this`firstSlab, this`slabs, this`chains, mapper`mem, pmm`freePages, pmm.bitmap
      ensures Valid() && Value() == Initialised(h, CLASSES)
    {
      hide H.HInv, Inv, H.Grow, FreeFrames, Caches, Initialised;
      InitStart(h);
      for c := 0 to CLASSES
        invariant Valid() && Value() == Initialised(h, c)
      {
        InitStep(h, c);
        FirstSlabOf(c, Value());
      }
    }

    method FirstSlabOf(c: nat, ghost h: H.Heap)
      requires Valid() && h == Value() && c < CLASSES && h.chains[c] == []
      modifies this`firstSlab, this`slabs, this`chains, mapper`mem, pmm`freePages, pmm.bitmap
      ensures Valid()
      ensures h.vm.free == {} ==> Value() == h
      ensures h.vm.free != {} ==> H.CanGrow(h, c) && Value() == H.Grow(h, c)
    {
      hide H.HInv, Inv, H.Grow, FreeFrames, FreshRow;
      ChainStart(h, c);
      TreeInside(h);
      var slab := CreateSlab(c);
      firstSlab := firstSlab[c := slab];
      if h.vm.free != {} {
        H.GrowKeeps(h, c);
        GrowFirst(h, c);
        RecordFirst(c, h);
      }
    }

    ghost method RecordFirst(c: nat, h: H.Heap)
      requires c < CLASSES == |h.chains| && h.vm.free != {} && h.chains[c] == [] && H.CanGrow(h, c)
      requires H.HInv(H.Grow(h, c))
      requires mapper.pmm == pmm && pmm.Valid() && limit == pmm.totalPages && |firstSlab| == CLASSES
      requires forall d: nat :: d < CLASSES ==>
                 firstSlab[d] == SlabPtr(hhdm, if d == c then [Lowest(h.vm.free)] else h.chains[d], 0)
      requires Value() == h.(vm := H.Grow(h, c).vm)
      modifies this`slabs, this`chains
      ensures Valid() && Value() == H.Grow(h, c)
    {
      hide H.HInv, Inv, H.Grow, FreeFrames, FreshRow;
      ghost var f := Lowest(h.vm.free);
      GrowFirst(h, c);
      TreeInside(H.Grow(h, c));
      chains := chains[c := [f]];
      slabs := slabs[f := FreshSlab(c)];
    }

    /** The search for a cache: the first class with room for the size and the header. */
    static method FindClass(size: nat) returns (c: nat)
      ensures c == ClassFor(size)
    {
      c := 0;
      while c < CLASSES && size + 24 > ObjSize(c)
        invariant c <= CLASSES
        invariant forall d: nat :: d < c ==> size + 24 > ObjSize(d)
      {
        c := c + 1;
      }
    }

    /** One turn of the chain walk: take an object here, or go to the next slab, creating it at the end. */
    method Visit(slab: nat, c: nat, size: nat, ghost h: H.Heap, ghost j: nat, ghost now: H.Heap)
      returns (found: bool, ptr: nat, next: nat)
      requires Valid() && now == Value() && H.HInv(h) && size >= 1 && slab != 0
      requires c == ClassFor(size) && c < CLASSES == |h.chains| && j <= |h.chains[c]| && ChainCursor(h, c, j, slab, now)
      modifies this`slabs, this`chains, mapper`mem, pmm`freePages, pmm.bitmap
      ensures Valid()
      ensures found ==> (Value(), Pointer(ptr)) == KmallocSlab(h, size)
      ensures !found ==> j < |h.chains[c]| && ChainCursor(h, c, j + 1, next, Value())
    {
      hide H.HInv, Inv, FreeFrames, H.Grow, FreshRow, ObjSize, TakeObject, KmallocSlab, Caches;
      KmallocSlabIs(h, size);
      CursorRead(h, c, j, slab, now);
      found, ptr, next := false, 0, 0;
      ghost var f := if j < |h.chains[c]| then h.chains[c][j] else Lowest(h.vm.free);
      var list := Load(slab + 8, f, 1);
      if list != 0 {
        ptr := TakeHead(slab, size, now, f, now.slabs[f]);
        found := true;
        return;
      }
      next := Load(slab + 16, f, 2);
      if next == 0 {
        next := Extend(slab, c, h, f);
      }
    }

    /** The slab path of `kmalloc`. */
    method KmallocSmall(size: nat, ghost h: H.Heap) returns (r: Outcome)
      requires Valid() && h == Value() && size >= 1
      modifies this`slabs, this`chains, mapper`mem, pmm`freePages, pmm.bitmap
      ensures Valid() && (Value(), r) == KmallocSlab(h, size)
    {
      hide H.HInv, Inv, FreeFrames, H.Grow, TakeObject, KmallocSlab;
      var c := FindClass(size);
      KmallocSlabIs(h, size);
      if c == CLASSES {
        return Null;
      }
      ChainStart(h, c);
      ghost var j := 0;
      var slab := firstSlab[c];
      while slab != 0
        invariant Valid() && j <= |h.chains[c]|
        invariant ChainCursor(h, c, j, slab, Value())
        decreases |h.chains[c]| - j
      {
        var found, ptr, next := Visit(slab, c, size, h, j, Value());
        if found {
          return Pointer(ptr);
        }
        slab := next;
        j := j + 1;
      }
      return Null;
    }

    /* ---------- large blocks ---------- */

    /** One turn of the mapping loop: a frame, mapped at `virt`. False when there is no frame. */
    method MapPage(virt: nat, ghost vm: State) returns (ok: bool)
      requires mapper.pmm == pmm && mapper.Valid() && vm == mapper.Value() && Region(vm, root)
      requires H.HEAP_BASE <= virt < H.TOP
      modifies mapper, pmm`freePages, pmm.bitmap
      ensures mapper.Valid() && ok == (vm.free != {})
      ensures mapper.Value() == if ok then PageStep(vm, root, virt).0 else vm
    {
      hide Inv, FreeFrames, Region, VmmMap, Walkable;
      if vm.free != {} {
        FreeFrameReady(vm);
        PageStepTree(vm, root, virt);
      }
      var phys := pmm.Alloc();
      if phys == 0 {
        return false;
      }
      mapper.Map(root, virt, phys, KERNEL_PAGE);
      return true;
    }

    /** The mapping loop of `kmalloc`. */
    method MapBlock(base: nat, n: nat, ghost vm: State) returns (ok: bool)
      requires mapper.pmm == pmm && mapper.Valid() && vm == mapper.Value() && Region(vm, root)
      requires H.HEAP_BASE <= base && base + PAGE_SIZE * n <= H.TOP
      modifies mapper, pmm`freePages, pmm.bitmap
      ensures mapper.Valid() && mapper.Value() == MapPages(vm, root, base, n).0 && ok == MapPages(vm, root, base, n).2
    {
      hide Inv, FreeFrames, Region, PageStep;
      var i := 0;
      while i < n
        invariant i <= n && mapper.Valid()
        invariant mapper.Value() == MapPages(vm, root, base, i).0 && MapPages(vm, root, base, i).2
      {
        MapPagesTree(vm, root, base, i);
        ok := MapPage(base + PAGE_SIZE * i, mapper.Value());
        if !ok {
          StaysFailed(vm, root, base, i + 1, n);
          return;
        }
        i := i + 1;
      }
      return true;
    }

    /** `kmalloc` above 1024 bytes. */
    method KmallocBig(size: nat, ghost h: H.Heap) returns (r: Outcome)
      requires Valid() && h == Value() && size > 1024 && Roomy(h, PagesFor(size))
      modifies this`heapVaddr, this`chunks, this`data, mapper, pmm`freePages, pmm.bitmap
      ensures Valid() && (Value(), r) == KmallocLarge(h, size)
    {
      hide H.HInv, Inv, FreeFrames, Region, MapPages, KmallocLarge, AfterPages, HeaderRow, AllMapped, LeafWord;
      var n := (size + 24 + 4095) / PAGE_SIZE;
      var base := heapVaddr;
      RoomyFacts(h, n);
      KmallocLargeKeeps(h, size);
      KmallocLargeIs(h, size);
      TreeInside(KmallocLarge(h, size).0);
      AfterPagesIs(h, n);
      heapVaddr := heapVaddr + n * PAGE_SIZE;
      ghost var (vm1, frames, got) := MapPages(h.vm, root, base, n);
      data := AddData(data, base, frames);
      var ok := MapBlock(base, n, h.vm);
      if !ok {
        return Null;
      }
      r := FinishBlock(base, n, size, h);
    }

    /** The end of a large `kmalloc`: the header is stored through the page tables and the block is handed out. */
    method FinishBlock(base: nat, n: nat, size: nat, ghost h: H.Heap) returns (r: Outcome)
      requires mapper.pmm == pmm && mapper.Valid() && limit == pmm.totalPages && Caches()
      requires size > 1024 && Roomy(h, PagesFor(size)) && n == PagesFor(size) && base == h.vaddr && h.root == root
      requires MapPages(h.vm, root, base, n).2 && Value() == AfterPages(h, n)
      requires H.HInv(KmallocLarge(h, size).0)
      modifies this`chunks, mapper`mem
      ensures Valid() && (Value(), r) == KmallocLarge(h, size)
    {
      hide H.HInv, Inv, FreeFrames, Region, MapPages, KmallocLarge, AfterPages, HeaderRow, AllMapped, LeafWord, Caches;
      KmallocLargeIs(h, size);
      AfterPagesIs(h, n);
      HeaderTarget(h, size);
      TreeInside(KmallocLarge(h, size).0);
      ghost var (vm1, frames, got) := MapPages(h.vm, root, base, n);
      var leaf := mapper.ReadLeaf(root, base);
      if leaf % 2 == 0 || leaf / 2 % 2 == 0 {
        return Fault;
      }
      WriteHeader(leaf / PAGE_SIZE, n, size);
      chunks := chunks[base := H.Chunk(n, size, MappedFrames(vm1, root, base, frames))];
      return Pointer(base + 24);
    }

    /** The three header fields, written through the first page's translation. */
    method WriteHeader(f: nat, pages: nat, size: nat)
      requires f in mapper.mem && |mapper.mem[f]| == ROW
      modifies mapper`mem
      ensures mapper.mem == old(mapper.mem)[f := HeaderRow(old(mapper.mem)[f], pages, size)]
    {
      ghost var row := mapper.mem[f];
      mapper.mem := WriteEntry(mapper.mem, f, 0, SetLow(mapper.mem[f][0], MAGIC_PAGE));
      mapper.mem := WriteEntry(mapper.mem, f, 1, pages);
      mapper.mem := WriteEntry(mapper.mem, f, 2, size);
      assert mapper.mem[f] == HeaderRow(row, pages, size);
    }

    /** `kmalloc`. */
    method Kmalloc(size: nat, ghost h: H.Heap) returns (r: Outcome)
      requires Valid() && h == Value() && (size > 1024 ==> Roomy(h, PagesFor(size)))
      modifies this, mapper, pmm`freePages, pmm.bitmap
      ensures Valid() && (Value(), r) == Runs.Kmalloc(h, size)
    {
      hide H.HInv, KmallocLarge, KmallocSlab;
      if size == 0 {
        return Null;
      }
      if size > 1024 {
        r := KmallocBig(size, h);
      } else {
        r := KmallocSmall(size, h);
      }
    }

    /* ---------- kfree ---------- */

    /** The slab branch of `kfree`: the object goes back to the head of its page's free list. */
    method PutBack(header: nat, ghost h: H.Heap, ghost f: nat, ghost k: nat)
      requires Valid() && h == Value() && LiveObject(h, f, k) && h.slabs[f].cls < CLASSES
      requires header == WordAddr(hhdm, f, ObjWord(h.slabs[f].cls, k))
      modifies this`slabs, mapper`mem
      ensures Valid() && Value() == KfreeSlab(h, f, k)
    {
      hide H.HInv, Inv, FreeFrames, ObjWord, Represents, PushRow, Push;
      KfreeSlabKeeps(h, f, k);
      TreeInside(KfreeSlab(h, f, k));
      ObjectPlace(h, f, k);
      Relink(PageBase(header), header, f, h.slabs[f].cls, k);
      slabs := slabs[f := Push(h.slabs[f], k)];
    }

    method Relink(slab: nat, header: nat, ghost f: nat, ghost cls: nat, ghost k: nat)
      requires f in mapper.mem && |mapper.mem[f]| == ROW && slab == H.FrameAddr(hhdm, f) && cls < CLASSES
      requires k < Count(cls)
      requires header == WordAddr(hhdm, f, ObjWord(cls, k))
      modifies mapper`mem
      ensures mapper.mem == old(mapper.mem)[f := PushRow(old(mapper.mem)[f], slab, cls, k)]
    {
      ObjectLayout(cls, k, k);
      ghost var row := mapper.mem[f];
      hide ObjWord, ObjWords;
      var list := Load(slab + 8, f, 1);
      Store(header, list, f, ObjWord(cls, k));
      Store(slab + 8, header, f, 1);
      assert mapper.mem[f] == PushRow(row, slab, cls, k);
    }

    /** One turn of the loop of `kfree`. */
    method FreePage(virt: nat, ghost vm: State, ghost f: nat)
      requires mapper.pmm == pmm && mapper.Valid() && vm == mapper.Value() && Walkable(vm, root, virt)
      requires GetPhys(vm, root, virt) == f * PAGE_SIZE && (f > 0 ==> f < pmm.totalPages)
      requires Inv(FreeStep(vm, root, virt))
      modifies mapper`mem, pmm`freePages, pmm.bitmap
      ensures mapper.Valid() && mapper.Value() == FreeStep(vm, root, virt)
    {
      hide Inv, FreeFrames, VmmUnmap, GetPhys, Walkable;
      UnmapFree(vm, root, virt);
      var phys := mapper.Translate(root, virt);
      mapper.Unmap(root, virt);
      if phys != 0 {
        pmm.FreeFrame(phys);
      }
    }

    /** The loop of `kfree` over the pages of a large block. */
    method FreePages(base: nat, n: nat, ghost vm: State, ghost frames: seq<nat>)
      requires mapper.pmm == pmm && mapper.Valid() && vm == mapper.Value() && Freeable(vm, root, base, frames, n)
      requires forall i: nat :: i < |frames| ==> frames[i] < pmm.totalPages
      modifies mapper`mem, pmm`freePages, pmm.bitmap
      ensures mapper.Valid() && mapper.Value() == UnmapPages(vm, root, base, n)
    {
      hide Inv, FreeFrames, Freeable, LeafWord, FreeStep;
      var i := 0;
      while i < n
        invariant i <= n && mapper.Valid()
        invariant mapper.Value() == UnmapPages(vm, root, base, i)
      {
        StillBacked(vm, root, base, frames, n, i);
        FreePage(base + PAGE_SIZE * i, mapper.Value(), if i < |frames| then frames[i] else 0);
        i := i + 1;
      }
    }

    /** A header field of the object or block at `header`: through the direct map below the heap region, through
        the page tables inside it. */
    method HeaderWord(header: nat, field: nat, ghost h: H.Heap, ghost b: Runs.Block) returns (w: nat)
      requires Valid() && h == Value() && PointsTo(h, b, header + 24) && field < HEADER_WORDS
      ensures w == HeaderField(h, b, field)
    {
      hide H.HInv, Inv, FreeFrames, ObjWord, Represents, LeafWord, Walkable;
      HeaderPlace(h, b, header + 24);
      if header < H.HEAP_BASE {
        w := Load(header + 8 * field, b.frame, ObjWord(h.slabs[b.frame].cls, b.index) + field);
      } else {
        var phys := mapper.Translate(root, header);
        w := mapper.mem[phys / PAGE_SIZE][field];
      }
    }

    /** The page branch of `kfree`. */
    method FreeBlock(base: nat, pages: nat, ghost h: H.Heap)
      requires Valid() && h == Value() && LiveChunk(h, base) && pages == h.chunks[base].pages
      modifies this`chunks, this`data, mapper`mem, pmm`freePages, pmm.bitmap
      ensures Valid() && Value() == KfreeLarge(h, base)
    {
      hide H.HInv, Inv, FreeFrames, Region, LeafWord, UnmapPages, Backed;
      KfreeLargeKeeps(h, base);
      TreeInside(KfreeLarge(h, base));
      ChunkBacked(h, base);
      FreePages(base, pages, h.vm, h.chunks[base].frames);
      chunks := chunks - {base};
      data := data - Elements(h.chunks[base].frames);
    }

    /** `kfree`. `b` says which object or block the pointer is to, live or already free. A live one is freed; NULL
        and an object that is already free leave the heap as it is. */
    method Kfree(ptr: nat, ghost h: H.Heap, ghost b: Runs.Block)
      requires Valid() && h == Value() && (ptr != 0 ==> PointsTo(h, b, ptr))
      modifies this, mapper, pmm`freePages, pmm.bitmap
      ensures Valid()
      ensures ptr != 0 && Runs.Live(h, b) ==> Value() == Runs.Kfree(h, b)
      ensures ptr == 0 || !Runs.Live(h, b) ==> Value() == h
    {
      hide H.HInv, Inv, FreeFrames, ObjWord, HeaderField, KfreeSlab, KfreeLarge;
      if ptr == 0 {
        return;
      }
      HeaderTag(h, b, ptr);
      var header := ptr - 24;
      var word := HeaderWord(header, 0, h, b);
      if word % HALF == MAGIC_SLAB {
        PutBack(header, h, b.frame, b.index);
      } else if word % HALF == MAGIC_PAGE {
        var pages := HeaderWord(header, 1, h, b);
        FreeBlock(header, pages, h);
      }
    }
  }

  /** `ptr` is an address `kmalloc` gives for `b`: any object of a slab, live or free, or a large block that was handed
      out, its last page mapped or not. */
  ghost predicate PointsTo(h: H.Heap, b: Runs.Block, ptr: nat) {
    match b
    case Object(f, k) =>
      && f in h.slabs && h.slabs[f].cls < CLASSES && k < Count(h.slabs[f].cls)
      && ptr == WordAddr(h.hhdm, f, ObjWord(h.slabs[f].cls, k)) + 24
    case Pages(base) => base in h.chunks && ptr == base + 24
  }

  /** Word `field` of the allocation header. */
  ghost function HeaderField(h: H.Heap, b: Runs.Block, field: nat): nat
    requires b.Object? ==> b.frame in h.slabs && h.slabs[b.frame].cls < CLASSES
    requires b.Pages? ==> b.base in h.chunks
  {
    match b
    case Object(f, k) => Entry(h.vm.mem, f, ObjWord(h.slabs[f].cls, k) + field)
    case Pages(base) => Entry(h.vm.mem, if h.chunks[base].frames == [] then 0 else h.chunks[base].frames[0], field)
  }

  lemma {:induction false} HeaderPlace(h: H.Heap, b: Runs.Block, ptr: nat)
    requires H.HInv(h) && PointsTo(h, b, ptr)
    ensures b.Object? ==> b.frame in h.vm.mem && |h.vm.mem[b.frame]| == ROW
                          && ObjWord(h.slabs[b.frame].cls, b.index) + HEADER_WORDS < ROW && ptr < H.HEAP_BASE + 24
    ensures b.Pages? ==>
              && H.HEAP_BASE <= b.base && Walkable(h.vm, h.root, b.base) && h.chunks[b.base].frames != []
              && var f := h.chunks[b.base].frames[0];
              f in h.vm.mem && |h.vm.mem[f]| == ROW && LeafWord(h.vm, h.root, b.base) == f * 4096 + 3
  {
    match b
    case Object(f, k) =>
      H.SlabFrame(h, f);
      ObjectLayout(h.slabs[f].cls, k, k);
    case Pages(base) =>
      ChunkFacts(h, base);
      assert H.PageOk(h, base, 0) && H.OwnedFrame(h, h.chunks[base].frames[0]);
  }

  /** The tag read there tells the cases apart: MAGIC_SLAB exactly on live objects, MAGIC_PAGE exactly on large
      blocks, neither on an object that is already free. */
  lemma {:induction false} HeaderTag(h: H.Heap, b: Runs.Block, ptr: nat)
    requires H.HInv(h) && PointsTo(h, b, ptr)
    ensures
      var tag := HeaderField(h, b, 0) % HALF;
      && (tag == MAGIC_SLAB <==> b.Object? && Runs.Live(h, b))
      && (tag == MAGIC_PAGE <==> b.Pages?)
      && (b.Pages? ==> HeaderField(h, b, 1) == h.chunks[b.base].pages && LiveChunk(h, b.base))
      && (b.Object? && Runs.Live(h, b) ==> LiveObject(h, b.frame, b.index))
      && ptr >= 24
  {
    match b
    case Object(f, k) =>
      H.SlabFrame(h, f);
      ObjectLayout(h.slabs[f].cls, k, k);
      assert Represents(h.vm.mem[f], H.FrameAddr(h.hhdm, f), h.slabs[f]);
      hide H.HInv;
      if k in h.slabs[f].free {
        Runs.FreedObjectRejected(h, f, k);
      } else {
        assert Tagged(WordOf(h.vm.mem[f], h.slabs[f].cls, k));
      }
    case Pages(base) =>
      assert H.ChunkOk(h, base);
  }

  /** The pages of a block as the loop of `kfree` finds them: all but perhaps the last backed by a frame. */
  ghost predicate Freeable(vm: State, root: nat, base: nat, frames: seq<nat>, n: nat) {
    && Inv(vm) && Region(vm, root) && n >= 1 && n - 1 <= |frames| <= n
    && H.HEAP_BASE <= base && base % PAGE_SIZE == 0 && base + PAGE_SIZE * n <= H.TOP
    && (forall k: nat :: k < |frames| ==> Backed(vm, root, base, frames, k))
    && (|frames| < n ==> forall v: nat ::
          base + PAGE_SIZE * (n - 1) <= v < base + PAGE_SIZE * n ==> LeafWord(vm, root, v) == 0)
  }

  /** Turn `i` of the loop finds page `i` still mapped to its frame, or still unmapped. */
  lemma {:induction false} StillBacked(vm: State, root: nat, base: nat, frames: seq<nat>, n: nat, i: nat)
    requires Freeable(vm, root, base, frames, n) && i < n
    ensures
      var now, virt := UnmapPages(vm, root, base, i), base + PAGE_SIZE * i;
      && Walkable(now, root, virt) && Inv(FreeStep(now, root, virt))
      && GetPhys(now, root, virt) == (if i < |frames| then frames[i] else 0) * PAGE_SIZE
  {
    hide Inv, LeafWord, FreeStep;
    UnmapPagesEffect(vm, root, base, frames, i);
    var now, virt := UnmapPages(vm, root, base, i), base + PAGE_SIZE * i;
    assert H.HEAP_BASE <= virt < H.TOP;
    if i < |frames| {
      UnmapPagesEffect(vm, root, base, frames, i + 1);
      assert Backed(vm, root, base, frames, i);
    } else {
      FreeStepNothing(now, root, virt);
    }
  }

  lemma {:induction false} UnmapFree(vm: State, root: nat, virt: nat)
    ensures VmmUnmap(vm, root, virt).free == vm.free
  {
  }

  /** Where a live object lies, and that masking its address gives its slab. */
  lemma {:induction false} ObjectPlace(h: H.Heap, f: nat, k: nat)
    requires LiveObject(h, f, k)
    ensures
      var cls := h.slabs[f].cls;
      && cls < CLASSES && k < Count(cls) && f in h.vm.mem && |h.vm.mem[f]| == ROW
      && PageBase(WordAddr(h.hhdm, f, ObjWord(cls, k))) == H.FrameAddr(h.hhdm, f)
  {
    H.SlabFrame(h, f);
    ObjectLayout(h.slabs[f].cls, k, k);
    MaskedAddr(h.hhdm, f, ObjWord(h.slabs[f].cls, k));
  }

  lemma {:induction false} MaskedAddr(hhdm: nat, f: nat, i: nat)
    requires hhdm % PAGE_SIZE == 0 && i < ROW
    ensures PageBase(WordAddr(hhdm, f, i)) == H.FrameAddr(hhdm, f)
  {
  }

  /** Once the allocator is empty the mapping loop makes no more progress. */
  lemma {:induction false} StaysFailed(vm: State, root: nat, base: nat, i: nat, n: nat)
    requires 1 <= i <= n && !MapPages(vm, root, base, i).2
    ensures MapPages(vm, root, base, n) == MapPages(vm, root, base, i)
    decreases n - i
  {
    hide PageStep;
    if i < n {
      StaysFailed(vm, root, base, i + 1, n);
    }
  }

  lemma {:induction false} AfterPagesIs(h: H.Heap, n: nat)
    ensures
      var (vm1, frames, _) := MapPages(h.vm, h.root, h.vaddr, n);
      AfterPages(h, n) == h.(vm := vm1, vaddr := h.vaddr + PAGE_SIZE * n, data := AddData(h.data, h.vaddr, frames))
  {
    hide MapPages, AddData;
  }

  /** The large path, case by case. */
  lemma {:induction false} KmallocLargeIs(h: H.Heap, size: nat)
    requires Roomy(h, PagesFor(size)) && size > 1024
    ensures
      var n, base := PagesFor(size), h.vaddr;
      var (vm1, frames, ok) := MapPages(h.vm, h.root, base, n);
      var h1 := AfterPages(h, n);
      && n >= 1
      && (!ok ==> KmallocLarge(h, size) == (h1, Null))
      && (ok && !CanStore(vm1, h.root, base) ==> KmallocLarge(h, size) == (h1, Fault))
      && (ok && CanStore(vm1, h.root, base) ==>
            && |frames| == n && frames[0] in vm1.mem && |vm1.mem[frames[0]]| == ROW
            && var row := HeaderRow(vm1.mem[frames[0]], n, size);
            KmallocLarge(h, size)
            == (h1.(vm := H.PutRow(h1.vm, frames[0], row),
                    chunks := h.chunks[base := H.Chunk(n, size, MappedFrames(vm1, h.root, base, frames))]),
                Pointer(base + 24)))
  {
    hide H.HInv, MapPages, AfterPages, AddData, LeafWord, HeaderRow, AllMapped;
    FirstPage(h, size);
    AfterPagesIs(h, PagesFor(size));
  }

  /** Where the header store lands. */
  lemma {:induction false} HeaderTarget(h: H.Heap, size: nat)
    requires Roomy(h, PagesFor(size)) && size > 1024 && MapPages(h.vm, h.root, h.vaddr, PagesFor(size)).2
    ensures
      var (vm1, frames, _) := MapPages(h.vm, h.root, h.vaddr, PagesFor(size));
      && Inv(vm1) && Walkable(vm1, h.root, h.vaddr)
      && (CanStore(vm1, h.root, h.vaddr) ==> frames != [] && LeafWord(vm1, h.root, h.vaddr) / PAGE_SIZE == frames[0])
  {
    hide H.HInv, Inv, MapPages, LeafWord;
    var n := PagesFor(size);
    RoomyFacts(h, n);
    MapPagesTree(h.vm, h.root, h.vaddr, n);
    FirstTranslation(h.vm, h.root, h.vaddr, n);
  }

  lemma {:induction false} FirstTranslation(vm: State, root: nat, base: nat, n: nat)
    requires Inv(vm) && Region(vm, root) && 0 !in vm.free
    requires H.HEAP_BASE <= base && base % PAGE_SIZE == 0 && n >= 1 && base + PAGE_SIZE * n <= H.TOP
    requires MapPages(vm, root, base, n).2
    ensures
      var (vm1, frames, _) := MapPages(vm, root, base, n);
      frames != [] && (CanStore(vm1, root, base) ==> LeafWord(vm1, root, base) / PAGE_SIZE == frames[0])
  {
    hide Inv, Region, MapPages, LeafWord, PageStep, Missing;
    BeforeLastPage(vm, root, base, n);
    var (before, some, _) := MapPages(vm, root, base, n - 1);
    LastPageOutcome(before, root, base, n, some);
    LastPage(before, root, base, n, some);
    var (vm1, frames, _) := MapPages(vm, root, base, n);
    if CanStore(vm1, root, base) {
      assert PageMapped(vm1, root, base, frames, 0);
    }
  }

  /** What the walk reads where it stands: the free list is empty exactly when there is no room, and the next
      pointer is NULL exactly at the end of the chain. */
  lemma {:induction false} CursorRead(h: H.Heap, c: nat, j: nat, slab: nat, now: H.Heap)
    requires H.HInv(h) && c < CLASSES == |h.chains| && j <= |h.chains[c]| && slab != 0
    requires ChainCursor(h, c, j, slab, now)
    ensures
      var chain := h.chains[c];
      var f := if j < |chain| then chain[j] else Lowest(h.vm.free);
      && (j == |chain| ==>
          && h.vm.free != {} && H.CanGrow(h, c) && now == H.Grow(h, c)
          && FirstRoom(h.slabs, chain) == |chain| && chain != [])
      && f in now.slabs && now.slabs[f].cls == c && f in now.vm.mem && |now.vm.mem[f]| == ROW
      && slab == H.FrameAddr(h.hhdm, f) && now.hhdm == h.hhdm
      && (now.vm.mem[f][1] != 0 ==> HasRoom(now, f) && FirstRoom(h.slabs, chain) == j && (j == |chain| ==>
          now.slabs[f] == FreshSlab(c)))
      && (now.vm.mem[f][1] == 0 ==> j < |chain| && j < FirstRoom(h.slabs, chain))
      && (j < |chain| ==> now == h && now.vm.mem[f][2] == SlabPtr(h.hhdm, chain, j + 1)
                          && (now.vm.mem[f][2] == 0 <==> j + 1 == |chain|))
  {
    hide H.HInv, H.Grow;
    ChainStart(h, c);
    if j < |h.chains[c]| {
      SlabRead(h, c, j);
    } else {
      GrownRead(h, c);
    }
  }

  /** Where the chain walk stands: at slab `j` of an unchanged heap, all slabs before it full; or at the one slab
      that was added. */
  ghost predicate ChainCursor(h: H.Heap, c: nat, j: nat, slab: nat, now: H.Heap)
    requires c < CLASSES == |h.chains|
  {
    var chain := h.chains[c];
    || (now == h && j <= FirstRoom(h.slabs, chain) && slab == SlabPtr(h.hhdm, chain, j)
        && (j == |chain| && chain != [] ==> h.vm.free == {}))
    || (h.vm.free != {} && j == |chain| == FirstRoom(h.slabs, chain) && chain != [] && H.CanGrow(h, c)
        && now == H.Grow(h, c) && slab == H.FrameAddr(h.hhdm, Lowest(h.vm.free)))
  }

  lemma {:induction false} ChainStart(h: H.Heap, c: nat)
    requires H.HInv(h) && c < CLASSES
    ensures |h.chains| == CLASSES && h.hhdm > 0
  {
  }

  /** What the walk reads at slab `j` of a chain. */
  lemma {:induction false} SlabRead(h: H.Heap, c: nat, j: nat)
    requires H.HInv(h) && c < CLASSES && j < |h.chains[c]|
    ensures
      var f := h.chains[c][j];
      && f in h.slabs && h.slabs[f].cls == c && f in h.vm.mem && |h.vm.mem[f]| == ROW
      && (h.vm.mem[f][1] == 0 <==> h.slabs[f].free == [])
      && h.vm.mem[f][2] == SlabPtr(h.hhdm, h.chains[c], j + 1)
      && (SlabPtr(h.hhdm, h.chains[c], j + 1) == 0 <==> j + 1 == |h.chains[c]|)
      && (h.slabs[f].free != [] ==> HasRoom(h, f))
  {
    assert H.ChainOk(h, c) && H.ChainLink(h, c, j);
    H.SlabFrame(h, h.chains[c][j]);
  }

  /** What the walk reads at the slab it has just added. */
  lemma {:induction false} GrownRead(h: H.Heap, c: nat)
    requires H.HInv(h) && c < CLASSES && h.vm.free != {} && H.CanGrow(h, c)
    ensures
      var g, f := H.Grow(h, c), Lowest(h.vm.free);
      && HasRoom(g, f) && g.slabs[f] == FreshSlab(c) && f in g.vm.mem && |g.vm.mem[f]| == ROW && g.vm.mem[f][1] != 0
      && g.hhdm == h.hhdm
  {
    GrownHasRoom(h, c);
    H.GrowMemory(h, c);
    hide H.Grow, H.HInv;
    HeadOfList(H.Grow(h, c), Lowest(h.vm.free));
  }

  /** The slab path, case by case. */
  lemma {:induction false} KmallocSlabIs(h: H.Heap, size: nat)
    requires H.HInv(h)
    ensures
      var c := ClassFor(size);
      if c == CLASSES then KmallocSlab(h, size) == (h, Null)
      else
        && |h.chains| == CLASSES && size + 24 <= ObjSize(c)
        && var chain := h.chains[c];
        var j := FirstRoom(h.slabs, chain);
        if j < |chain| then
          && HasRoom(h, chain[j]) && h.slabs[chain[j]].cls == c
          && KmallocSlab(h, size) == (TakeObject(h, chain[j], size),
                  Pointer(ObjAddr(H.FrameAddr(h.hhdm, chain[j]), c, h.slabs[chain[j]].free[0]) + 24))
        else if chain == [] || h.vm.free == {} then KmallocSlab(h, size) == (h, Null)
        else
          && H.CanGrow(h, c) && HasRoom(H.Grow(h, c), Lowest(h.vm.free)) && FreshSlab(c).free != []
          && KmallocSlab(h, size) == (TakeObject(H.Grow(h, c), Lowest(h.vm.free), size),
                  Pointer(ObjAddr(H.FrameAddr(h.hhdm, Lowest(h.vm.free)), c, FreshSlab(c).free[0]) + 24))
  {
    hide H.HInv, H.Grow, TakeObject, FreshSlab, ClassFor, FirstRoom;
    var c := ClassFor(size);
    if c < CLASSES {
      ChainStart(h, c);
      RoomInChain(h, c);
      if FirstRoom(h.slabs, h.chains[c]) == |h.chains[c]| && h.chains[c] != [] && h.vm.free != {} {
        GrownRead(h, c) by { H.GrowReady(h, c); }
        GrownHasRoom(h, c);
      }
    }
  }

  lemma {:induction false} GrowIs(h: H.Heap, cls: nat)
    requires H.HInv(h) && cls < CLASSES && h.chains[cls] != []
    ensures
      var last := H.Last(h.chains[cls]);
      && last in h.vm.mem && |h.vm.mem[last]| == ROW
      && WriteEntry(h.vm.mem, last, 2, 0) == h.vm.mem
      && (h.vm.free != {} ==>
            var f := Lowest(h.vm.free);
            && H.CanGrow(h, cls) && H.HInv(H.Grow(h, cls)) && last != f
            && last in h.vm.mem[f := FreshRow(h.vm.mem[f], H.FrameAddr(h.hhdm, f), cls)]
            && H.Grow(h, cls).vm == State(
                 WriteEntry(h.vm.mem[f := FreshRow(h.vm.mem[f], H.FrameAddr(h.hhdm, f), cls)], last, 2,
                            H.FrameAddr(h.hhdm, f)),
                 h.vm.free - {f}, h.vm.place))
  {
    hide H.HInv, FreshRow, H.Grow;
    ChainStart(h, cls);
    LastSlab(h, cls);
    var last := H.Last(h.chains[cls]);
    assert h.vm.mem[last][2 := 0] == h.vm.mem[last];
    if h.vm.free != {} {
      H.GrowKeeps(h, cls);
      GrowStores(h, cls);
    }
  }

  /** The heap after `heap_init` has gone through `n` classes. */
  ghost function Initialised(h: H.Heap, n: nat): H.Heap {
    if n == 0 then h
    else
      var h1 := Initialised(h, n - 1);
      if H.CanGrow(h1, n - 1) then H.Grow(h1, n - 1) else h1
  }

  /** `heap_init` gives every class a first slab as long as there are frames, and keeps the invariant. */
  lemma {:induction false} InitialisedKeeps(h: H.Heap, n: nat)
    requires H.HInv(h) && n <= CLASSES && h.chains == Unused()
    ensures H.HInv(Initialised(h, n)) && |Initialised(h, n).chains| == CLASSES
    ensures forall c :: 0 <= c < CLASSES ==> (Initialised(h, n).chains[c] != [] <==> c < n && c < |h.vm.free|)
    ensures |Initialised(h, n).vm.free| == if n <= |h.vm.free| then |h.vm.free| - n else 0
  {
    hide H.HInv, H.Grow;
    if n > 0 {
      InitialisedKeeps(h, n - 1);
      var h1 := Initialised(h, n - 1);
      if h1.vm.free != {} {
        H.GrowKeeps(h1, n - 1);
        H.GrowMemory(h1, n - 1);
      }
    }
  }

  lemma {:induction false} InitStart(h: H.Heap)
    ensures Initialised(h, 0) == h
  {
  }

  lemma {:induction false} InitStep(h: H.Heap, c: nat)
    requires H.HInv(h) && c < CLASSES && h.chains == Unused()
    ensures
      var now := Initialised(h, c);
      && |now.chains| == CLASSES && now.chains[c] == []
      && (now.vm.free == {} ==> Initialised(h, c + 1) == now)
      && (now.vm.free != {} ==> H.CanGrow(now, c) && Initialised(h, c + 1) == H.Grow(now, c))
  {
    hide H.HInv, H.Grow;
    InitialisedKeeps(h, c);
    var now := Initialised(h, c);
    if now.vm.free != {} {
      H.GrowReady(now, c);
    }
  }

  lemma {:induction false} GrowFirst(h: H.Heap, c: nat)
    requires H.CanGrow(h, c) && h.chains[c] == []
    ensures
      var f := Lowest(h.vm.free);
      H.Grow(h, c)
      == h.(vm := State(h.vm.mem[f := FreshRow(h.vm.mem[f], H.FrameAddr(h.hhdm, f), c)], h.vm.free - {f}, h.vm.place),
                         slabs := h.slabs[f := FreshSlab(c)], chains := h.chains[c := [f]])
  {
    hide FreshRow;
    assert h.chains[c] + [Lowest(h.vm.free)] == [Lowest(h.vm.free)];
  }

  lemma {:induction false} GrowStores(h: H.Heap, cls: nat)
    requires H.CanGrow(h, cls) && h.chains[cls] != []
    ensures
      var f, last := Lowest(h.vm.free), H.Last(h.chains[cls]);
      var mem := h.vm.mem[f := FreshRow(h.vm.mem[f], H.FrameAddr(h.hhdm, f), cls)];
      last != f ==>
        H.Grow(h, cls).vm == State(WriteEntry(mem, last, 2, H.FrameAddr(h.hhdm, f)), h.vm.free - {f}, h.vm.place)
  {
    hide FreshRow;
  }

  /** The last slab of a chain has no successor. */
  lemma {:induction false} LastSlab(h: H.Heap, c: nat)
    requires H.HInv(h) && c < CLASSES && h.chains[c] != []
    ensures
      var f := H.Last(h.chains[c]);
      && h.hhdm > 0 && f in h.vm.mem && |h.vm.mem[f]| == ROW && h.vm.mem[f][2] == 0
      && f !in h.vm.free && f in h.slabs
  {
    assert H.ChainOk(h, c);
    assert H.ChainLink(h, c, |h.chains[c]| - 1);
    H.SlabFrame(h, H.Last(h.chains[c]));
  }

  lemma {:induction false} TreeInside(h: H.Heap)
    requires H.HInv(h)
    ensures Inv(h.vm)
  {
  }

  /** The free list's head pointer leads to the object the slab's description puts first. */
  lemma {:induction false} HeadOfList(h: H.Heap, f: nat)
    requires HasRoom(h, f)
    ensures
      var s := h.slabs[f];
      && s.cls < CLASSES && s.free[0] < Count(s.cls)
      && f in h.vm.mem && |h.vm.mem[f]| == ROW && HEADER_WORDS <= ObjWord(s.cls, s.free[0])
      && ObjWord(s.cls, s.free[0]) + 4 <= ROW
      && h.vm.mem[f][1] == WordAddr(h.hhdm, f, ObjWord(s.cls, s.free[0])) && h.vm.mem[f][1] != 0
  {
    H.SlabFrame(h, f);
    ObjectLayout(h.slabs[f].cls, h.slabs[f].free[0], h.slabs[f].free[0]);
  }

  function Unused(): seq<seq<nat>> {
    [[], [], [], [], [], []]
  }

  /** The pointer to the `j`-th slab of a chain, NULL past the end. */
  function SlabPtr(hhdm: nat, chain: seq<nat>, j: nat): nat {
    if j < |chain| then H.FrameAddr(hhdm, chain[j]) else 0
  }

  function WordAddr(hhdm: nat, f: nat, i: nat): nat {
    H.FrameAddr(hhdm, f) + 8 * i
  }

  lemma {:induction false} AddrParts(hhdm: nat, f: nat, i: nat)
    requires i < ROW
    ensures (WordAddr(hhdm, f, i) - hhdm) / PAGE_SIZE == f && (WordAddr(hhdm, f, i) - hhdm) % PAGE_SIZE / 8 == i
  {
  }
}
