/** Whole runs of the heap: every sequence of `kmalloc`, `kfree` of live pointers and in-bounds stores. */
module HeapRuns {
  import opened Common
  import opened Words
  import opened FrameAllocator
  import opened PageTables
  import opened AddressSpaces
  import opened Slabs
  import opened HeapState
  import opened SlabHeap
  import opened LargeHeap

  /** A block `kmalloc` handed out: an object of a slab, or a large block by its first page. */
  datatype Block = Object(frame: nat, index: nat) | Pages(base: nat)

  ghost predicate Live(h: Heap, b: Block) {
    match b
    case Object(f, k) => f in h.slabs && h.slabs[f].cls < CLASSES && k in h.slabs[f].live
    case Pages(base) => base in h.chunks
  }

  /** The size that was asked for. */
  ghost function Size(h: Heap, b: Block): nat
    requires Live(h, b)
  {
    match b
    case Object(f, k) => h.slabs[f].live[k]
    case Pages(base) => h.chunks[base].size
  }

  /** The address `kmalloc` returned. */
  ghost function Address(h: Heap, b: Block): nat
    requires Live(h, b)
  {
    match b
    case Object(f, k) => ObjPointer(h, f, k)
    case Pages(base) => base + 24
  }

  /** Word `w` of the block's contents is word `.1` of frame `.0`. */
  ghost function Location(h: Heap, b: Block, w: nat): (nat, nat)
    requires Live(h, b)
  {
    match b
    case Object(f, k) => (f, ObjWord(h.slabs[f].cls, k) + HEADER_WORDS + w)
    case Pages(base) =>
      var frames := h.chunks[base].frames;
      (if (w + HEADER_WORDS) / ROW < |frames| then frames[(w + HEADER_WORDS) / ROW] else 0, (w + HEADER_WORDS) % ROW)
  }

  ghost function Load(h: Heap, b: Block, w: nat): nat
    requires Live(h, b)
  {
    Entry(h.vm.mem, Location(h, b, w).0, Location(h, b, w).1)
  }

  /** The words that hold the bytes asked for; of a block with an unmapped last page, those of its mapped pages (a
      store to the others is a page fault). */
  ghost predicate InBounds(h: Heap, b: Block, w: nat) {
    Live(h, b) && w < (Size(h, b) + 7) / 8 && (b.Pages? ==> (w + HEADER_WORDS) / ROW < |h.chunks[b.base].frames|)
  }

  /* ---------- what the invariant says about live blocks ---------- */

  /** A live block has room for its header and the bytes asked for, inside its own slab page or inside the pages
      bump-allocated for it; a slab object is exactly one that is not on the slab's free list. */
  lemma {:induction false} LiveBlockFits(h: Heap, b: Block)
    requires HInv(h) && Live(h, b)
    ensures Address(h, b) > 24 && Size(h, b) >= 1
    ensures b.Object? ==>
              && Partition(h.slabs[b.frame]) && b.index !in h.slabs[b.frame].free
              && FrameAddr(h.hhdm, b.frame) + 24 <= Address(h, b) - 24
              && Address(h, b) + Size(h, b) <= FrameAddr(h.hhdm, b.frame) + PAGE_SIZE <= HEAP_BASE
              && Address(h, b) - 24 + ObjSize(h.slabs[b.frame].cls) <= FrameAddr(h.hhdm, b.frame) + PAGE_SIZE
              && Size(h, b) + 24 <= ObjSize(h.slabs[b.frame].cls)
    ensures b.Pages? ==>
              && HEAP_BASE <= Address(h, b) - 24
              && Address(h, b) + Size(h, b) <= b.base + PAGE_SIZE * h.chunks[b.base].pages <= h.vaddr
  {
    match b
    case Object(f, k) =>
      SlabFrame(h, f);
      ObjectLayout(h.slabs[f].cls, k, k);
    case Pages(base) =>
      ChunkFacts(h, base);
  }

  /** Two live blocks never overlap, headers included. */
  lemma {:induction false} LiveBlocksDisjoint(h: Heap, a: Block, b: Block)
    requires HInv(h) && Live(h, a) && Live(h, b) && a != b
    ensures Address(h, a) + Size(h, a) <= Address(h, b) - 24 || Address(h, b) + Size(h, b) <= Address(h, a) - 24
  {
    LiveBlockFits(h, a);
    LiveBlockFits(h, b);
    hide HInv, Partition, Size, Address;
    match (a, b)
    case (Object(f, k), Object(g, m)) =>
      if f == g {
        SameSlabDisjoint(h, f, k, m);
      } else {
        FramesApart(h.hhdm, f, g);
      }
    case (Pages(x), Pages(y)) =>
      ChunksApart(h, x, y);
    case (_, _) =>
  }

  lemma {:induction false} FramesApart(hhdm: nat, f: nat, g: nat)
    requires f != g
    ensures FrameAddr(hhdm, f) + PAGE_SIZE <= FrameAddr(hhdm, g) || FrameAddr(hhdm, g) + PAGE_SIZE <= FrameAddr(hhdm, f)
  {
  }

  lemma {:induction false} SameSlabDisjoint(h: Heap, f: nat, k: nat, m: nat)
    requires HInv(h) && Live(h, Object(f, k)) && Live(h, Object(f, m)) && k != m
    ensures
      var a, b := Object(f, k), Object(f, m);
      Address(h, a) + Size(h, a) <= Address(h, b) - 24 || Address(h, b) + Size(h, b) <= Address(h, a) - 24
  {
    SlabFrame(h, f);
    hide HInv;
    ObjectLayout(h.slabs[f].cls, k, m);
    ObjectLayout(h.slabs[f].cls, m, k);
  }

  lemma {:induction false} ChunksApart(h: Heap, x: nat, y: nat)
    requires HInv(h) && x in h.chunks && y in h.chunks && x != y
    ensures x + PAGE_SIZE * h.chunks[x].pages <= y || y + PAGE_SIZE * h.chunks[y].pages <= x
  {
  }

  /** The leaf word of every address in a mapped page of a live large block is the page's frame, present and writable
      and nothing else; a last page that was not mapped has the leaf word 0. */
  lemma {:induction false} LargeBlockLeaves(h: Heap, base: nat, i: nat, v: nat)
    requires HInv(h) && base in h.chunks && i < h.chunks[base].pages
    requires base + 4096 * i <= v < base + 4096 * (i + 1)
    ensures
      var frames := h.chunks[base].frames;
      LeafWord(h.vm, h.root, v) == if i < |frames| then frames[i] * 4096 + 3 else 0
  {
    ChunkFacts(h, base);
    if i < |h.chunks[base].frames| { assert PageOk(h, base, i); }
    hide HInv, LeafWord;
    PageRange(base, i, v);
    RegionPages(v, base + 4096 * i);
    SamePageSameLookup(h.vm, h.root, base + 4096 * i, v);
  }

  /** A freed slab object cannot be mistaken for a live one: the 32-bit tag `kfree` reads there is neither magic. */
  lemma {:induction false} FreedObjectRejected(h: Heap, f: nat, k: nat)
    requires HInv(h) && f in h.slabs && k in h.slabs[f].free
    ensures
      var tag := Entry(h.vm.mem, f, ObjWord(h.slabs[f].cls, k)) % HALF;
      tag != MAGIC_SLAB && tag != MAGIC_PAGE
  {
    FrameAligned(h, f);
    hide HInv;
    SlabFrame(h, f);
    FreeTag(h.vm.mem[f], FrameAddr(h.hhdm, f), h.slabs[f], k);
    ObjectLayout(h.slabs[f].cls, k, k);
  }

  lemma {:induction false} FrameAligned(h: Heap, f: nat)
    requires Config(h)
    ensures FrameAddr(h.hhdm, f) % 8 == 0
  {
  }

  /* ---------- steps ---------- */

  datatype Op =
    | Malloc(size: nat)
    | Free(block: Block)
    | Store(block: Block, word: nat, value: nat)

  /** `kmalloc`. */
  ghost function Kmalloc(h: Heap, size: nat): (Heap, Outcome)
    requires HInv(h) && (size > 1024 ==> Roomy(h, PagesFor(size)))
  {
    if size == 0 then (h, Null) else if size > 1024 then KmallocLarge(h, size) else KmallocSlab(h, size)
  }

  /** `kfree` of a live pointer. */
  ghost function Kfree(h: Heap, b: Block): Heap
    requires HInv(h) && Live(h, b)
  {
    match b
    case Object(f, k) => KfreeSlab(h, f, k)
    case Pages(base) => KfreeLarge(h, base)
  }

  ghost predicate Allowed(h: Heap, op: Op) {
    match op
    case Malloc(size) => size > 1024 ==> h.vaddr + PAGE_SIZE * PagesFor(size) <= TOP
    case Free(b) => Live(h, b)
    case Store(b, w, _) => InBounds(h, b, w)
  }

  ghost function StoreWord(h: Heap, b: Block, w: nat, v: nat): Heap
    requires Live(h, b)
  {
    h.(vm := PutWord(h.vm, Location(h, b, w).0, Location(h, b, w).1, v))
  }

  ghost function Apply(h: Heap, op: Op): Heap
    requires HInv(h) && Allowed(h, op)
  {
    match op
    case Malloc(size) => Kmalloc(h, size).0
    case Free(b) => Kfree(h, b)
    case Store(b, w, v) => StoreWord(h, b, w, v)
  }

  lemma {:induction false} StoreKeeps(h: Heap, b: Block, w: nat, v: nat)
    requires HInv(h) && InBounds(h, b, w)
    ensures HInv(StoreWord(h, b, w, v))
  {
    hide HInv, PageOk, OwnedFrame;
    match b
    case Object(f, k) =>
      StoreObjectKeeps(h, f, k, w, v);
    case Pages(base) =>
      ChunkFacts(h, base);
      PageWord(h, base, w);
      StorePageKeeps(h, base, (w + HEADER_WORDS) / ROW, (w + HEADER_WORDS) % ROW, v);
  }

  lemma {:induction false} StoreObjectKeeps(h: Heap, f: nat, k: nat, w: nat, v: nat)
    requires HInv(h) && InBounds(h, Object(f, k), w)
    ensures HInv(StoreWord(h, Object(f, k), w, v))
  {
    hide HInv, Represents;
    SlabFrame(h, f);
    var s, i := h.slabs[f], ObjWord(h.slabs[f].cls, k) + HEADER_WORDS + w;
    assert PayloadWord(s, k, i);
    StoreSlabKeeps(h, f, k, i, v);
    assert h.slabs[f := s] == h.slabs;
    assert StoreWord(h, Object(f, k), w, v) == StoreSlab(h, f, k, i, v);
  }

  lemma {:induction false} PageWord(h: Heap, base: nat, w: nat)
    requires base in h.chunks && InBounds(h, Pages(base), w)
    ensures (w + HEADER_WORDS) / ROW < |h.chunks[base].frames|
    ensures (w + HEADER_WORDS) / ROW == 0 ==> (w + HEADER_WORDS) % ROW >= HEADER_WORDS
  {
  }

  lemma {:induction false} StorePageKeeps(h: Heap, base: nat, i: nat, k: nat, v: nat)
    requires LiveChunk(h, base) && i < |h.chunks[base].frames| && k < ROW
    requires i == 0 ==> k >= HEADER_WORDS
    ensures HInv(h.(vm := PutWord(h.vm, h.chunks[base].frames[i], k, v)))
  {
    ChunkFacts(h, base);
    var f := h.chunks[base].frames[i];
    assert PageOk(h, base, i) && OwnedFrame(h, f);
    var row := h.vm.mem[f][k := v];
    forall b | b in h.chunks && h.chunks[b].frames != [] && h.chunks[b].frames[0] == f
      ensures row[0] % HALF == MAGIC_PAGE && row[1] == h.chunks[b].pages && row[2] == h.chunks[b].size
    {
      assert ChunkOk(h, b);
      assert PageOk(h, b, 0);
      assert (b, 0) == h.data[f] == (base, i);
    }
    hide HInv;
    PutDataKeeps(h, f, row);
  }

  lemma {:induction false} ApplyKeeps(h: Heap, op: Op)
    requires HInv(h) && Allowed(h, op)
    ensures HInv(Apply(h, op))
  {
    hide HInv;
    match op
    case Malloc(size) =>
      if size > 1024 {
        KmallocLargeKeeps(h, size);
      } else if size > 0 {
        KmallocSlabKeeps(h, size);
      }
    case Free(b) =>
      match b {
        case Object(f, k) => KfreeSlabKeeps(h, f, k);
        case Pages(base) => KfreeLargeKeeps(h, base);
      }
    case Store(b, w, v) => StoreKeeps(h, b, w, v);
  }

  ghost predicate IsRun(h: Heap, ops: seq<Op>)
    requires HInv(h)
    decreases ops
  {
    ops == [] || (Allowed(h, ops[0]) && (ApplyKeeps(h, ops[0]); IsRun(Apply(h, ops[0]), ops[1..])))
  }

  /** Every run of the heap keeps the whole invariant: free lists acyclic and duplicate-free, each slab partitioned
      into free and live objects, all live blocks disjoint and backed, no frame in two roles. */
  ghost function RunAll(h: Heap, ops: seq<Op>): (h1: Heap)
    requires HInv(h) && IsRun(h, ops)
    ensures HInv(h1)
    decreases ops
  {
    if ops == [] then h
    else
      ApplyKeeps(h, ops[0]);
      RunAll(Apply(h, ops[0]), ops[1..])
  }

  /* ---------- blocks over whole runs ---------- */

  /** `h1` still holds block `b` of `h`: same size, same address, same frames, same contents. */
  ghost predicate Kept(h: Heap, h1: Heap, b: Block) {
    && Live(h, b) && Live(h1, b) && Size(h1, b) == Size(h, b) && Address(h1, b) == Address(h, b)
    && (b.Pages? ==> h1.chunks[b.base] == h.chunks[b.base])
    && forall w: nat :: InBounds(h, b, w) ==> Load(h1, b, w) == Load(h, b, w)
  }

  lemma {:induction false} KeptTransitive(h: Heap, h1: Heap, h2: Heap, b: Block)
    requires Kept(h, h1, b) && Kept(h1, h2, b)
    ensures Kept(h, h2, b)
  {
    hide Load;
    forall w: nat | InBounds(h, b, w)
      ensures Load(h2, b, w) == Load(h, b, w)
    {
      assert InBounds(h1, b, w);
    }
  }

  /** The frame that holds word `w` of a live block is a slab or data frame. */
  lemma {:induction false} LocationFrame(h: Heap, b: Block, w: nat)
    requires HInv(h) && InBounds(h, b, w)
    ensures
      var (f, i) := Location(h, b, w);
      && OwnedFrame(h, f) && i < ROW
      && (b.Object? ==> f in h.slabs && f == b.frame && f !in h.data)
      && (b.Pages? ==> f in h.data && f !in h.slabs)
  {
    match b
    case Object(f, k) =>
      SlabFrame(h, f);
      ObjectLayout(h.slabs[f].cls, k, k);
    case Pages(base) =>
      ChunkFacts(h, base);
      hide HInv;
      PageWord(h, base, w);
      assert PageOk(h, base, (w + HEADER_WORDS) / ROW);
  }

  /** The words of the page that hold object `k`'s contents. */
  ghost predicate ObjectWord(h: Heap, f: nat, k: nat, i: nat)
    requires f in h.slabs && h.slabs[f].cls < CLASSES
  {
    ObjWord(h.slabs[f].cls, k) + HEADER_WORDS <= i < ObjWord(h.slabs[f].cls, k) + ObjWords(h.slabs[f].cls)
  }

  lemma {:induction false} ObjectKept(h: Heap, h1: Heap, f: nat, k: nat)
    requires HInv(h) && Live(h, Object(f, k)) && h1.hhdm == h.hhdm
    requires f in h1.slabs && h1.slabs[f].cls == h.slabs[f].cls && k in h1.slabs[f].live
    requires h1.slabs[f].live[k] == h.slabs[f].live[k]
    requires forall i: nat :: ObjectWord(h, f, k, i) ==> Entry(h1.vm.mem, f, i) == Entry(h.vm.mem, f, i)
    ensures Kept(h, h1, Object(f, k))
  {
    SlabFrame(h, f);
    hide HInv, Represents;
    forall w: nat | InBounds(h, Object(f, k), w)
      ensures Load(h1, Object(f, k), w) == Load(h, Object(f, k), w)
    {
      assert ObjectWord(h, f, k, ObjWord(h.slabs[f].cls, k) + HEADER_WORDS + w);
    }
  }

  lemma {:induction false} PagesKept(h: Heap, h1: Heap, base: nat)
    requires LiveChunk(h, base) && base in h1.chunks && h1.chunks[base] == h.chunks[base]
    requires forall f, i: nat :: f in h.data && f in h.chunks[base].frames ==>
      Entry(h1.vm.mem, f, i) == Entry(h.vm.mem, f, i)
    ensures Kept(h, h1, Pages(base))
  {
    hide HInv, Entry;
    forall w: nat | InBounds(h, Pages(base), w)
      ensures Load(h1, Pages(base), w) == Load(h, Pages(base), w)
    {
      LocationFrame(h, Pages(base), w);
      ChunkFacts(h, base);
      PageWord(h, base, w);
    }
  }

  /** An operation that changes neither the block's description nor the words of its frames keeps the block. */
  lemma {:induction false} UntouchedKept(h: Heap, h1: Heap, b: Block)
    requires HInv(h) && Live(h, b) && h1.hhdm == h.hhdm
    requires b.Object? ==> b.frame in h1.slabs && h1.slabs[b.frame] == h.slabs[b.frame]
    requires b.Pages? ==> b.base in h1.chunks && h1.chunks[b.base] == h.chunks[b.base]
    requires forall f, i: nat :: f in h.slabs && i >= HEADER_WORDS ==> Entry(h1.vm.mem, f, i) == Entry(h.vm.mem, f, i)
    requires forall f, i: nat :: f in h.data ==> Entry(h1.vm.mem, f, i) == Entry(h.vm.mem, f, i)
    ensures Kept(h, h1, b)
  {
    hide HInv, Entry;
    match b
    case Object(f, k) => ObjectKept(h, h1, f, k);
    case Pages(base) => PagesKept(h, h1, base);
  }

  /** Replacing one slab page keeps every block but the object the change is about. */
  lemma {:induction false} SlabUpdateKept(h: Heap, g: nat, m: nat, row: seq<nat>, s: Slab, b: Block)
    requires HInv(h) && Live(h, b) && b != Object(g, m)
    requires g in h.slabs && s.cls == h.slabs[g].cls < CLASSES && m < Count(s.cls) && |row| == ROW
    requires forall k :: k in h.slabs[g].live && k != m ==> k in s.live && s.live[k] == h.slabs[g].live[k]
    requires forall i: nat ::
               HEADER_WORDS <= i < ROW && !(ObjWord(s.cls, m) <= i < ObjWord(s.cls, m) + ObjWords(s.cls)) ==>
               row[i] == Entry(h.vm.mem, g, i)
    ensures Kept(h, UpdateSlab(h, g, row, s), b)
  {
    hide HInv, Represents, ObjWord, ObjWords, Count, Kept;
    var h1 := UpdateSlab(h, g, row, s);
    SlabFrame(h, g);
    if b.Object? && b.frame == g {
      SlabObjectApart(h, g, m, b.index);
      ObjectKept(h, h1, g, b.index);
    } else if b.Object? {
      ObjectKept(h, h1, b.frame, b.index);
    } else {
      PagesKept(h, h1, b.base);
    }
  }

  lemma {:induction false} SlabObjectApart(h: Heap, g: nat, m: nat, k: nat)
    requires HInv(h) && g in h.slabs && h.slabs[g].cls < CLASSES && m < Count(h.slabs[g].cls) && k in h.slabs[g].live
    requires k != m
    ensures
      var cls := h.slabs[g].cls;
      && HEADER_WORDS <= ObjWord(cls, k) && ObjWord(cls, k) + ObjWords(cls) <= ROW
      && (ObjWord(cls, k) + ObjWords(cls) <= ObjWord(cls, m) || ObjWord(cls, m) + ObjWords(cls) <= ObjWord(cls, k))
  {
    SlabFrame(h, g);
    ObjectLayout(h.slabs[g].cls, k, m);
    ObjectLayout(h.slabs[g].cls, m, k);
  }

  lemma {:induction false} FirstFree(h: Heap, g: nat)
    requires HasRoom(h, g)
    ensures
      var s := h.slabs[g];
      s.cls < CLASSES && s.free[0] < Count(s.cls) && s.free[0] !in s.live && g in h.vm.mem && |h.vm.mem[g]| == ROW
  {
    SlabFrame(h, g);
  }

  lemma {:induction false} LiveIndex(h: Heap, g: nat, m: nat)
    requires LiveObject(h, g, m)
    ensures h.slabs[g].cls < CLASSES && m < Count(h.slabs[g].cls) && g in h.vm.mem && |h.vm.mem[g]| == ROW
  {
    SlabFrame(h, g);
  }

  lemma {:induction false} TakeObjectKept(h: Heap, g: nat, size: nat, b: Block)
    requires HasRoom(h, g) && Live(h, b)
    ensures Kept(h, TakeObject(h, g, size), b)
  {
    hide HInv, Represents, ObjWord, ObjWords, Count, Kept;
    FirstFree(h, g);
    var s, row := h.slabs[g], h.vm.mem[g];
    var m := s.free[0];
    ObjectLayout(s.cls, m, m);
    SlabUpdateKept(h, g, m, PopRow(row, s.cls, m, size), Pop(s, size), b);
  }

  lemma {:induction false} KfreeSlabKept(h: Heap, g: nat, m: nat, b: Block)
    requires LiveObject(h, g, m) && Live(h, b) && b != Object(g, m)
    ensures Kept(h, KfreeSlab(h, g, m), b)
  {
    hide HInv, Represents, ObjWord, ObjWords, Count, Kept;
    LiveIndex(h, g, m);
    var s, row := h.slabs[g], h.vm.mem[g];
    ObjectLayout(s.cls, m, m);
    SlabUpdateKept(h, g, m, PushRow(row, FrameAddr(h.hhdm, g), s.cls, m), Push(s, m), b);
  }

  lemma {:induction false} GrowKept(h: Heap, c: nat, b: Block)
    requires HInv(h) && c < CLASSES && h.vm.free != {} && Live(h, b)
    ensures CanGrow(h, c) && Kept(h, Grow(h, c), b)
  {
    hide HInv, Grow, FreshRow, Kept;
    GrowReady(h, c);
    GrowMemory(h, c);
    UntouchedKept(h, Grow(h, c), b);
  }

  lemma {:induction false} KmallocSlabKept(h: Heap, size: nat, b: Block)
    requires HInv(h) && Live(h, b)
    ensures Kept(h, KmallocSlab(h, size).0, b)
  {
    hide HInv, Grow, TakeObject, Kept;
    SelfKept(h, b);
    var c := ClassFor(size);
    if c < CLASSES {
      var chain := ChainOf(h, c);
      var j := FirstRoom(h.slabs, chain);
      RoomInChain(h, c);
      if j < |chain| {
        TakeObjectKept(h, chain[j], size, b);
      } else if chain != [] && h.vm.free != {} {
        GrownHasRoom(h, c);
        GrowKept(h, c, b);
        KeptIsLive(h, Grow(h, c), b);
        TakeObjectKept(Grow(h, c), Lowest(h.vm.free), size, b);
        KeptTransitive(h, Grow(h, c), TakeObject(Grow(h, c), Lowest(h.vm.free), size), b);
      }
    }
  }

  lemma {:induction false} SelfKept(h: Heap, b: Block)
    requires Live(h, b)
    ensures Kept(h, h, b)
  {
  }

  lemma {:induction false} KeptIsLive(h: Heap, h1: Heap, b: Block)
    requires Kept(h, h1, b)
    ensures Live(h1, b)
  {
  }

  ghost function ChainOf(h: Heap, c: nat): seq<nat>
    requires HInv(h) && c < CLASSES
  {
    h.chains[c]
  }

  lemma {:induction false} KmallocLargeKept(h: Heap, size: nat, b: Block)
    requires Roomy(h, PagesFor(size)) && size > 1024 && Live(h, b)
    ensures Kept(h, KmallocLarge(h, size).0, b)
  {
    hide HInv, KmallocLarge, AllMapped, LeafWord, MapPages, Kept, PagesFor;
    KmallocLargeCases(h, size);
    NewFramesFresh(h, PagesFor(size));
    KmallocLargeMemory(h, size);
    UntouchedKept(h, KmallocLarge(h, size).0, b);
  }

  lemma {:induction false} AfterPagesMemory(h: Heap, n: nat)
    requires Roomy(h, n)
    ensures
      var h1 := AfterPages(h, n);
      forall f :: f in h.slabs || f in h.data ==>
        f in h.vm.mem && f in h1.vm.mem && h1.vm.mem[f] == h.vm.mem[f] && f !in PagesTaken(h, n)
  {
    var h1, frames := AfterPages(h, n), PagesTaken(h, n);
    AfterPagesFacts(h, n);
    hide AfterPages, PagesTaken, Inv, SlabsOk, ChunksOk, RegionOk;
    forall f | f in h.slabs || f in h.data
      ensures f in h.vm.mem && f in h1.vm.mem && h1.vm.mem[f] == h.vm.mem[f] && f !in frames
    {
      assert OwnedFrame(h, f);
    }
  }

  lemma {:induction false} KmallocLargeMemory(h: Heap, size: nat)
    requires Roomy(h, PagesFor(size)) && size > 1024
    ensures forall f :: f in h.slabs || f in h.data ==>
              f in h.vm.mem && f in KmallocLarge(h, size).0.vm.mem && KmallocLarge(h, size).0.vm.mem[f] == h.vm.mem[f]
  {
    hide HInv, AllMapped, LeafWord, HeaderRow, AfterPages, MapPages, PagesFor;
    AfterPagesMemory(h, PagesFor(size));
    FirstPage(h, size);
  }

  lemma {:induction false} FramesOwned(h: Heap)
    requires HInv(h)
    ensures forall f :: f in h.slabs || f in h.data ==> f in h.vm.mem && f !in h.vm.place
  {
    forall f | f in h.slabs || f in h.data
      ensures OwnedFrame(h, f)
    {
    }
  }

  lemma {:induction false} KfreeLargeKept(h: Heap, base: nat, b: Block)
    requires LiveChunk(h, base) && Live(h, b) && b != Pages(base)
    ensures Kept(h, KfreeLarge(h, base), b)
  {
    hide HInv, Inv, LeafWord, KfreeLarge, Kept, RegionOk, Elements;
    var h1 := KfreeLarge(h, base);
    KfreeLargeEffect(h, base);
    KfreeLargeParts(h, base);
    FramesOwned(h);
    assert forall f :: f in h.slabs || f in h.data ==> f in h1.vm.mem && h1.vm.mem[f] == h.vm.mem[f];
    hide GivesBack;
    UntouchedKept(h, h1, b);
  }

  lemma {:induction false} ObjectBounds(h: Heap, f: nat, k: nat, w: nat)
    requires HInv(h) && InBounds(h, Object(f, k), w)
    ensures
      var cls := h.slabs[f].cls;
      && k < Count(cls) && f in h.vm.mem && |h.vm.mem[f]| == ROW
      && HEADER_WORDS <= ObjWord(cls, k) && ObjWord(cls, k) + HEADER_WORDS + w < ObjWord(cls, k) + ObjWords(cls) <= ROW
  {
    SlabFrame(h, f);
    ObjectLayout(h.slabs[f].cls, k, k);
  }

  lemma {:induction false} StoreObjectKept(h: Heap, g: nat, m: nat, w: nat, v: nat, b: Block)
    requires HInv(h) && InBounds(h, Object(g, m), w) && Live(h, b) && b != Object(g, m)
    ensures Kept(h, StoreWord(h, Object(g, m), w, v), b)
  {
    hide HInv, Represents, ObjWord, ObjWords, Count;
    var s, i := h.slabs[g], ObjWord(h.slabs[g].cls, m) + HEADER_WORDS + w;
    ObjectBounds(h, g, m, w);
    SlabUpdateKept(h, g, m, h.vm.mem[g][i := v], s, b);
    assert h.slabs[g := s] == h.slabs;
    assert StoreWord(h, Object(g, m), w, v) == UpdateSlab(h, g, h.vm.mem[g][i := v], s);
  }

  lemma {:induction false} StorePagesKept(h: Heap, base: nat, w: nat, v: nat, b: Block)
    requires HInv(h) && InBounds(h, Pages(base), w) && Live(h, b) && b != Pages(base)
    ensures Kept(h, StoreWord(h, Pages(base), w, v), b)
  {
    hide HInv;
    var h1 := StoreWord(h, Pages(base), w, v);
    LocationFrame(h, Pages(base), w);
    if b.Object? {
      ObjectKept(h, h1, b.frame, b.index);
    } else {
      ChunkFramesApart(h, base, b.base);
      ChunkFacts(h, base);
      PageWord(h, base, w);
      hide Location;
      PagesKept(h, h1, b.base);
    }
  }

  lemma {:induction false} ChunkFramesApart(h: Heap, a: nat, b: nat)
    requires LiveChunk(h, a) && LiveChunk(h, b) && a != b
    ensures forall i: nat, j: nat :: i < |h.chunks[a].frames| && j < |h.chunks[b].frames| ==>
      h.chunks[a].frames[i] != h.chunks[b].frames[j]
  {
    hide HInv, OwnedFrame;
    ChunkFacts(h, a);
    ChunkFacts(h, b);
    forall i: nat, j: nat | i < |h.chunks[a].frames| && j < |h.chunks[b].frames|
      ensures h.chunks[a].frames[i] != h.chunks[b].frames[j]
    {
      assert PageOk(h, a, i) && PageOk(h, b, j);
    }
  }

  /** One step keeps every live block it does not free or write: size, address, backing frames, contents. */
  lemma {:induction false} StepKeepsBlock(h: Heap, op: Op, b: Block)
    requires HInv(h) && Allowed(h, op) && Live(h, b)
    requires op != Free(b) && !(op.Store? && op.block == b)
    ensures Kept(h, Apply(h, op), b)
  {
    hide HInv, Kept;
    match op
    case Malloc(size) =>
      if size == 0 {
        SelfKept(h, b);
      } else if size > 1024 {
        KmallocLargeKept(h, size, b);
      } else {
        KmallocSlabKept(h, size, b);
      }
    case Free(a) =>
      match a {
        case Object(f, k) => KfreeSlabKept(h, f, k, b);
        case Pages(base) => KfreeLargeKept(h, base, b);
      }
    case Store(a, w, v) =>
      match a {
        case Object(f, k) => StoreObjectKept(h, f, k, w, v, b);
        case Pages(base) => StorePagesKept(h, base, w, v, b);
      }
  }

  /** The last value the run stores in word `w` of the block, or `first`. */
  function LastStored(ops: seq<Op>, b: Block, w: nat, first: nat): nat
    decreases ops
  {
    if ops == [] then first
    else
      var stores := ops[0].Store? && ops[0].block == b && ops[0].word == w;
      LastStored(ops[1..], b, w, if stores then ops[0].value else first)
  }

  lemma {:induction false} LastOfOne(op: Op, b: Block, w: nat, first: nat)
    ensures LastStored([op], b, w, first) == if op.Store? && op.block == b && op.word == w then op.value else first
  {
    assert [op][1..] == [];
  }

  lemma {:induction false} LastOfMore(ops: seq<Op>, b: Block, w: nat, first: nat)
    requires ops != []
    ensures LastStored(ops, b, w, first) == LastStored(ops[1..], b, w, LastStored([ops[0]], b, w, first))
  {
    LastOfOne(ops[0], b, w, first);
  }

  /** Different words of one block are different words of memory. */
  lemma {:induction false} LocationsApart(h: Heap, b: Block, w: nat, x: nat)
    requires HInv(h) && InBounds(h, b, w) && InBounds(h, b, x) && w != x
    ensures Location(h, b, w) != Location(h, b, x)
  {
    if b.Pages? {
      ChunkFacts(h, b.base);
      hide HInv;
      PageWord(h, b.base, w);
      PageWord(h, b.base, x);
    }
  }

  lemma {:induction false} PutWordEntry(s: State, f: nat, k: nat, v: nat, g: nat, j: nat)
    requires f in s.mem && k < |s.mem[f]|
    ensures Entry(PutWord(s, f, k, v).mem, g, j) == if g == f && j == k then v else Entry(s.mem, g, j)
  {
  }

  lemma {:induction false} SameBlocks(h: Heap, vm: State, b: Block, x: nat)
    requires Live(h, b)
    ensures
      var h1 := h.(vm := vm);
      && Live(h1, b) && Size(h1, b) == Size(h, b) && Address(h1, b) == Address(h, b)
      && Location(h1, b, x) == Location(h, b, x)
  {
  }

  /** A store in a block changes that word of it and nothing else of it. */
  lemma {:induction false} StoreOwn(h: Heap, b: Block, w: nat, v: nat)
    requires HInv(h) && InBounds(h, b, w)
    ensures
      var h1 := StoreWord(h, b, w, v);
      && Live(h1, b) && Size(h1, b) == Size(h, b) && Address(h1, b) == Address(h, b) && h1.chunks == h.chunks
      && forall x: nat :: InBounds(h, b, x) ==> Load(h1, b, x) == if x == w then v else Load(h, b, x)
  {
    hide HInv, Live, Size, Address, Location, PutWord, Entry;
    LocationFrame(h, b, w);
    var (f, k) := Location(h, b, w);
    var h1 := StoreWord(h, b, w, v);
    SameBlocks(h, h1.vm, b, w);
    forall x: nat | InBounds(h, b, x)
      ensures Load(h1, b, x) == if x == w then v else Load(h, b, x)
    {
      var (g, j) := Location(h, b, x);
      SameBlocks(h, h1.vm, b, x);
      PutWordEntry(h.vm, f, k, v, g, j);
      if x != w { LocationsApart(h, b, w, x); }
    }
  }

  /** `h1` still holds block `b` at the same address, and its words are what `ops` last stored there. */
  ghost predicate ActsAsMemory(h: Heap, h1: Heap, b: Block, ops: seq<Op>) {
    && Live(h, b) && Live(h1, b) && Size(h1, b) == Size(h, b) && Address(h1, b) == Address(h, b)
    && (b.Pages? ==> h1.chunks[b.base] == h.chunks[b.base])
    && forall w: nat :: InBounds(h, b, w) ==> Load(h1, b, w) == LastStored(ops, b, w, Load(h, b, w))
  }

  lemma {:induction false} StepActs(h: Heap, op: Op, b: Block)
    requires HInv(h) && Allowed(h, op) && Live(h, b) && op != Free(b)
    ensures ActsAsMemory(h, Apply(h, op), b, [op])
  {
    hide HInv, Load, LastStored;
    forall w: nat, first: nat
      ensures LastStored([op], b, w, first) == if op.Store? && op.block == b && op.word == w then op.value else first
    {
      LastOfOne(op, b, w, first);
    }
    if op.Store? && op.block == b {
      StoreOwn(h, b, op.word, op.value);
    } else {
      StepKeepsBlock(h, op, b);
    }
  }

  /** Over every run, a block that is not freed is private memory: it keeps its address and size, and every word of it
      holds what was last stored there through it, whatever is allocated, freed and written around it. */
  lemma {:induction false} BlockIsPrivateMemory(h: Heap, ops: seq<Op>, b: Block)
    requires HInv(h) && IsRun(h, ops) && Live(h, b)
    requires forall i :: 0 <= i < |ops| ==> ops[i] != Free(b)
    ensures ActsAsMemory(h, RunAll(h, ops), b, ops)
    decreases ops
  {
    hide HInv, Apply, Load, Size, Address, LastStored;
    if ops == [] {
      StaysSame(h, b);
    } else {
      var h1 := Apply(h, ops[0]);
      ApplyKeeps(h, ops[0]);
      StepActs(h, ops[0], b);
      assert forall i :: 0 <= i < |ops[1..]| ==> ops[1..][i] == ops[i + 1];
      BlockIsPrivateMemory(h1, ops[1..], b);
      forall w: nat | InBounds(h, b, w)
        ensures Load(RunAll(h, ops), b, w) == LastStored(ops, b, w, Load(h, b, w))
      {
        assert InBounds(h1, b, w);
        LastOfMore(ops, b, w, Load(h, b, w));
      }
    }
  }

  lemma {:induction false} StaysSame(h: Heap, b: Block)
    requires Live(h, b)
    ensures ActsAsMemory(h, h, b, [])
  {
  }

  /** Conservation over runs: a large block freed after any run that does not free it gives the allocator exactly
      the frames behind its mapped pages when it was allocated: one for every page, but for a last page that was
      never mapped. */
  lemma {:induction false} LargeBlockGivesBackItsFrames(h: Heap, ops: seq<Op>, base: nat)
    requires LiveChunk(h, base) && IsRun(h, ops)
    requires forall i :: 0 <= i < |ops| ==> ops[i] != Free(Pages(base))
    ensures
      var h1 := RunAll(h, ops);
      && Live(h1, Pages(base)) && h1.chunks[base] == h.chunks[base]
      && (forall f :: f in h.chunks[base].frames ==> f !in h1.vm.free)
      && Kfree(h1, Pages(base)).vm.free == h1.vm.free + Elements(h.chunks[base].frames)
      && var c := h.chunks[base];
      var last := base + PAGE_SIZE * c.pages - PAGE_SIZE;
      && last >= base
      && |Elements(c.frames)| == PagesFor(c.size) - (if LeafWord(h.vm, h.root, last) == 0 then 1 else 0)
  {
    hide HInv, LeafWord, Inv, RegionOk, Region, KfreeLarge, Elements, Load;
    BlockIsPrivateMemory(h, ops, Pages(base));
    var h1 := RunAll(h, ops);
    KfreeLargeEffect(h1, base);
    ChunkBacked(h, base);
    DistinctSize(h.chunks[base].frames);
  }

  lemma {:induction false} DistinctSize(s: seq<nat>)
    requires Distinct(s)
    ensures |Elements(s)| == |s|
  {
    if s == [] {
      assert Elements(s) == {};
    } else {
      var n := |s| - 1;
      DistinctSize(s[..n]);
      assert s == s[..n] + [s[n]];
      assert Elements(s) == Elements(s[..n]) + {s[n]};
      assert s[n] !in s[..n];
    }
  }
}
