/** The slab half of `kmalloc` and `kfree` (kernel/src/mm/heap.c) on the heap state. */
module SlabHeap {
  import opened Words
  import opened FrameAllocator
  import opened PageTables
  import opened AddressSpaces
  import opened Slabs
  import opened HeapState

  /** What `kmalloc` gives: NULL, an address, or a page fault while it writes the block's header. */
  datatype Outcome = Null | Pointer(addr: nat) | Fault

  /** The smallest class that holds `size` bytes and the 24-byte header; CLASSES when there is none. */
  function ClassFor(size: nat): (c: nat)
    ensures c <= CLASSES
    ensures c < CLASSES ==> size + 24 <= ObjSize(c)
    ensures forall d: nat :: d < c ==> size + 24 > ObjSize(d)
  {
    if size + 24 <= 32 then 0 else if size + 24 <= 64 then 1 else if size + 24 <= 128 then 2
    else if size + 24 <= 256 then 3 else if size + 24 <= 512 then 4 else if size + 24 <= 1024 then 5 else 6
  }

  /** The first slab of the chain with a free object; the chain's length when all are full. */
  function FirstRoom(slabs: map<nat, Slab>, chain: seq<nat>): (j: nat)
    ensures j <= |chain|
    ensures j < |chain| ==> chain[j] in slabs && slabs[chain[j]].free != []
    ensures forall i :: 0 <= i < j ==> chain[i] !in slabs || slabs[chain[i]].free == []
  {
    if chain == [] || (chain[0] in slabs && slabs[chain[0]].free != []) then 0
    else 1 + FirstRoom(slabs, chain[1..])
  }

  /* ---------- taking an object ---------- */

  ghost predicate HasRoom(h: Heap, f: nat) {
    HInv(h) && f in h.slabs && h.slabs[f].free != []
  }

  ghost function TakeObject(h: Heap, f: nat, size: nat): Heap
    requires HasRoom(h, f)
  {
    SlabFrame(h, f);
    var s := h.slabs[f];
    UpdateSlab(h, f, PopRow(h.vm.mem[f], s.cls, s.free[0], size), Pop(s, size))
  }

  /** The address `kmalloc` returns for object `k` of the slab in frame `f`. */
  function ObjPointer(h: Heap, f: nat, k: nat): nat
    requires f in h.slabs && h.slabs[f].cls < CLASSES
  {
    ObjAddr(FrameAddr(h.hhdm, f), h.slabs[f].cls, k) + 24
  }

  lemma {:induction false} TakeObjectKeeps(h: Heap, f: nat, size: nat)
    requires HasRoom(h, f) && size >= 1 && h.slabs[f].cls < CLASSES && size + 24 <= ObjSize(h.slabs[f].cls)
    ensures HInv(TakeObject(h, f, size))
  {
    SlabFrame(h, f);
    var s, row := h.slabs[f], h.vm.mem[f];
    hide HInv;
    PopRepresents(row, FrameAddr(h.hhdm, f), s, size);
    ObjectLayout(s.cls, s.free[0], s.free[0]);
    hide Represents;
    UpdateSlabKeeps(h, f, PopRow(row, s.cls, s.free[0], size), Pop(s, size));
  }

  /* ---------- kmalloc for sizes up to 1024 ---------- */

  lemma {:induction false} RoomInChain(h: Heap, c: nat)
    requires HInv(h) && c < CLASSES
    ensures
      var chain := h.chains[c];
      var j := FirstRoom(h.slabs, chain);
      && (forall i :: 0 <= i < |chain| ==> chain[i] in h.slabs && h.slabs[chain[i]].cls == c)
      && (j < |chain| ==> HasRoom(h, chain[j]))
  {
    var chain := h.chains[c];
    assert ChainOk(h, c);
    forall i: nat | i < |chain|
      ensures chain[i] in h.slabs && h.slabs[chain[i]].cls == c
    {
      assert ChainLink(h, c, i);
    }
  }

  lemma {:induction false} GrownHasRoom(h: Heap, c: nat)
    requires HInv(h) && c < CLASSES && h.vm.free != {}
    ensures CanGrow(h, c) && HasRoom(Grow(h, c), Lowest(h.vm.free))
    ensures Grow(h, c).slabs[Lowest(h.vm.free)] == FreshSlab(c)
    ensures FreshSlab(c).free[0] == 0
  {
    GrowKeeps(h, c);
    GrowMemory(h, c);
    CountValues();
  }

  /** The slab path of `kmalloc`: the first slab with room; else one new slab at the end of the chain; else NULL. */
  ghost function KmallocSlab(h: Heap, size: nat): (r: (Heap, Outcome))
    requires HInv(h)
  {
    var c := ClassFor(size);
    if c == CLASSES then (h, Null)
    else
      var chain := h.chains[c];
      var j := FirstRoom(h.slabs, chain);
      RoomInChain(h, c);
      if j < |chain| then
        (TakeObject(h, chain[j], size), Pointer(ObjPointer(h, chain[j], h.slabs[chain[j]].free[0])))
      else if chain == [] || h.vm.free == {} then (h, Null)
      else
        var f := Lowest(h.vm.free);
        GrownHasRoom(h, c);
        (TakeObject(Grow(h, c), f, size), Pointer(ObjPointer(Grow(h, c), f, 0)))
  }

  lemma {:induction false} KmallocSlabKeeps(h: Heap, size: nat)
    requires HInv(h) && size >= 1
    ensures HInv(KmallocSlab(h, size).0)
  {
    var c := ClassFor(size);
    if c < CLASSES {
      var chain := h.chains[c];
      var j := FirstRoom(h.slabs, chain);
      RoomInChain(h, c);
      if j < |chain| {
        TakeObjectKeeps(h, chain[j], size);
      } else if chain != [] && h.vm.free != {} {
        GrownHasRoom(h, c);
        TakeObjectKeeps(Grow(h, c), Lowest(h.vm.free), size);
      }
    }
  }

  /** NULL, for a size with a class and an initialised cache, means exactly that every slab of the chain is full
      and the frame allocator is empty, and then nothing changes. A new slab is added at most once and only when
      all are full. Sizes 1001..1024 have no class and always give NULL. */
  lemma {:induction false} KmallocSlabOutcome(h: Heap, size: nat)
    requires HInv(h) && 1 <= size <= 1024
    ensures ClassFor(size) == CLASSES <==> size > 1000
    ensures
      var (h1, r) := KmallocSlab(h, size);
      var c := ClassFor(size);
      && (r == Null ==> h1 == h)
      && (size > 1000 ==> r == Null)
      && (size <= 1000 && h.chains[c] != [] ==>
            (r == Null <==> h.vm.free == {} && forall i :: 0 <= i < |h.chains[c]| ==>
                              h.chains[c][i] in h.slabs && h.slabs[h.chains[c][i]].free == []))
      && (size <= 1000 ==> h1.chains == h.chains || (h.vm.free != {} && FirstRoom(h.slabs, h.chains[c]) == |h.chains[c]|
                                                    && h1.chains == h.chains[c := h.chains[c] + [Lowest(h.vm.free)]]))
  {
    var c := ClassFor(size);
    if c < CLASSES {
      RoomInChain(h, c);
      if FirstRoom(h.slabs, h.chains[c]) == |h.chains[c]| && h.chains[c] != [] && h.vm.free != {} {
        GrownHasRoom(h, c);
        GrowMemory(h, c);
      }
    }
  }

  /* ---------- kfree of a slab object ---------- */

  ghost predicate LiveObject(h: Heap, f: nat, k: nat) {
    HInv(h) && f in h.slabs && k in h.slabs[f].live
  }

  ghost function KfreeSlab(h: Heap, f: nat, k: nat): Heap
    requires LiveObject(h, f, k)
  {
    SlabFrame(h, f);
    var s := h.slabs[f];
    UpdateSlab(h, f, PushRow(h.vm.mem[f], FrameAddr(h.hhdm, f), s.cls, k), Push(s, k))
  }

  lemma {:induction false} KfreeSlabKeeps(h: Heap, f: nat, k: nat)
    requires LiveObject(h, f, k)
    ensures HInv(KfreeSlab(h, f, k))
  {
    SlabFrame(h, f);
    var s, row, base := h.slabs[f], h.vm.mem[f], FrameAddr(h.hhdm, f);
    hide HInv;
    PushRepresents(row, base, s, k);
    ObjectLayout(s.cls, k, k);
    hide Represents;
    UpdateSlabKeeps(h, f, PushRow(row, base, s.cls, k), Push(s, k));
  }

  /* ---------- stores by the owner of an object ---------- */

  ghost function StoreSlab(h: Heap, f: nat, k: nat, w: nat, v: nat): Heap
    requires LiveObject(h, f, k) && w < ROW
  {
    SlabFrame(h, f);
    UpdateSlab(h, f, h.vm.mem[f][w := v], h.slabs[f])
  }

  lemma {:induction false} StoreSlabKeeps(h: Heap, f: nat, k: nat, w: nat, v: nat)
    requires LiveObject(h, f, k) && PayloadWord(h.slabs[f], k, w)
    ensures w < ROW && HInv(StoreSlab(h, f, k, w, v))
  {
    SlabFrame(h, f);
    var s, row := h.slabs[f], h.vm.mem[f];
    hide HInv;
    StoreRepresents(row, FrameAddr(h.hhdm, f), s, k, w, v);
    assert w != 2;
    hide Represents;
    UpdateSlabKeeps(h, f, row[w := v], s);
  }
}
