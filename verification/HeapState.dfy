/** The kernel heap (kernel/src/mm/heap.c) as a value: slab chains in directly mapped frames, large blocks in
    bump-allocated virtual pages, all on one physical memory with the page tables. */
module HeapState {
  import opened Common
  import opened Words
  import opened FrameAllocator
  import opened PageTables
  import opened AddressSpaces
  import opened Slabs

  const HEAP_BASE: nat := 0xffff_ffff_9000_0000
  const TOP: nat := WORD

  /** A live large block: its pages, the size asked for, and the frames behind its mapped pages. A block whose last
      page could not be mapped has one frame less than it has pages. */
  datatype Chunk = Chunk(pages: nat, size: nat, frames: seq<nat>)

  /** `chains` and `slabs` describe the slab caches, `chunks` the live large blocks, `vaddr` is
      `kernel_heap_vaddr`. `data` says for which heap page a frame was taken, whether or not the block lives. */
  datatype Heap = Heap(
    vm: State, hhdm: nat, limit: nat, root: nat,
    chains: seq<seq<nat>>, slabs: map<nat, Slab>,
    vaddr: nat, chunks: map<nat, Chunk>, data: map<nat, (nat, nat)>)

  function FrameAddr(hhdm: nat, f: nat): nat {
    hhdm + f * PAGE_SIZE
  }

  /* ---------- the invariant ---------- */

  /** The direct map is page aligned and ends below the heap region. */
  ghost predicate Config(h: Heap) {
    && h.hhdm > 0 && h.hhdm % PAGE_SIZE == 0
    && FrameAddr(h.hhdm, h.limit) <= HEAP_BASE
    && |h.chains| == CLASSES
  }

  ghost predicate OwnedFrame(h: Heap, f: nat) {
    0 < f < h.limit && f !in h.vm.free && f !in h.vm.place && f in h.vm.mem && |h.vm.mem[f]| == ROW
  }

  /** Free frames, page tables, slabs and pages of large blocks are four disjoint sets of frames. */
  ghost predicate FramesOk(h: Heap) {
    && (forall f :: f in h.vm.free ==> f < h.limit)
    && (forall f :: f in h.slabs ==> OwnedFrame(h, f) && f !in h.data)
    && (forall f :: f in h.data ==> OwnedFrame(h, f))
  }

  ghost predicate SizesFit(s: Slab) {
    s.cls < CLASSES && forall k :: k in s.live ==> 1 <= s.live[k] && s.live[k] + 24 <= ObjSize(s.cls)
  }

  ghost predicate SlabOk(h: Heap, f: nat)
    requires f in h.slabs && f in h.vm.mem
  {
    Represents(h.vm.mem[f], FrameAddr(h.hhdm, f), h.slabs[f]) && SizesFit(h.slabs[f])
  }

  function NextSlab(hhdm: nat, chain: seq<nat>, j: nat): nat {
    if j + 1 < |chain| then FrameAddr(hhdm, chain[j + 1]) else 0
  }

  ghost predicate ChainLink(h: Heap, c: nat, j: nat)
    requires c < |h.chains| && j < |h.chains[c]|
  {
    var f := h.chains[c][j];
    f in h.slabs && h.slabs[f].cls == c && Entry(h.vm.mem, f, 2) == NextSlab(h.hhdm, h.chains[c], j)
  }

  ghost predicate ChainOk(h: Heap, c: nat)
    requires c < |h.chains|
  {
    && Distinct(h.chains[c])
    && forall j: nat :: j < |h.chains[c]| ==> ChainLink(h, c, j)
  }

  ghost predicate SlabsOk(h: Heap) {
    && |h.chains| == CLASSES
    && (forall f :: f in h.slabs ==> f in h.vm.mem && SlabOk(h, f) && f in h.chains[h.slabs[f].cls])
    && (forall c: nat :: c < CLASSES ==> ChainOk(h, c))
  }

  /** Page `i` of the block is mapped to its `i`-th frame, present and writable and nothing else. */
  ghost predicate PageOk(h: Heap, b: nat, i: nat)
    requires b in h.chunks && i < |h.chunks[b].frames|
  {
    var f := h.chunks[b].frames[i];
    f in h.data && h.data[f] == (b, i) && LeafWord(h.vm, h.root, b + PAGE_SIZE * i) == f * 4096 + 3
  }

  /** A page without a frame has the leaf word 0. */
  ghost predicate TailOk(h: Heap, b: nat)
    requires b in h.chunks && h.chunks[b].pages >= 1
  {
    var c := h.chunks[b];
    |c.frames| < c.pages ==> LeafWord(h.vm, h.root, b + PAGE_SIZE * (c.pages - 1)) == 0
  }

  ghost predicate ChunkOk(h: Heap, b: nat)
    requires b in h.chunks
  {
    var c := h.chunks[b];
    && c.size > 1024 && c.pages == (c.size + 24 + 4095) / PAGE_SIZE && 1 <= |c.frames|
    && c.pages - 1 <= |c.frames| <= c.pages
    && HEAP_BASE <= b && b % PAGE_SIZE == 0 && b + PAGE_SIZE * c.pages <= h.vaddr
    && (forall i: nat :: i < |c.frames| ==> PageOk(h, b, i))
    && TailOk(h, b)
    && Entry(h.vm.mem, c.frames[0], 0) % HALF == MAGIC_PAGE
    && Entry(h.vm.mem, c.frames[0], 1) == c.pages
    && Entry(h.vm.mem, c.frames[0], 2) == c.size
  }

  /** The heap region is walkable from the kernel's page map. */
  ghost predicate RegionOk(h: Heap) {
    && HEAP_BASE <= h.vaddr <= TOP && h.vaddr % PAGE_SIZE == 0
    && forall v: nat :: HEAP_BASE <= v < TOP ==> Walkable(h.vm, h.root, v)
  }

  ghost predicate ChunksOk(h: Heap) {
    && (forall b :: b in h.chunks ==> ChunkOk(h, b))
    && (forall a, b :: a in h.chunks && b in h.chunks && a < b ==> a + PAGE_SIZE * h.chunks[a].pages <= b)
  }

  ghost predicate HInv(h: Heap) {
    Config(h) && Inv(h.vm) && FramesOk(h) && SlabsOk(h) && RegionOk(h) && ChunksOk(h)
  }

  /* ---------- memory that is not a page table ---------- */

  function PutRow(s: State, f: nat, row: seq<nat>): State {
    s.(mem := s.mem[f := row])
  }

  /** Writing a frame that is not a table changes no walk. */
  lemma {:induction false} PutRowLookups(s: State, f: nat, row: seq<nat>, x: nat, level: nat, page: nat)
    requires Inv(s) && f !in s.place && 1 <= level && OnPath(s, x, level, page) && Clean(s.mem, x, level, page)
    ensures Clean(PutRow(s, f, row).mem, x, level, page)
    ensures Lookup(PutRow(s, f, row).mem, x, level, page) == Lookup(s.mem, x, level, page)
    decreases level
  {
    var e := Entry(s.mem, x, Index(page, level));
    assert Entry(PutRow(s, f, row).mem, x, Index(page, level)) == e;
    if level > 1 && Present(e) {
      ChildOnPath(s, x, level, page);
      PutRowLookups(s, f, row, Target(e), level - 1, page);
    }
  }

  lemma {:induction false} PutRowKeepsTree(s: State, f: nat, row: seq<nat>)
    requires Inv(s) && f !in s.place && f in s.mem && |row| == ENTRIES
    ensures Inv(PutRow(s, f, row))
  {
    var s1 := PutRow(s, f, row);
    assert forall x, k: nat :: x != f ==> Entry(s1.mem, x, k) == Entry(s.mem, x, k);
    forall x | x in s1.place
      ensures LinksOk(s1, x)
    {
      assert LinksOk(s, x);
    }
  }

  lemma {:induction false} PutRowRegion(h: Heap, f: nat, row: seq<nat>)
    requires Inv(h.vm) && RegionOk(h) && f !in h.vm.place
    ensures RegionOk(h.(vm := PutRow(h.vm, f, row)))
    ensures forall v: nat :: HEAP_BASE <= v < TOP ==>
      LeafWord(PutRow(h.vm, f, row), h.root, v) == LeafWord(h.vm, h.root, v)
  {
    forall v: nat | HEAP_BASE <= v < TOP
      ensures Walkable(PutRow(h.vm, f, row), h.root, v)
      ensures LeafWord(PutRow(h.vm, f, row), h.root, v) == LeafWord(h.vm, h.root, v)
    {
      assert Walkable(h.vm, h.root, v);
      RootOnPath(h.vm, h.root, PageNumber(v));
      PutRowLookups(h.vm, f, row, h.root, 4, PageNumber(v));
    }
  }

  /** The same translations of the part of the heap region handed out so far. */
  ghost predicate SameRegion(h: Heap, h1: Heap) {
    && h1.root == h.root
    && forall v: nat :: HEAP_BASE <= v < h.vaddr ==> LeafWord(h1.vm, h1.root, v) == LeafWord(h.vm, h.root, v)
  }

  /** Large blocks are kept by whatever keeps the region's translations and the words of the blocks' frames. */
  lemma {:induction false} ChunksFrame(h: Heap, h1: Heap)
    requires ChunksOk(h) && h.vaddr <= TOP
    requires h1.chunks == h.chunks && h.vaddr <= h1.vaddr && SameRegion(h, h1)
    requires forall f :: f in h.data ==> f in h1.data && h1.data[f] == h.data[f]
    requires forall f, k: nat :: f in h.data ==> Entry(h1.vm.mem, f, k) == Entry(h.vm.mem, f, k)
    ensures ChunksOk(h1)
  {
    forall b | b in h1.chunks
      ensures ChunkOk(h1, b)
    {
      ChunkFrame(h, h1, b);
    }
  }

  lemma {:induction false} ChunkFrame(h: Heap, h1: Heap, b: nat)
    requires b in h.chunks && ChunkOk(h, b) && h.vaddr <= TOP
    requires h1.chunks == h.chunks && h.vaddr <= h1.vaddr && SameRegion(h, h1)
    requires forall f :: f in h.data ==> f in h1.data && h1.data[f] == h.data[f]
    requires forall f, k: nat :: f in h.data ==> Entry(h1.vm.mem, f, k) == Entry(h.vm.mem, f, k)
    ensures ChunkOk(h1, b)
  {
    hide LeafWord, Entry;
    assert PageOk(h, b, 0);
    forall i: nat | i < |h1.chunks[b].frames|
      ensures PageOk(h1, b, i)
    {
      assert PageOk(h, b, i);
      assert HEAP_BASE <= b + PAGE_SIZE * i < h.vaddr;
    }
    assert HEAP_BASE <= b + PAGE_SIZE * (h.chunks[b].pages - 1) < h.vaddr;
  }

  /* ---------- changing one slab ---------- */

  function UpdateSlab(h: Heap, f: nat, row: seq<nat>, s: Slab): Heap {
    h.(vm := PutRow(h.vm, f, row), slabs := h.slabs[f := s])
  }

  /** Replacing one slab page by another representation of a slab of the same class, with the same next
      pointer, keeps the whole heap invariant: no other slab, no chain, no large block notices. */
  lemma {:induction false} UpdateSlabKeeps(h: Heap, f: nat, row: seq<nat>, s: Slab)
    requires HInv(h) && f in h.slabs
    requires Represents(row, FrameAddr(h.hhdm, f), s) && SizesFit(s) && s.cls == h.slabs[f].cls
    requires row[2] == Entry(h.vm.mem, f, 2)
    ensures HInv(UpdateSlab(h, f, row, s))
  {
    SlabFrame(h, f);
    assert |row| == ROW;
    hide Inv, Represents, ChunksOk, RegionOk, SlabsOk, FramesOk, SizesFit;
    PutRowKeepsTree(h.vm, f, row);
    PutRowRegion(h, f, row);
    UpdateSlabChains(h, f, row, s);
    UpdateSlabChunks(h, f, row, s);
    UpdateSlabFrames(h, f, row, s);
  }

  lemma {:induction false} SlabFrame(h: Heap, f: nat)
    requires HInv(h) && f in h.slabs
    ensures OwnedFrame(h, f) && f !in h.data && SlabOk(h, f)
  {
  }

  lemma {:induction false} UpdateSlabFrames(h: Heap, f: nat, row: seq<nat>, s: Slab)
    requires FramesOk(h) && f in h.slabs && |row| == ROW
    ensures FramesOk(UpdateSlab(h, f, row, s))
  {
    var h1 := UpdateSlab(h, f, row, s);
    forall x | x in h1.slabs || x in h1.data
      ensures OwnedFrame(h1, x)
    {
      assert OwnedFrame(h, x);
    }
  }

  lemma {:induction false} UpdateSlabChains(h: Heap, f: nat, row: seq<nat>, s: Slab)
    requires SlabsOk(h) && f in h.slabs && |row| == ROW
    requires Represents(row, FrameAddr(h.hhdm, f), s) && SizesFit(s) && s.cls == h.slabs[f].cls
    requires row[2] == Entry(h.vm.mem, f, 2)
    ensures SlabsOk(UpdateSlab(h, f, row, s))
  {
    hide SizesFit, Represents, ChainOk;
    var h1 := UpdateSlab(h, f, row, s);
    ChainsFrame(h, h1);
    forall x | x in h1.slabs
      ensures x in h1.vm.mem && SlabOk(h1, x)
    {
      if x != f {
        assert SlabOk(h, x);
      }
    }
  }

  /** Chains are kept by whatever keeps the class and next pointer of every slab in them. */
  lemma {:induction false} ChainsFrame(h: Heap, h1: Heap)
    requires |h.chains| == CLASSES && (forall c: nat :: c < CLASSES ==> ChainOk(h, c))
    requires h1.chains == h.chains && h1.hhdm == h.hhdm
    requires forall f :: f in h.slabs ==> f in h1.slabs && h1.slabs[f].cls == h.slabs[f].cls
    requires forall f :: f in h.slabs ==> Entry(h1.vm.mem, f, 2) == Entry(h.vm.mem, f, 2)
    ensures forall c: nat :: c < CLASSES ==> ChainOk(h1, c)
  {
    hide Entry;
    forall c: nat | c < CLASSES
      ensures ChainOk(h1, c)
    {
      assert ChainOk(h, c);
      forall j: nat | j < |h1.chains[c]|
        ensures ChainLink(h1, c, j)
      {
        assert ChainLink(h, c, j);
      }
    }
  }

  lemma {:induction false} UpdateSlabChunks(h: Heap, f: nat, row: seq<nat>, s: Slab)
    requires HInv(h) && f in h.slabs && |row| == ROW
    ensures ChunksOk(UpdateSlab(h, f, row, s))
  {
    SlabFrame(h, f);
    PutRowRegion(h, f, row);
    ChunksFrame(h, UpdateSlab(h, f, row, s));
  }

  /* ---------- adding a slab ---------- */

  function PutWord(s: State, f: nat, k: nat, v: nat): State {
    if f in s.mem && k < |s.mem[f]| then PutRow(s, f, s.mem[f][k := v]) else s
  }

  /** `create_slab`, and its result stored as the end of the chain. */
  ghost function Grow(h: Heap, c: nat): Heap
    requires c < |h.chains| && c < CLASSES && h.vm.free != {}
    requires Lowest(h.vm.free) in h.vm.mem && |h.vm.mem[Lowest(h.vm.free)]| == ROW
  {
    var f := Lowest(h.vm.free);
    var vm1 := PutRow(h.vm.(free := h.vm.free - {f}), f, FreshRow(h.vm.mem[f], FrameAddr(h.hhdm, f), c));
    var chain := h.chains[c];
    var vm2 := if chain == [] then vm1 else PutWord(vm1, chain[|chain| - 1], 2, FrameAddr(h.hhdm, f));
    h.(vm := vm2, slabs := h.slabs[f := FreshSlab(c)], chains := h.chains[c := chain + [f]])
  }

  lemma {:induction false} TakeFrameKeepsTree(s: State, f: nat)
    requires Inv(s) && f in s.free
    ensures Inv(s.(free := s.free - {f}))
  {
    var s1 := s.(free := s.free - {f});
    forall x | x in s1.place
      ensures LinksOk(s1, x)
    {
      assert LinksOk(s, x);
    }
  }

  /** The last slab of a nonempty chain. */
  function Last(chain: seq<nat>): nat {
    if chain == [] then 0 else chain[|chain| - 1]
  }

  ghost predicate CanGrow(h: Heap, c: nat) {
    && c < CLASSES == |h.chains| && h.vm.free != {}
    && var f := Lowest(h.vm.free);
    && 0 < f < h.limit && f in h.vm.mem && |h.vm.mem[f]| == ROW && f !in h.slabs && f !in h.data && f !in h.vm.place
    && (h.chains[c] != [] ==>
          var last := Last(h.chains[c]);
          last in h.slabs && last in h.vm.mem && |h.vm.mem[last]| == ROW && last !in h.data && last !in h.vm.place)
  }

  lemma {:induction false} GrowReady(h: Heap, c: nat)
    requires HInv(h) && c < CLASSES && h.vm.free != {}
    ensures CanGrow(h, c)
  {
    var f := Lowest(h.vm.free);
    assert f in h.slabs ==> OwnedFrame(h, f);
    assert f in h.data ==> OwnedFrame(h, f);
    if h.chains[c] != [] {
      assert ChainOk(h, c);
      assert ChainLink(h, c, |h.chains[c]| - 1);
      assert OwnedFrame(h, Last(h.chains[c]));
    }
  }

  /** What `Grow` does to memory: one fresh slab page, and the next pointer of the chain's last slab. */
  lemma {:induction false} GrowMemory(h: Heap, c: nat)
    requires CanGrow(h, c)
    ensures
      var f, last := Lowest(h.vm.free), Last(h.chains[c]);
      var mem, mem1 := h.vm.mem, Grow(h, c).vm.mem;
      && mem1.Keys == mem.Keys
      && mem1[f] == FreshRow(mem[f], FrameAddr(h.hhdm, f), c)
      && (forall x :: x in mem && x != f && (h.chains[c] == [] || x != last) ==> mem1[x] == mem[x])
      && (h.chains[c] != [] ==> mem1[last] == mem[last][2 := FrameAddr(h.hhdm, f)])
      && Grow(h, c) == h.(vm := State(mem1, h.vm.free - {f}, h.vm.place), slabs := h.slabs[f := FreshSlab(c)],
                          chains := h.chains[c := h.chains[c] + [f]])
  {
    hide FreshRow;
  }

  /** Translations do not depend on which frames are free. */
  lemma {:induction false} FreeIrrelevant(h: Heap, free: set<nat>)
    requires RegionOk(h)
    ensures RegionOk(h.(vm := h.vm.(free := free))) && SameRegion(h, h.(vm := h.vm.(free := free)))
  {
    var h1 := h.(vm := h.vm.(free := free));
    forall v: nat | HEAP_BASE <= v < TOP
      ensures Walkable(h1.vm, h1.root, v)
    {
      assert Walkable(h.vm, h.root, v);
    }
  }

  lemma {:induction false} GrowTree(h: Heap, c: nat)
    requires Inv(h.vm) && RegionOk(h) && CanGrow(h, c)
    ensures Inv(Grow(h, c).vm) && RegionOk(Grow(h, c)) && SameRegion(h, Grow(h, c))
  {
    var f, last := Lowest(h.vm.free), Last(h.chains[c]);
    var vm0 := h.vm.(free := h.vm.free - {f});
    TakeFrameKeepsTree(h.vm, f);
    hide Inv;
    var row := FreshRow(h.vm.mem[f], FrameAddr(h.hhdm, f), c);
    PutRowKeepsTree(vm0, f, row);
    FreeIrrelevant(h, h.vm.free - {f});
    PutRowRegion(h.(vm := vm0), f, row);
    var h1 := h.(vm := PutRow(vm0, f, row));
    if h.chains[c] != [] {
      var row2 := h1.vm.mem[last][2 := FrameAddr(h.hhdm, f)];
      PutRowKeepsTree(h1.vm, last, row2);
      PutRowRegion(h1, last, row2);
    }
  }

  lemma {:induction false} GrowFrames(h: Heap, c: nat)
    requires FramesOk(h) && CanGrow(h, c)
    ensures FramesOk(Grow(h, c))
  {
    var h1 := Grow(h, c);
    GrowMemory(h, c);
    hide Grow, FreshRow;
    forall x | x in h1.slabs || x in h1.data
      ensures OwnedFrame(h1, x)
    {
      assert x in h.slabs || x in h.data ==> OwnedFrame(h, x);
    }
  }

  lemma {:induction false} GrowChain(h: Heap, c: nat)
    requires CanGrow(h, c) && ChainOk(h, c)
    requires forall x :: x in h.slabs ==> x in h.vm.mem && |h.vm.mem[x]| == ROW
    ensures ChainOk(Grow(h, c), c)
  {
    var h1, chain, f := Grow(h, c), h.chains[c], Lowest(h.vm.free);
    GrowMemory(h, c);
    FreshRepresents(h.vm.mem[f], FrameAddr(h.hhdm, f), c);
    hide FreshRow, Represents, Grow;
    forall j: nat | j < |chain|
      ensures chain[j] != f && ChainLink(h1, c, j)
    {
      assert ChainLink(h, c, j);
      assert j < |chain| - 1 ==> chain[j] != Last(chain);
    }
    assert ChainLink(h1, c, |chain|);
  }

  lemma {:induction false} GrowSlabs(h: Heap, c: nat)
    requires SlabsOk(h) && FramesOk(h) && CanGrow(h, c)
    ensures SlabsOk(Grow(h, c))
  {
    var h1, f := Grow(h, c), Lowest(h.vm.free);
    GrowMemory(h, c);
    FreshRepresents(h.vm.mem[f], FrameAddr(h.hhdm, f), c);
    forall x | x in h.slabs
      ensures x in h.vm.mem && |h.vm.mem[x]| == ROW
    {
      assert OwnedFrame(h, x);
    }
    GrowChain(h, c);
    hide FreshRow, Grow, FramesOk;
    forall x | x in h1.slabs
      ensures x in h1.vm.mem && SlabOk(h1, x) && x in h1.chains[h1.slabs[x].cls]
    {
      GrowSlab(h, c, x);
    }
    forall d: nat | d < CLASSES
      ensures ChainOk(h1, d)
    {
      if d != c {
        GrowOtherChain(h, c, d);
      }
    }
  }

  lemma {:induction false} GrowSlab(h: Heap, c: nat, x: nat)
    requires CanGrow(h, c) && (x in h.slabs ==> x in h.vm.mem && SlabOk(h, x) && x in h.chains[h.slabs[x].cls])
    requires x in Grow(h, c).slabs
    ensures
      var h1 := Grow(h, c);
      x in h1.vm.mem && SlabOk(h1, x) && x in h1.chains[h1.slabs[x].cls]
  {
    var h1, f := Grow(h, c), Lowest(h.vm.free);
    GrowMemory(h, c);
    FreshRepresents(h.vm.mem[f], FrameAddr(h.hhdm, f), c);
    hide FreshRow, Grow;
    assert h1.chains[c] == h.chains[c] + [f];
    if x != f && h.chains[c] != [] && x == Last(h.chains[c]) {
      NextPointerRepresents(h.vm.mem[x], FrameAddr(h.hhdm, x), h.slabs[x], FrameAddr(h.hhdm, f));
    }
  }

  /** The next-slab pointer is no part of what the page says about its own objects. */
  lemma {:induction false} NextPointerRepresents(row: seq<nat>, base: nat, s: Slab, next: nat)
    requires Represents(row, base, s)
    ensures Represents(row[2 := next], base, s)
  {
    var out := row[2 := next];
    PartitionBounds(s);
    hide Tagged, Partition;
    forall k: nat | k < Count(s.cls)
      ensures WordOf(out, s.cls, k) == WordOf(row, s.cls, k) && SizeOf(out, s.cls, k) == SizeOf(row, s.cls, k)
    {
      ObjectLayout(s.cls, k, k);
    }
    hide ObjWord, Count, WordOf, SizeOf;
    forall j: nat | j < |s.free|
      ensures Linked(out, base, s, j)
    {
      assert Linked(row, base, s, j);
    }
  }

  lemma {:induction false} GrowOtherChain(h: Heap, c: nat, d: nat)
    requires CanGrow(h, c) && d < CLASSES && d != c && ChainOk(h, d) && ChainOk(h, c)
    requires forall x :: x in h.slabs ==> x in h.vm.mem && |h.vm.mem[x]| == ROW
    ensures ChainOk(Grow(h, c), d)
  {
    var h1 := Grow(h, c);
    GrowMemory(h, c);
    hide FreshRow, Grow;
    if h.chains[c] != [] {
      assert ChainLink(h, c, |h.chains[c]| - 1);
    }
    forall j: nat | j < |h1.chains[d]|
      ensures ChainLink(h1, d, j)
    {
      assert ChainLink(h, d, j);
    }
  }

  /** Adding a slab keeps the heap invariant. */
  lemma {:induction false} GrowKeeps(h: Heap, c: nat)
    requires HInv(h) && c < CLASSES && h.vm.free != {}
    ensures CanGrow(h, c) && HInv(Grow(h, c))
  {
    GrowReady(h, c);
    hide Inv, FramesOk, SlabsOk, RegionOk, ChunksOk;
    GrowTree(h, c);
    GrowFrames(h, c);
    GrowSlabs(h, c);
    GrowChunks(h, c);
    GrowMemory(h, c);
  }

  lemma {:induction false} GrowChunks(h: Heap, c: nat)
    requires ChunksOk(h) && CanGrow(h, c) && h.vaddr <= TOP && SameRegion(h, Grow(h, c))
    ensures ChunksOk(Grow(h, c))
  {
    GrowMemory(h, c);
    hide FreshRow, Grow;
    ChunksFrame(h, Grow(h, c));
  }
}
