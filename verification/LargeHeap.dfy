/** The large half of `kmalloc` and `kfree` (kernel/src/mm/heap.c): blocks above 1024 bytes, backed page by page
    by frames that `kfree` can only find again by walking the page tables. */
module LargeHeap {
  import opened Common
  import opened Words
  import opened FrameAllocator
  import opened PageTables
  import opened AddressSpaces
  import opened Slabs
  import opened HeapState
  import opened SlabHeap

  const KERNEL_PAGE: nat := PRESENT + WRITE

  /** Pages of the heap region have pairwise different page numbers. */
  lemma {:induction false} RegionPages(v: nat, w: nat)
    requires HEAP_BASE <= v < TOP && HEAP_BASE <= w < TOP
    ensures SamePage(v, w) <==> v / PAGE_SIZE == w / PAGE_SIZE
  {
    var q, r := v / PAGE_SIZE, w / PAGE_SIZE;
    assert PAGE_COUNT * 0xFFFF <= q < PAGE_COUNT * 0x1_0000;
    assert PAGE_COUNT * 0xFFFF <= r < PAGE_COUNT * 0x1_0000;
    assert q / PAGE_COUNT == 0xFFFF && r / PAGE_COUNT == 0xFFFF;
  }

  /* ---------- mapping the pages of a block ---------- */

  /** One turn of the loop: a frame is taken and mapped at `virt`. */
  ghost function PageStep(vm: State, root: nat, virt: nat): (State, bool)
    requires vm.free != {}
  {
    var f := Lowest(vm.free);
    VmmMap(vm.(free := vm.free - {f}), root, virt, f * PAGE_SIZE, KERNEL_PAGE)
  }

  /** The state after `n` turns, the frames taken, and whether the allocator always had one. */
  ghost function MapPages(vm: State, root: nat, base: nat, n: nat): (State, seq<nat>, bool)
    decreases n
  {
    if n == 0 then (vm, [], true)
    else
      var (vm1, frames, ok) := MapPages(vm, root, base, n - 1);
      if !ok || vm1.free == {} then (vm1, frames, false)
      else (PageStep(vm1, root, base + PAGE_SIZE * (n - 1)).0, frames + [Lowest(vm1.free)], true)
  }

  ghost predicate Region(vm: State, root: nat) {
    forall v: nat :: HEAP_BASE <= v < TOP ==> Walkable(vm, root, v)
  }

  /** Frames taken are either the listed data frames or new tables; everything else is as it was. */
  ghost predicate Takes(s: State, s1: State, frames: seq<nat>) {
    && s1.free <= s.free && s1.mem.Keys == s.mem.Keys
    && Distinct(frames)
    && (forall i :: 0 <= i < |frames| ==> frames[i] in s.free - s1.free && frames[i] !in s1.place)
    && (forall x :: x in s.place ==> x in s1.place && s1.place[x] == s.place[x])
    && (forall x :: x in s1.place ==> x in s.place || x in s.free - s1.free)
    && (forall x :: x in s.free - s1.free ==> x in frames || x in s1.place)
    && (forall x :: x in s.mem && x !in s1.place ==> s1.mem[x] == s.mem[x])
  }

  lemma {:induction false} PageStepTree(vm: State, root: nat, virt: nat)
    requires Inv(vm) && vm.free != {} && Region(vm, root) && HEAP_BASE <= virt < TOP
    ensures
      var f := Lowest(vm.free);
      var vm0 := vm.(free := vm.free - {f});
      var (vm1, ok) := PageStep(vm, root, virt);
      && Inv(vm0) && Walkable(vm0, root, virt) && Inv(vm1) && Extends(vm0, vm1) && Region(vm1, root)
      && (!ok ==> vm1.free == {})
      && f !in vm1.place && f != 0
  {
    var f := Lowest(vm.free);
    var vm0 := vm.(free := vm.free - {f});
    TakeFrameKeepsTree(vm, f);
    assert Walkable(vm, root, virt);
    MapOutcome(vm0, root, virt, f * PAGE_SIZE, KERNEL_PAGE);
    forall v: nat | HEAP_BASE <= v < TOP
      ensures Walkable(PageStep(vm, root, virt).0, root, v)
    {
      assert Walkable(vm, root, v);
      MapKeepsWalkable(vm0, root, virt, f * PAGE_SIZE, KERNEL_PAGE, root, v);
    }
  }

  /** The turn maps its page to the frame it took, unless it fails; no other page of the region changes. */
  lemma {:induction false} PageStepLookups(vm: State, root: nat, virt: nat, v: nat)
    requires Inv(vm) && vm.free != {} && Region(vm, root) && HEAP_BASE <= virt < TOP && HEAP_BASE <= v < TOP
    ensures
      var (vm1, ok) := PageStep(vm, root, virt);
      LeafWord(vm1, root, v)
      == if ok && v / PAGE_SIZE == virt / PAGE_SIZE then Lowest(vm.free) * 4096 + 3 else LeafWord(vm, root, v)
  {
    var f := Lowest(vm.free);
    var vm0 := vm.(free := vm.free - {f});
    PageStepTree(vm, root, virt);
    RegionPages(v, virt);
    assert Walkable(vm, root, v);
    var ok := PageStep(vm, root, virt).1;
    hide Inv, Region, VmmMap, Extends, LeafWord, Walkable;
    if ok && SamePage(v, virt) {
      MapLeaf(vm0, root, virt, f * PAGE_SIZE, KERNEL_PAGE, v);
    } else {
      MapMiss(vm0, root, virt, f * PAGE_SIZE, KERNEL_PAGE, root, v);
    }
  }

  lemma {:induction false} MapPagesTree(vm: State, root: nat, base: nat, n: nat)
    requires Inv(vm) && Region(vm, root) && HEAP_BASE <= base && base + PAGE_SIZE * n <= TOP
    ensures
      var (vm1, frames, ok) := MapPages(vm, root, base, n);
      && Inv(vm1) && Region(vm1, root) && Takes(vm, vm1, frames)
      && |frames| <= n && (ok ==> |frames| == n) && (!ok ==> vm1.free == {})
    decreases n
  {
    TakesNothing(vm);
    hide Inv, Region, Takes, Extends, PageStep, VmmMap;
    if n > 0 {
      MapPagesTree(vm, root, base, n - 1);
      var (vm1, frames, ok) := MapPages(vm, root, base, n - 1);
      if ok && vm1.free != {} {
        var virt := base + PAGE_SIZE * (n - 1);
        PageStepTree(vm1, root, virt);
        TakesStep(vm, vm1, frames, PageStep(vm1, root, virt).0);
      }
    }
  }

  lemma {:induction false} TakesNothing(s: State)
    ensures Takes(s, s, [])
  {
  }

  lemma {:induction false} TakesStep(s: State, s1: State, frames: seq<nat>, s2: State)
    requires Inv(s) && Takes(s, s1, frames) && s1.free != {}
    requires Extends(s1.(free := s1.free - {Lowest(s1.free)}), s2) && Lowest(s1.free) !in s2.place && Inv(s1)
    ensures Takes(s, s2, frames + [Lowest(s1.free)])
  {
  }

  /** Page `i` of the block is mapped to the `i`-th frame taken. */
  ghost predicate PageMapped(vm: State, root: nat, base: nat, frames: seq<nat>, i: nat)
    requires i < |frames|
  {
    LeafWord(vm, root, base + PAGE_SIZE * i) == frames[i] * 4096 + 3
  }

  ghost predicate AllMapped(vm: State, root: nat, base: nat, frames: seq<nat>) {
    forall i: nat :: i < |frames| ==> PageMapped(vm, root, base, frames, i)
  }

  /** Outside the block's pages nothing changes. While the allocator is not empty every page so far is mapped to
      its frame; so if a mapping fails, the block cannot go on: it was the last page, or kmalloc gives NULL. */
  lemma {:induction false} MapPagesLookups(vm: State, root: nat, base: nat, n: nat)
    requires Inv(vm) && Region(vm, root) && HEAP_BASE <= base && base % PAGE_SIZE == 0 && base + PAGE_SIZE * n <= TOP
    ensures
      var (vm1, frames, ok) := MapPages(vm, root, base, n);
      && (forall v: nat :: HEAP_BASE <= v < TOP && !(base <= v < base + PAGE_SIZE * n) ==>
          LeafWord(vm1, root, v) == LeafWord(vm, root, v))
      && (ok && vm1.free != {} ==> AllMapped(vm1, root, base, frames))
      && (forall i: nat :: i + 1 < |frames| ==> PageMapped(vm1, root, base, frames, i))
    decreases n
  {
    hide Inv, Region, Takes, LeafWord, PageStep, PageMapped;
    if n > 0 {
      MapPagesLookups(vm, root, base, n - 1);
      MapPagesTree(vm, root, base, n - 1);
      var (vm1, frames, ok) := MapPages(vm, root, base, n - 1);
      if ok && vm1.free != {} {
        LastPage(vm1, root, base, n, frames);
        var virt := base + PAGE_SIZE * (n - 1);
        var vm2 := PageStep(vm1, root, virt).0;
        forall v: nat | HEAP_BASE <= v < TOP && !(base <= v < base + PAGE_SIZE * n)
          ensures LeafWord(vm2, root, v) == LeafWord(vm, root, v)
        {
          PageStepLookups(vm1, root, virt, v);
          PageApart(base, n - 1, v);
        }
      }
    }
  }

  lemma {:induction false} LastPage(vm: State, root: nat, base: nat, n: nat, frames: seq<nat>)
    requires Inv(vm) && Region(vm, root) && vm.free != {}
    requires HEAP_BASE <= base && base % PAGE_SIZE == 0 && n >= 1 && base + PAGE_SIZE * n <= TOP
    requires |frames| == n - 1 && AllMapped(vm, root, base, frames)
    ensures
      var (vm1, ok) := PageStep(vm, root, base + PAGE_SIZE * (n - 1));
      var all := frames + [Lowest(vm.free)];
      && (ok ==> AllMapped(vm1, root, base, all))
      && (forall i: nat :: i < n - 1 ==> PageMapped(vm1, root, base, all, i))
      && (!ok ==> vm1.free == {})
  {
    hide Inv, Region, Extends, LeafWord, PageStep;
    var virt := base + PAGE_SIZE * (n - 1);
    var (vm1, ok) := PageStep(vm, root, virt);
    var all := frames + [Lowest(vm.free)];
    PageStepTree(vm, root, virt);
    PageStepLookups(vm, root, virt, virt);
    forall i: nat | i < n - 1
      ensures PageMapped(vm1, root, base, all, i)
    {
      assert PageMapped(vm, root, base, frames, i);
      PageStepLookups(vm, root, virt, base + PAGE_SIZE * i);
      PageOfBlock(base, i);
      PageOfBlock(base, n - 1);
    }
  }

  lemma {:induction false} PageApart(base: nat, i: nat, v: nat)
    requires base % PAGE_SIZE == 0 && !(base + PAGE_SIZE * i <= v < base + PAGE_SIZE * (i + 1))
    ensures v / PAGE_SIZE != (base + PAGE_SIZE * i) / PAGE_SIZE
  {
  }

  lemma {:induction false} PageOfBlock(base: nat, i: nat)
    ensures (base + PAGE_SIZE * i) / PAGE_SIZE == base / PAGE_SIZE + i
  {
  }

  /* ---------- kmalloc above 1024 bytes ---------- */

  function PagesFor(size: nat): nat {
    (size + 24 + 4095) / PAGE_SIZE
  }

  /** The header written at the start of a large block. */
  function HeaderRow(row: seq<nat>, pages: nat, size: nat): seq<nat>
    requires |row| == ROW
  {
    row[0 := SetLow(row[0], MAGIC_PAGE)][1 := pages][2 := size]
  }

  function AddData(data: map<nat, (nat, nat)>, base: nat, frames: seq<nat>): map<nat, (nat, nat)> {
    if frames == [] then data
    else
      var n := |frames| - 1;
      AddData(data, base, frames[..n])[frames[n] := (base, n)]
  }

  lemma {:induction false} AddDataAt(data: map<nat, (nat, nat)>, base: nat, frames: seq<nat>)
    requires Distinct(frames)
    ensures forall i: nat :: i < |frames| ==>
      frames[i] in AddData(data, base, frames) && AddData(data, base, frames)[frames[i]] == (base, i)
    ensures forall x :: x !in frames ==> (x in AddData(data, base, frames) <==> x in data)
    ensures forall x :: x in data && x !in frames ==> AddData(data, base, frames)[x] == data[x]
  {
    if frames != [] {
      var n := |frames| - 1;
      AddDataAt(data, base, frames[..n]);
      assert forall i: nat :: i < n ==> frames[..n][i] == frames[i];
    }
  }

  /** The heap after the mapping loop: the pages are consumed whether or not the loop succeeds. */
  ghost function AfterPages(h: Heap, n: nat): Heap {
    var (vm1, frames, _) := MapPages(h.vm, h.root, h.vaddr, n);
    h.(vm := vm1, vaddr := h.vaddr + PAGE_SIZE * n, data := AddData(h.data, h.vaddr, frames))
  }

  /** The frames the loop took. */
  ghost function PagesTaken(h: Heap, n: nat): seq<nat> {
    MapPages(h.vm, h.root, h.vaddr, n).1
  }

  ghost predicate Roomy(h: Heap, n: nat) {
    HInv(h) && h.vaddr + PAGE_SIZE * n <= TOP
  }

  lemma {:induction false} RoomyFacts(h: Heap, n: nat)
    requires Roomy(h, n)
    ensures Inv(h.vm) && Region(h.vm, h.root) && 0 !in h.vm.free
    ensures HEAP_BASE <= h.vaddr && h.vaddr % PAGE_SIZE == 0 && h.vaddr + PAGE_SIZE * n <= TOP
  {
  }

  lemma {:induction false} AfterPagesFacts(h: Heap, n: nat)
    requires Roomy(h, n)
    ensures
      var h1, frames := AfterPages(h, n), PagesTaken(h, n);
      && Inv(h1.vm) && Takes(h.vm, h1.vm, frames) && Region(h1.vm, h1.root) && SameRegion(h, h1)
      && RegionOk(h1)
  {
    MapPagesTree(h.vm, h.root, h.vaddr, n);
    MapPagesLookups(h.vm, h.root, h.vaddr, n);
  }

  lemma {:induction false} AfterPagesFrames(h: Heap, n: nat)
    requires FramesOk(h) && Inv(h.vm) && Takes(h.vm, AfterPages(h, n).vm, PagesTaken(h, n))
    ensures FramesOk(AfterPages(h, n))
    ensures forall i: nat :: i < |PagesTaken(h, n)| ==>
      PagesTaken(h, n)[i] !in h.data && PagesTaken(h, n)[i] !in h.slabs
  {
    var h1, frames := AfterPages(h, n), PagesTaken(h, n);
    AddDataAt(h.data, h.vaddr, frames);
    assert h1.slabs == h.slabs && h1.limit == h.limit && h1.data == AddData(h.data, h.vaddr, frames);
    hide AfterPages, PagesTaken, LinksOk;
    forall x | x in h.slabs || x in h.data
      ensures OwnedFrame(h1, x) && x !in frames
    {
      assert OwnedFrame(h, x);
    }
    forall x | x in frames
      ensures OwnedFrame(h1, x)
    {
      var i :| 0 <= i < |frames| && frames[i] == x;
    }
  }

  lemma {:induction false} AfterPagesSlabs(h: Heap, n: nat)
    requires FramesOk(h) && SlabsOk(h) && Takes(h.vm, AfterPages(h, n).vm, PagesTaken(h, n))
    ensures SlabsOk(AfterPages(h, n))
  {
    var h1, frames := AfterPages(h, n), PagesTaken(h, n);
    assert h1.slabs == h.slabs && h1.chains == h.chains && h1.hhdm == h.hhdm;
    hide AfterPages, PagesTaken, Represents, SizesFit;
    forall x | x in h.slabs
      ensures x in h1.vm.mem && h1.vm.mem[x] == h.vm.mem[x]
    {
      assert OwnedFrame(h, x);
    }
    hide FramesOk, Takes;
    ChainsFrame(h, h1);
    forall x | x in h1.slabs
      ensures SlabOk(h1, x)
    {
      assert SlabOk(h, x);
    }
  }

  lemma {:induction false} AfterPagesChunks(h: Heap, n: nat)
    requires FramesOk(h) && ChunksOk(h) && h.vaddr <= TOP && Takes(h.vm, AfterPages(h, n).vm, PagesTaken(h, n))
    requires SameRegion(h, AfterPages(h, n))
    requires forall i: nat :: i < |PagesTaken(h, n)| ==> PagesTaken(h, n)[i] !in h.data
    ensures ChunksOk(AfterPages(h, n))
  {
    var h1, frames := AfterPages(h, n), PagesTaken(h, n);
    AddDataAt(h.data, h.vaddr, frames);
    assert h1.chunks == h.chunks && h1.vaddr == h.vaddr + PAGE_SIZE * n && h1.data == AddData(h.data, h.vaddr, frames);
    hide AfterPages, PagesTaken, ChunksOk, SameRegion;
    forall x | x in h.data
      ensures x in h1.vm.mem && h1.vm.mem[x] == h.vm.mem[x] && x !in frames
    {
      assert OwnedFrame(h, x);
    }
    ChunksFrame(h, h1);
  }

  /** Consuming pages, successfully or not, keeps the heap invariant: a failed large `kmalloc` leaks, but breaks
      nothing. */
  lemma {:induction false} AfterPagesKeeps(h: Heap, n: nat)
    requires Roomy(h, n)
    ensures HInv(AfterPages(h, n))
  {
    AfterPagesFacts(h, n);
    assert Config(AfterPages(h, n));
    hide Inv, FramesOk, SlabsOk, RegionOk, ChunksOk, Takes, SameRegion, Region, AfterPages;
    AfterPagesFrames(h, n);
    AfterPagesSlabs(h, n);
    AfterPagesChunks(h, n);
  }

  /** The header written into frame `f` of the heap. */
  ghost function PutHeader(h: Heap, f: nat, pages: nat, size: nat): Heap
    requires f in h.vm.mem && |h.vm.mem[f]| == ROW
  {
    h.(vm := PutRow(h.vm, f, HeaderRow(h.vm.mem[f], pages, size)))
  }

  lemma {:induction false} DataFrame(h: Heap, f: nat)
    requires HInv(h) && f in h.data
    ensures OwnedFrame(h, f) && f !in h.slabs
  {
  }

  lemma {:induction false} PutDataFrames(h: Heap, f: nat, row: seq<nat>)
    requires FramesOk(h) && SlabsOk(h) && f in h.data && |row| == ROW
    ensures FramesOk(h.(vm := PutRow(h.vm, f, row))) && SlabsOk(h.(vm := PutRow(h.vm, f, row)))
  {
    var h1 := h.(vm := PutRow(h.vm, f, row));
    assert forall x :: x in h.slabs ==> x != f;
    hide Represents, SizesFit;
    forall x | x in h.slabs || x in h.data
      ensures OwnedFrame(h1, x)
    {
      assert OwnedFrame(h, x);
    }
    forall x | x in h1.slabs
      ensures x in h1.vm.mem && SlabOk(h1, x)
    {
      assert SlabOk(h, x);
    }
    ChainsFrame(h, h1);
  }

  lemma {:induction false} PutDataChunks(h: Heap, f: nat, row: seq<nat>)
    requires HInv(h) && f in h.data && |row| == ROW
    requires forall b :: b in h.chunks && h.chunks[b].frames != [] && h.chunks[b].frames[0] == f ==>
               row[0] % HALF == MAGIC_PAGE && row[1] == h.chunks[b].pages && row[2] == h.chunks[b].size
    ensures ChunksOk(h.(vm := PutRow(h.vm, f, row)))
  {
    var h1 := h.(vm := PutRow(h.vm, f, row));
    DataFrame(h, f);
    PutRowRegion(h, f, row);
    hide Inv, FramesOk, SlabsOk, RegionOk, LeafWord, Config;
    forall b | b in h1.chunks
      ensures ChunkOk(h1, b)
    {
      assert ChunkOk(h, b);
      forall i: nat | i < |h1.chunks[b].frames|
        ensures PageOk(h1, b, i)
      {
        assert PageOk(h, b, i);
        assert HEAP_BASE <= b + PAGE_SIZE * i < TOP;
      }
      assert HEAP_BASE <= b + PAGE_SIZE * (h.chunks[b].pages - 1) < TOP;
    }
  }

  /** Writing a data frame keeps the heap, as long as the header of a live block is not destroyed. */
  lemma {:induction false} PutDataKeeps(h: Heap, f: nat, row: seq<nat>)
    requires HInv(h) && f in h.data && |row| == ROW
    requires forall b :: b in h.chunks && h.chunks[b].frames != [] && h.chunks[b].frames[0] == f ==>
               row[0] % HALF == MAGIC_PAGE && row[1] == h.chunks[b].pages && row[2] == h.chunks[b].size
    ensures HInv(h.(vm := PutRow(h.vm, f, row)))
  {
    DataFrame(h, f);
    assert Config(h.(vm := PutRow(h.vm, f, row)));
    hide Inv, FramesOk, SlabsOk, RegionOk, ChunksOk;
    PutRowKeepsTree(h.vm, f, row);
    PutRowRegion(h, f, row);
    PutDataFrames(h, f, row);
    PutDataChunks(h, f, row);
  }

  /** A block whose header is written and whose pages, but perhaps the last, are mapped becomes a live block. */
  lemma {:induction false} AddChunkKeeps(h: Heap, base: nat, c: Chunk)
    requires HInv(h) && base !in h.chunks
    requires ChunkOk(h.(chunks := h.chunks[base := c]), base)
    requires forall b :: b in h.chunks ==> b + PAGE_SIZE * h.chunks[b].pages <= base
    ensures HInv(h.(chunks := h.chunks[base := c]))
  {
    hide Inv, FramesOk, SlabsOk, ChunksOk, RegionOk;
    var h1 := h.(chunks := h.chunks[base := c]);
    ChunksIrrelevant(h, h1);
    AddChunkChunks(h, base, c);
  }

  /** Frames, slabs and the region do not depend on which blocks are live. */
  lemma {:induction false} ChunksIrrelevant(h: Heap, h1: Heap)
    requires FramesOk(h) && SlabsOk(h) && RegionOk(h) && h1 == h.(chunks := h1.chunks)
    ensures FramesOk(h1) && SlabsOk(h1) && RegionOk(h1)
  {
    assert forall x :: OwnedFrame(h, x) ==> OwnedFrame(h1, x);
    hide Represents, SizesFit;
    ChainsFrame(h, h1);
    forall x | x in h1.slabs
      ensures SlabOk(h1, x)
    {
      assert SlabOk(h, x);
    }
  }

  lemma {:induction false} AddChunkChunks(h: Heap, base: nat, c: Chunk)
    requires ChunksOk(h) && base !in h.chunks
    requires ChunkOk(h.(chunks := h.chunks[base := c]), base)
    requires forall b :: b in h.chunks ==> b + PAGE_SIZE * h.chunks[b].pages <= base
    ensures ChunksOk(h.(chunks := h.chunks[base := c]))
  {
    hide LeafWord, ChunkOk;
    var h1 := h.(chunks := h.chunks[base := c]);
    forall b | b in h1.chunks
      ensures ChunkOk(h1, b)
    {
      if b != base {
        SameChunk(h, h1, b);
      }
    }
  }

  lemma {:induction false} SameChunk(h: Heap, h1: Heap, b: nat)
    requires b in h.chunks && ChunkOk(h, b) && b in h1.chunks && h1.chunks[b] == h.chunks[b]
    requires h1 == h.(chunks := h1.chunks)
    ensures ChunkOk(h1, b)
  {
    hide LeafWord, Entry;
    forall i: nat | i < |h1.chunks[b].frames|
      ensures PageOk(h1, b, i)
    {
      assert PageOk(h, b, i);
    }
  }

  /** A store to the address does not fault: its leaf word is present and writable. */
  predicate CanStore(vm: State, root: nat, v: nat) {
    LeafWord(vm, root, v) % 2 == 1 && LeafWord(vm, root, v) / 2 % 2 == 1
  }

  /** `kmalloc` above 1024 bytes. */
  ghost function KmallocLarge(h: Heap, size: nat): (Heap, Outcome)
    requires Roomy(h, PagesFor(size)) && size > 1024
  {
    var n, base := PagesFor(size), h.vaddr;
    var (vm1, frames, ok) := MapPages(h.vm, h.root, base, n);
    var h1 := AfterPages(h, n);
    if !ok then (h1, Null)
    else
      FirstPage(h, size);
      if !CanStore(vm1, h.root, base) then (h1, Fault)
      else
        var h2 := PutHeader(h1, frames[0], n, size);
        (h2.(chunks := h2.chunks[base := Chunk(n, size, MappedFrames(vm1, h.root, base, frames))]), Pointer(base + 24))
  }

  /** The frames `kfree` will find again: all that were taken, or all but the last when its page was not mapped. */
  ghost function MappedFrames(vm: State, root: nat, base: nat, frames: seq<nat>): seq<nat>
    requires frames != []
  {
    if AllMapped(vm, root, base, frames) then frames else frames[..|frames| - 1]
  }

  /** The header goes through the first page's translation, which is the first frame taken. */
  lemma {:induction false} FirstPage(h: Heap, size: nat)
    requires Roomy(h, PagesFor(size)) && size > 1024
    ensures
      var n := PagesFor(size);
      var (vm1, frames, ok) := MapPages(h.vm, h.root, h.vaddr, n);
      ok ==>
        && n >= 1 && |frames| == n
        && frames[0] in vm1.mem && |vm1.mem[frames[0]]| == ROW && frames[0] > 0 && frames[0] in AfterPages(h, n).data
        && (CanStore(vm1, h.root, h.vaddr) && n >= 2 ==> PageMapped(vm1, h.root, h.vaddr, frames, 0))
  {
    hide HInv, Inv, Region, LeafWord, MapPages, AddData, Roomy;
    var n := PagesFor(size);
    RoomyFacts(h, n);
    var (vm1, frames, ok) := MapPages(h.vm, h.root, h.vaddr, n);
    MapPagesTree(h.vm, h.root, h.vaddr, n);
    MapPagesLookups(h.vm, h.root, h.vaddr, n);
    if ok {
      AddDataAt(h.data, h.vaddr, frames);
      FreeFrameFacts(h.vm, frames[0]);
    }
  }

  lemma {:induction false} FreeFrameFacts(s: State, f: nat)
    requires Inv(s) && f in s.free
    ensures f > 0 && f in s.mem && |s.mem[f]| == ROW
  {
  }

  /** Frames just taken belong to no live block. */
  lemma {:induction false} NewFramesFresh(h: Heap, n: nat)
    requires Roomy(h, n)
    ensures forall b, i: nat :: b in h.chunks && i < |PagesTaken(h, n)| && h.chunks[b].frames != [] ==>
              h.chunks[b].frames[0] != PagesTaken(h, n)[i]
    ensures forall b :: b in h.chunks ==> b + PAGE_SIZE * h.chunks[b].pages <= h.vaddr
    ensures h.vaddr !in h.chunks
  {
    AfterPagesFacts(h, n);
    AfterPagesFrames(h, n);
    forall b | b in h.chunks
      ensures h.chunks[b].frames != [] ==> h.chunks[b].frames[0] in h.data
      ensures b + PAGE_SIZE * h.chunks[b].pages <= h.vaddr && h.chunks[b].pages >= 1
    {
      assert ChunkOk(h, b);
      assert PageOk(h, b, 0);
    }
  }

  lemma {:induction false} HeaderWords(row: seq<nat>, pages: nat, size: nat)
    requires |row| == ROW
    ensures
      var out := HeaderRow(row, pages, size);
      |out| == ROW && out[0] % HALF == MAGIC_PAGE && out[1] == pages && out[2] == size
  {
  }

  lemma {:induction false} NewChunkOk(h: Heap, size: nat)
    requires Roomy(h, PagesFor(size)) && size > 1024
    requires MapPages(h.vm, h.root, h.vaddr, PagesFor(size)).2
    requires CanStore(AfterPages(h, PagesFor(size)).vm, h.root, h.vaddr)
    ensures
      var n, base := PagesFor(size), h.vaddr;
      var frames := PagesTaken(h, n);
      && |frames| == n && n >= 1 && frames[0] in AfterPages(h, n).vm.mem && |AfterPages(h, n).vm.mem[frames[0]]| == ROW
      && var h2 := PutHeader(AfterPages(h, n), frames[0], n, size);
      var some := MappedFrames(AfterPages(h, n).vm, h.root, base, frames);
      ChunkOk(h2.(chunks := h2.chunks[base := Chunk(n, size, some)]), base)
  {
    hide Inv, LeafWord, Missing, Takes, HInv;
    var n, base := PagesFor(size), h.vaddr;
    var frames, h1 := PagesTaken(h, n), AfterPages(h, n);
    FirstPage(h, size);
    AfterPagesFacts(h, n);
    AddDataAt(h.data, base, frames);
    assert h1.data == AddData(h.data, base, frames) && h1.vaddr == base + PAGE_SIZE * n && h1.root == h.root;
    TakenNotTables(h.vm, h1.vm, frames);
    RoomyFacts(h, n);
    MappedPart(h.vm, h.root, base, n);
    ChunkFromPages(h1, base, n, size, MappedFrames(h1.vm, h.root, base, frames));
  }

  lemma {:induction false} TakenNotTables(s: State, s1: State, frames: seq<nat>)
    requires Takes(s, s1, frames)
    ensures Distinct(frames) && forall i :: 0 <= i < |frames| ==> frames[i] !in s1.place
  {
  }

  /** When the allocator had a frame for every page and the first page is mapped, all pages but perhaps the last are;
      an unmapped last page translates to 0. */
  lemma {:induction false} MappedPart(vm: State, root: nat, base: nat, n: nat)
    requires Inv(vm) && Region(vm, root) && 0 !in vm.free
    requires HEAP_BASE <= base && base % PAGE_SIZE == 0 && n >= 1 && base + PAGE_SIZE * n <= TOP
    requires MapPages(vm, root, base, n).2 && CanStore(MapPages(vm, root, base, n).0, root, base)
    ensures
      var (vm1, frames, _) := MapPages(vm, root, base, n);
      && |frames| == n
      && var some := MappedFrames(vm1, root, base, frames);
      && 1 <= |some| && n - 1 <= |some| <= n && some == frames[..|some|] && AllMapped(vm1, root, base, some)
      && (|some| < n ==> LeafWord(vm1, root, base + PAGE_SIZE * (n - 1)) == 0)
  {
    hide Inv, Region, LeafWord, PageStep, Missing, MapPages, CanStore, AllMapped;
    BeforeLastPage(vm, root, base, n);
    var (before, frames, _) := MapPages(vm, root, base, n - 1);
    LastPageOutcome(before, root, base, n, frames);
    LastPage(before, root, base, n, frames);
    var (vm1, all, _) := MapPages(vm, root, base, n);
    assert all[..n] == all && all[..n - 1] == frames;
    ShorterMapped(vm1, root, base, all, n - 1);
    ZeroFaults(vm1, root, base);
  }

  lemma {:induction false} ShorterMapped(vm: State, root: nat, base: nat, frames: seq<nat>, n: nat)
    requires n <= |frames| && forall i: nat :: i < n ==> PageMapped(vm, root, base, frames, i)
    ensures AllMapped(vm, root, base, frames[..n])
  {
    hide LeafWord;
    forall i: nat | i < n
      ensures PageMapped(vm, root, base, frames[..n], i)
    {
      assert PageMapped(vm, root, base, frames, i);
    }
  }

  lemma {:induction false} ZeroFaults(vm: State, root: nat, v: nat)
    ensures LeafWord(vm, root, v) == 0 ==> !CanStore(vm, root, v)
  {
    hide LeafWord;
  }

  lemma {:induction false} ChunkFromPages(h: Heap, base: nat, n: nat, size: nat, frames: seq<nat>)
    requires Inv(h.vm) && RegionOk(h) && size > 1024 && n == PagesFor(size) && 1 <= |frames| && n - 1 <= |frames| <= n
    requires |frames| < n ==> LeafWord(h.vm, h.root, base + PAGE_SIZE * (n - 1)) == 0
    requires HEAP_BASE <= base && base % PAGE_SIZE == 0 && base + PAGE_SIZE * n <= h.vaddr
    requires forall i: nat :: i < |frames| ==> frames[i] in h.data && h.data[frames[i]] == (base, i)
    requires frames[0] in h.vm.mem && |h.vm.mem[frames[0]]| == ROW && frames[0] !in h.vm.place
    requires AllMapped(h.vm, h.root, base, frames)
    ensures
      var h2 := PutHeader(h, frames[0], n, size);
      ChunkOk(h2.(chunks := h2.chunks[base := Chunk(n, size, frames)]), base)
  {
    hide Inv, LeafWord, HeaderRow;
    var f := frames[0];
    var row := HeaderRow(h.vm.mem[f], n, size);
    HeaderWords(h.vm.mem[f], n, size);
    PutRowRegion(h, f, row);
    var h2 := PutHeader(h, f, n, size);
    var h3 := h2.(chunks := h2.chunks[base := Chunk(n, size, frames)]);
    forall i: nat | i < |frames|
      ensures PageOk(h3, base, i)
    {
      assert PageMapped(h.vm, h.root, base, frames, i);
      assert HEAP_BASE <= base + PAGE_SIZE * i < TOP;
    }
    assert HEAP_BASE <= base + PAGE_SIZE * (n - 1) < TOP;
  }

  lemma {:induction false} KmallocLargeKeeps(h: Heap, size: nat)
    requires Roomy(h, PagesFor(size)) && size > 1024
    ensures HInv(KmallocLarge(h, size).0)
  {
    var n, base := PagesFor(size), h.vaddr;
    var (vm1, frames, ok) := MapPages(h.vm, h.root, base, n);
    var h1 := AfterPages(h, n);
    AfterPagesKeeps(h, n);
    if ok && CanStore(vm1, h.root, base) {
      FirstPage(h, size);
      NewFramesFresh(h, n);
      var h2 := PutHeader(h1, frames[0], n, size);
      HeaderWords(h1.vm.mem[frames[0]], n, size);
      PutDataKeeps(h1, frames[0], HeaderRow(h1.vm.mem[frames[0]], n, size));
      NewChunkOk(h, size);
      AddChunkKeeps(h2, base, Chunk(n, size, MappedFrames(vm1, h.root, base, frames)));
    }
  }

  /* ---------- kfree of a large block ---------- */

  function Elements(s: seq<nat>): set<nat> {
    set x | x in s
  }

  /** One turn of the loop of `kfree`: look the page up, unmap it, give the frame back. */
  function FreeStep(vm: State, root: nat, virt: nat): State {
    var phys := GetPhys(vm, root, virt);
    var vm1 := VmmUnmap(vm, root, virt);
    if phys != 0 then vm1.(free := vm1.free + {phys / PAGE_SIZE}) else vm1
  }

  function UnmapPages(vm: State, root: nat, base: nat, n: nat): State
    decreases n
  {
    if n == 0 then vm else FreeStep(UnmapPages(vm, root, base, n - 1), root, base + PAGE_SIZE * (n - 1))
  }

  /** `vm1` is `vm` with the frames `freed` given back and the same tables. */
  ghost predicate GivesBack(vm: State, vm1: State, freed: seq<nat>) {
    && vm1.free == vm.free + Elements(freed) && vm1.place == vm.place && vm1.mem.Keys == vm.mem.Keys
    && (forall x :: x in vm.mem && x !in vm.place ==> vm1.mem[x] == vm.mem[x])
  }

  lemma {:induction false} AddFreeKeepsTree(s: State, f: nat)
    requires Inv(s) && f > 0 && f in s.mem && |s.mem[f]| == ENTRIES && f !in s.place
    ensures Inv(s.(free := s.free + {f}))
  {
    var s1 := s.(free := s.free + {f});
    forall x | x in s1.place
      ensures LinksOk(s1, x)
    {
      assert LinksOk(s, x);
    }
  }

  lemma {:induction false} UnmapTouchesTables(s: State, root: nat, virt: nat)
    requires Inv(s) && Walkable(s, root, virt)
    ensures
      var s1 := VmmUnmap(s, root, virt);
      s1.place == s.place && s1.free == s.free && s1.mem.Keys == s.mem.Keys
      && forall x :: x in s.mem && x !in s.place ==> s1.mem[x] == s.mem[x]
  {
    var page := PageNumber(virt);
    RootOnPath(s, root, page);
    if LastTable(s.mem, root, 4, page).Some? {
      LastTablePlace(s, root, 4, page);
    }
  }

  /** A page mapped to frame `f` translates to 0 afterwards, `f` is free, nothing else changes. */
  lemma {:induction false} FreeStepEffect(vm: State, root: nat, virt: nat, f: nat)
    requires Inv(vm) && Region(vm, root) && HEAP_BASE <= virt < TOP
    requires f > 0 && LeafWord(vm, root, virt) == f * 4096 + 3
    requires f in vm.mem && |vm.mem[f]| == ENTRIES && f !in vm.place
    ensures
      var vm1 := FreeStep(vm, root, virt);
      && Inv(vm1) && Region(vm1, root) && GivesBack(vm, vm1, [f])
      && forall v: nat :: HEAP_BASE <= v < TOP ==>
           LeafWord(vm1, root, v) == if v / PAGE_SIZE == virt / PAGE_SIZE then 0 else LeafWord(vm, root, v)
  {
    assert Walkable(vm, root, virt);
    var s1 := VmmUnmap(vm, root, virt);
    var vm1 := FreeStep(vm, root, virt);
    assert vm1 == s1.(free := s1.free + {f});
    hide Inv, VmmUnmap, FreeStep, Extends;
    UnmapOutcome(vm, root, virt);
    UnmapTouchesTables(vm, root, virt);
    AddFreeKeepsTree(s1, f);
    assert Elements([f]) == {f};
    forall v: nat | HEAP_BASE <= v < TOP
      ensures Walkable(vm1, root, v)
      ensures LeafWord(vm1, root, v) == if v / PAGE_SIZE == virt / PAGE_SIZE then 0 else LeafWord(vm, root, v)
    {
      assert Walkable(vm, root, v);
      UnmapLookups(vm, root, virt, root, v);
      RegionPages(v, virt);
    }
  }

  ghost predicate LiveChunk(h: Heap, base: nat) {
    HInv(h) && base in h.chunks
  }

  lemma {:induction false} ChunkFacts(h: Heap, base: nat)
    requires LiveChunk(h, base)
    ensures
      var c := h.chunks[base];
      && 1 <= |c.frames| && c.pages - 1 <= |c.frames| <= c.pages && TailOk(h, base)
      && HEAP_BASE <= base && base % PAGE_SIZE == 0 && base + PAGE_SIZE * c.pages <= h.vaddr <= TOP
      && c.pages == PagesFor(c.size) && c.size > 1024
      && Distinct(c.frames)
      && forall i: nat :: i < |c.frames| ==> PageOk(h, base, i) && OwnedFrame(h, c.frames[i]) && c.frames[i] !in h.slabs
  {
    assert ChunkOk(h, base);
    var c := h.chunks[base];
    forall i: nat | i < |c.frames|
      ensures PageOk(h, base, i) && OwnedFrame(h, c.frames[i]) && c.frames[i] !in h.slabs
    {
      assert PageOk(h, base, i);
      DataFrame(h, c.frames[i]);
    }
    assert forall i: nat :: i < |c.frames| ==> h.data[c.frames[i]] == (base, i);
  }

  /** Page `i` of the block is backed by its frame, which is neither free nor a table. */
  ghost predicate Backed(vm: State, root: nat, base: nat, frames: seq<nat>, i: nat)
    requires i < |frames|
  {
    && PageMapped(vm, root, base, frames, i)
    && frames[i] > 0 && frames[i] in vm.mem && |vm.mem[frames[i]]| == ENTRIES && frames[i] !in vm.place
  }

  /** After `n` turns of the loop the first `n` frames are free and their pages translate to 0. */
  lemma {:induction false} UnmapPagesEffect(vm: State, root: nat, base: nat, frames: seq<nat>, n: nat)
    requires Inv(vm) && Region(vm, root) && n <= |frames|
    requires HEAP_BASE <= base && base % PAGE_SIZE == 0 && base + PAGE_SIZE * |frames| <= TOP
    requires forall i: nat :: i < |frames| ==> Backed(vm, root, base, frames, i)
    ensures
      var vm1 := UnmapPages(vm, root, base, n);
      && Inv(vm1) && Region(vm1, root) && GivesBack(vm, vm1, frames[..n])
      && forall v: nat :: HEAP_BASE <= v < TOP ==>
           LeafWord(vm1, root, v) == if base <= v < base + PAGE_SIZE * n then 0 else LeafWord(vm, root, v)
    decreases n
  {
    hide Inv, Region, LeafWord, FreeStep;
    if n == 0 {
      assert Elements(frames[..0]) == {};
    } else {
      UnmapPagesEffect(vm, root, base, frames, n - 1);
      var vm1 := UnmapPages(vm, root, base, n - 1);
      var virt, f := base + PAGE_SIZE * (n - 1), frames[n - 1];
      assert Backed(vm, root, base, frames, n - 1);
      FreeStepEffect(vm1, root, virt, f);
      GivesBackStep(vm, vm1, FreeStep(vm1, root, virt), frames, n);
      forall v: nat | HEAP_BASE <= v < TOP
        ensures LeafWord(FreeStep(vm1, root, virt), root, v)
             == if base <= v < base + PAGE_SIZE * n then 0 else LeafWord(vm, root, v)
      {
        PageRange(base, n - 1, v);
      }
    }
  }

  lemma {:induction false} GivesBackStep(a: State, b: State, c: State, frames: seq<nat>, n: nat)
    requires 0 < n <= |frames| && GivesBack(a, b, frames[..n - 1]) && GivesBack(b, c, [frames[n - 1]])
    ensures GivesBack(a, c, frames[..n])
  {
    assert frames[..n] == frames[..n - 1] + [frames[n - 1]];
    assert Elements(frames[..n]) == Elements(frames[..n - 1]) + Elements([frames[n - 1]]);
  }

  /** A turn of the loop at a page that translates to 0 changes no translation and frees nothing. */
  lemma {:induction false} FreeStepNothing(vm: State, root: nat, virt: nat)
    requires Inv(vm) && Region(vm, root) && HEAP_BASE <= virt < TOP && LeafWord(vm, root, virt) == 0
    ensures
      var vm1 := FreeStep(vm, root, virt);
      && Inv(vm1) && Region(vm1, root) && GivesBack(vm, vm1, [])
      && forall v: nat :: HEAP_BASE <= v < TOP ==> LeafWord(vm1, root, v) == LeafWord(vm, root, v)
  {
    assert Walkable(vm, root, virt);
    var vm1 := FreeStep(vm, root, virt);
    assert vm1 == VmmUnmap(vm, root, virt);
    hide Inv, VmmUnmap, LeafWord, FreeStep, Extends;
    UnmapOutcome(vm, root, virt);
    UnmapTouchesTables(vm, root, virt);
    assert Elements([]) == {};
    forall v: nat | HEAP_BASE <= v < TOP
      ensures Walkable(vm1, root, v) && LeafWord(vm1, root, v) == LeafWord(vm, root, v)
    {
      assert Walkable(vm, root, v);
      UnmapLookups(vm, root, virt, root, v);
      if SamePage(v, virt) { SamePageSameLookup(vm, root, virt, v); }
    }
  }

  lemma {:induction false} SamePageSameLookup(vm: State, root: nat, v: nat, w: nat)
    requires SamePage(w, v)
    ensures LeafWord(vm, root, w) == LeafWord(vm, root, v)
  {
  }

  /** What `kfree` of a large block does: exactly the frames behind its mapped pages, each once, go back to the
      allocator; the block's pages translate to 0, every other page of the heap region as before. A block whose last
      page was never mapped gives back one frame less than it has pages. */
  lemma {:induction false} KfreeLargeEffect(h: Heap, base: nat)
    requires LiveChunk(h, base)
    ensures
      var c, h1 := h.chunks[base], KfreeLarge(h, base);
      && Inv(h1.vm) && RegionOk(h1) && GivesBack(h.vm, h1.vm, c.frames)
      && Distinct(c.frames) && (forall f :: f in c.frames ==> f !in h.vm.free)
      && |c.frames|
         == PagesFor(c.size) - (if LeafWord(h.vm, h.root, base + PAGE_SIZE * (c.pages - 1)) == 0 then 1 else 0)
      && forall v: nat :: HEAP_BASE <= v < TOP ==>
           LeafWord(h1.vm, h.root, v) == if base <= v < base + PAGE_SIZE * c.pages then 0 else LeafWord(h.vm, h.root, v)
  {
    hide HInv, Inv, LeafWord, UnmapPages, Elements, Backed, TailOk;
    ChunkBacked(h, base);
    UnmapBlockEffect(h.vm, h.root, base, h.chunks[base].frames, h.chunks[base].pages);
  }

  /** What the loop of `kfree` finds: every page but perhaps the last backed by its frame. */
  lemma {:induction false} ChunkBacked(h: Heap, base: nat)
    requires LiveChunk(h, base)
    ensures
      var c := h.chunks[base];
      && Inv(h.vm) && RegionOk(h) && Region(h.vm, h.root) && c.pages >= 1 && c.pages - 1 <= |c.frames| <= c.pages
      && HEAP_BASE <= base && base % PAGE_SIZE == 0 && base + PAGE_SIZE * c.pages <= TOP
      && (forall i: nat :: i < |c.frames| ==> Backed(h.vm, h.root, base, c.frames, i) && c.frames[i] < h.limit)
      && (|c.frames| < c.pages ==> forall v: nat ::
            base + PAGE_SIZE * (c.pages - 1) <= v < base + PAGE_SIZE * c.pages ==> LeafWord(h.vm, h.root, v) == 0)
      && Distinct(c.frames) && (forall f :: f in c.frames ==> f !in h.vm.free)
      && |c.frames|
         == PagesFor(c.size) - (if LeafWord(h.vm, h.root, base + PAGE_SIZE * (c.pages - 1)) == 0 then 1 else 0)
  {
    ChunkFacts(h, base);
    if |h.chunks[base].frames| < h.chunks[base].pages { LastPageEnds(h, base); }
    assert Inv(h.vm) && Region(h.vm, h.root) && RegionOk(h);
    hide HInv, Inv, LeafWord, Region, RegionOk;
    var c := h.chunks[base];
    forall i: nat | i < |c.frames|
      ensures Backed(h.vm, h.root, base, c.frames, i) && c.frames[i] < h.limit
    {
      assert PageOk(h, base, i) && OwnedFrame(h, c.frames[i]);
    }
    assert Backed(h.vm, h.root, base, c.frames, |c.frames| - 1);
  }

  /** The whole loop of `kfree`, over a block whose last page may be unmapped. */
  lemma {:induction false} UnmapBlockEffect(vm: State, root: nat, base: nat, frames: seq<nat>, pages: nat)
    requires Inv(vm) && Region(vm, root) && pages >= 1 && pages - 1 <= |frames| <= pages
    requires HEAP_BASE <= base && base % PAGE_SIZE == 0 && base + PAGE_SIZE * pages <= TOP
    requires forall i: nat :: i < |frames| ==> Backed(vm, root, base, frames, i)
    requires |frames| < pages ==>
      forall v: nat :: base + PAGE_SIZE * (pages - 1) <= v < base + PAGE_SIZE * pages ==> LeafWord(vm, root, v) == 0
    ensures
      var vm1 := UnmapPages(vm, root, base, pages);
      && Inv(vm1) && Region(vm1, root) && GivesBack(vm, vm1, frames)
      && forall v: nat :: HEAP_BASE <= v < TOP ==>
           LeafWord(vm1, root, v) == if base <= v < base + PAGE_SIZE * pages then 0 else LeafWord(vm, root, v)
  {
    hide Inv, Region, LeafWord, FreeStep, Backed, Elements;
    UnmapPagesEffect(vm, root, base, frames, |frames|);
    assert frames[..|frames|] == frames;
    if |frames| < pages {
      var vm1, last := UnmapPages(vm, root, base, |frames|), base + PAGE_SIZE * (pages - 1);
      FreeStepNothing(vm1, root, last);
      GivesBackNothing(vm, vm1, FreeStep(vm1, root, last), frames);
    }
  }

  lemma {:induction false} LastPageEnds(h: Heap, base: nat)
    requires LiveChunk(h, base) && |h.chunks[base].frames| < h.chunks[base].pages
    ensures
      var end := base + PAGE_SIZE * h.chunks[base].pages;
      forall v: nat :: end - PAGE_SIZE <= v < end ==> LeafWord(h.vm, h.root, v) == 0
  {
    ChunkFacts(h, base);
    hide HInv, LeafWord;
    var last := h.chunks[base].pages - 1;
    forall v: nat | base + PAGE_SIZE * last <= v < base + PAGE_SIZE * (last + 1)
      ensures LeafWord(h.vm, h.root, v) == 0
    {
      PageRange(base, last, v);
      RegionPages(v, base + PAGE_SIZE * last);
      SamePageSameLookup(h.vm, h.root, base + PAGE_SIZE * last, v);
    }
  }

  lemma {:induction false} GivesBackNothing(a: State, b: State, c: State, frames: seq<nat>)
    requires GivesBack(a, b, frames) && GivesBack(b, c, [])
    ensures GivesBack(a, c, frames)
  {
    assert Elements([]) == {};
  }

  lemma {:induction false} PageRange(base: nat, i: nat, v: nat)
    requires base % PAGE_SIZE == 0
    ensures v / PAGE_SIZE == (base + PAGE_SIZE * i) / PAGE_SIZE <==>
      base + PAGE_SIZE * i <= v < base + PAGE_SIZE * (i + 1)
  {
  }

  /** `kfree` of a large block. */
  function KfreeLarge(h: Heap, base: nat): Heap
    requires base in h.chunks
  {
    var c := h.chunks[base];
    h.(vm := UnmapPages(h.vm, h.root, base, c.pages), chunks := h.chunks - {base}, data := h.data - Elements(c.frames))
  }

  lemma {:induction false} KfreeLargeFrames(h: Heap, base: nat)
    requires FramesOk(h) && base in h.chunks && GivesBack(h.vm, KfreeLarge(h, base).vm, h.chunks[base].frames)
    requires Inv(h.vm) && forall f :: f in h.chunks[base].frames ==> f in h.data
    ensures FramesOk(KfreeLarge(h, base))
  {
    var h1, frames := KfreeLarge(h, base), h.chunks[base].frames;
    assert h1.slabs == h.slabs && h1.limit == h.limit && h1.data == h.data - Elements(frames);
    hide KfreeLarge, LinksOk;
    forall f | f in h1.vm.free
      ensures f < h1.limit
    {
      assert f in frames ==> OwnedFrame(h, f);
    }
    forall x | x in h1.slabs || x in h1.data
      ensures OwnedFrame(h1, x)
    {
      assert OwnedFrame(h, x);
    }
  }

  lemma {:induction false} KfreeLargeSlabs(h: Heap, base: nat)
    requires FramesOk(h) && SlabsOk(h) && base in h.chunks
    requires GivesBack(h.vm, KfreeLarge(h, base).vm, h.chunks[base].frames)
    ensures SlabsOk(KfreeLarge(h, base))
  {
    var h1 := KfreeLarge(h, base);
    assert h1.slabs == h.slabs && h1.chains == h.chains && h1.hhdm == h.hhdm;
    hide KfreeLarge, Represents, SizesFit, Elements;
    forall x | x in h.slabs
      ensures x in h1.vm.mem && h1.vm.mem[x] == h.vm.mem[x]
    {
      assert OwnedFrame(h, x);
    }
    hide FramesOk, GivesBack;
    ChainsFrame(h, h1);
    forall x | x in h1.slabs
      ensures SlabOk(h1, x)
    {
      assert SlabOk(h, x);
    }
  }

  lemma {:induction false} KfreeLargeChunks(h: Heap, base: nat)
    requires LiveChunk(h, base)
    ensures ChunksOk(KfreeLarge(h, base))
  {
    var h1, c := KfreeLarge(h, base), h.chunks[base];
    ChunkFacts(h, base);
    KfreeLargeEffect(h, base);
    assert h1.data == h.data - Elements(c.frames) && h1.chunks == h.chunks - {base};
    assert h1.vaddr == h.vaddr && h1.root == h.root;
    hide KfreeLarge, Inv, SlabsOk, RegionOk, LeafWord;
    forall b | b in h1.chunks
      ensures ChunkOk(h1, b)
    {
      ChunkFacts(h, b);
      assert ChunkOk(h, b) && ChunkOk(h, base);
      OtherChunkOk(h, h1, base, b);
    }
  }

  lemma {:induction false} OtherChunkOk(h: Heap, h1: Heap, base: nat, b: nat)
    requires b in h.chunks && base in h.chunks && b != base && ChunkOk(h, b) && ChunkOk(h, base) && h.vaddr <= TOP
    requires if b < base then b + PAGE_SIZE * h.chunks[b].pages <= base
      else base + PAGE_SIZE * h.chunks[base].pages <= b
    requires b in h1.chunks && h1.chunks[b] == h.chunks[b] && h1.data == h.data - Elements(h.chunks[base].frames)
    requires h1.vaddr == h.vaddr && h1.root == h.root
    requires forall i: nat :: i < |h.chunks[b].frames| ==> OwnedFrame(h, h.chunks[b].frames[i])
    requires GivesBack(h.vm, h1.vm, h.chunks[base].frames)
    requires forall v: nat :: HEAP_BASE <= v < TOP ==>
               LeafWord(h1.vm, h.root, v)
               == if base <= v < base + PAGE_SIZE * h.chunks[base].pages then 0 else LeafWord(h.vm, h.root, v)
    ensures ChunkOk(h1, b)
  {
    hide LeafWord;
    var frames := h.chunks[b].frames;
    assert HEAP_BASE <= b + PAGE_SIZE * (h.chunks[b].pages - 1) < TOP;
    forall i: nat | i < |frames|
      ensures PageOk(h1, b, i)
    {
      assert PageOk(h, b, i);
      assert HEAP_BASE <= b + PAGE_SIZE * i < TOP;
      forall k: nat | k < |h.chunks[base].frames|
        ensures h.chunks[base].frames[k] != frames[i]
      {
        assert PageOk(h, base, k);
      }
    }
    assert h1.vm.mem[frames[0]] == h.vm.mem[frames[0]];
  }

  lemma {:induction false} KfreeLargeKeeps(h: Heap, base: nat)
    requires LiveChunk(h, base)
    ensures HInv(KfreeLarge(h, base))
  {
    KfreeLargeEffect(h, base);
    ChunkFacts(h, base);
    assert forall f :: f in h.chunks[base].frames ==> f in h.data;
    assert Config(KfreeLarge(h, base));
    hide Inv, FramesOk, SlabsOk, RegionOk, ChunksOk, KfreeLarge, GivesBack;
    KfreeLargeFrames(h, base);
    KfreeLargeSlabs(h, base);
    KfreeLargeChunks(h, base);
  }

  /* ---------- outcomes and conservation ---------- */

  lemma {:induction false} PageStepCost(vm: State, root: nat, virt: nat)
    requires Inv(vm) && vm.free != {} && Region(vm, root) && HEAP_BASE <= virt < TOP
    ensures
      var (vm1, ok) := PageStep(vm, root, virt);
      var missing := Missing(vm.mem, root, 4, PageNumber(virt));
      && missing <= 3 && (ok <==> missing + 1 <= |vm.free|)
      && |vm1.free| == (if ok then |vm.free| - 1 - missing else 0)
  {
    var f := Lowest(vm.free);
    PageStepTree(vm, root, virt);
    MapOutcome(vm.(free := vm.free - {f}), root, virt, f * PAGE_SIZE, KERNEL_PAGE);
    assert |vm.free - {f}| == |vm.free| - 1;
  }

  /** The cases of a large `kmalloc`. */
  lemma {:induction false} KmallocLargeCases(h: Heap, size: nat)
    requires Roomy(h, PagesFor(size)) && size > 1024
    ensures
      var n := PagesFor(size);
      var (vm1, frames, ok) := MapPages(h.vm, h.root, h.vaddr, n);
      var mapped := CanStore(vm1, h.root, h.vaddr);
      var (h1, r) := KmallocLarge(h, size);
      && r == (if !ok then Null else if !mapped then Fault else Pointer(h.vaddr + 24))
      && (ok ==> frames != [])
      && h1.chunks == (if ok && mapped
                       then h.chunks[h.vaddr := Chunk(n, size, MappedFrames(vm1, h.root, h.vaddr, frames))]
                       else h.chunks)
      && h1.vm.free == vm1.free && h1.vm.place == vm1.place && h1.root == h.root && h1.vaddr == h.vaddr + PAGE_SIZE * n
      && frames == PagesTaken(h, n) && h1.slabs == h.slabs && h1.chains == h.chains && h1.hhdm == h.hhdm
      && h1.limit == h.limit
  {
    hide HInv, LeafWord, HeaderRow, AllMapped, MapPages, AddData;
    FirstPage(h, size);
  }

  /** A returned block cost the frames taken for its pages and the tables created for it: exactly the frames that left
      the allocator. The block keeps all of them, or all but the last when that page was not mapped. */
  lemma {:induction false} KmallocLargeCost(h: Heap, size: nat)
    requires Roomy(h, PagesFor(size)) && size > 1024 && KmallocLarge(h, size).1.Pointer?
    ensures
      var h1, taken := KmallocLarge(h, size).0, PagesTaken(h, PagesFor(size));
      && KmallocLarge(h, size).1 == Pointer(h.vaddr + 24)
      && h.vaddr !in h.chunks && h.vaddr in h1.chunks && |taken| == PagesFor(size) >= 1
      && var c := h1.chunks[h.vaddr];
      && h1.chunks == h.chunks[h.vaddr := c] && c == Chunk(PagesFor(size), size, taken[..|c.frames|])
      && PagesFor(size) - 1 <= |c.frames| <= PagesFor(size)
      && h1.vm.free <= h.vm.free
      && h.vm.free - h1.vm.free == Elements(taken) + (h1.vm.place.Keys - h.vm.place.Keys)
      && Elements(taken) !! h1.vm.place.Keys
  {
    hide HInv, Inv, Region, KmallocLarge, LeafWord, AllMapped, PagesFor, MapPages, Roomy;
    var n := PagesFor(size);
    RoomyFacts(h, n);
    FirstPage(h, size);
    KmallocLargeCases(h, size);
    NewFramesFresh(h, n);
    MapPagesTree(h.vm, h.root, h.vaddr, n);
    var taken := PagesTaken(h, n);
    assert taken[..n] == taken;
    TakesExactly(h.vm, MapPages(h.vm, h.root, h.vaddr, n).0, taken);
  }

  lemma {:induction false} TakesExactly(s: State, s1: State, frames: seq<nat>)
    requires Inv(s) && Takes(s, s1, frames)
    ensures s.free - s1.free == Elements(frames) + (s1.place.Keys - s.place.Keys)
    ensures Elements(frames) !! s1.place.Keys
  {
  }

  /** A large `kmalloc`, successful or not, changes no translation outside the pages it consumes. */
  lemma {:induction false} KmallocLargeLookups(h: Heap, size: nat)
    requires Roomy(h, PagesFor(size)) && size > 1024
    ensures
      var h1 := KmallocLarge(h, size).0;
      forall v: nat :: HEAP_BASE <= v < TOP && !(h.vaddr <= v < h1.vaddr) ==>
        LeafWord(h1.vm, h.root, v) == LeafWord(h.vm, h.root, v)
  {
    var n := PagesFor(size);
    RoomyFacts(h, n);
    MapPagesLookups(h.vm, h.root, h.vaddr, n);
    AfterPagesKeeps(h, n);
    FirstPage(h, size);
    var (vm1, frames, ok) := MapPages(h.vm, h.root, h.vaddr, n);
    var h1 := AfterPages(h, n);
    if ok {
      DataFrame(h1, frames[0]);
      HeaderKeepsLookups(h1, frames[0], n, size);
    }
  }

  lemma {:induction false} HeaderKeepsLookups(h: Heap, f: nat, pages: nat, size: nat)
    requires HInv(h) && OwnedFrame(h, f)
    ensures forall v: nat :: HEAP_BASE <= v < TOP ==>
      LeafWord(PutHeader(h, f, pages, size).vm, h.root, v) == LeafWord(h.vm, h.root, v)
  {
    hide LeafWord, Inv, RegionOk;
    PutRowRegion(h, f, HeaderRow(h.vm.mem[f], pages, size));
  }

  /** What a returned block does not give back: the frame taken for its last page, when that page was not mapped. */
  ghost function Lost(h: Heap, size: nat): set<nat>
    requires Roomy(h, PagesFor(size)) && size > 1024 && KmallocLarge(h, size).1.Pointer?
  {
    KmallocLargeCost(h, size);
    var c, taken := KmallocLarge(h, size).0.chunks[h.vaddr], PagesTaken(h, PagesFor(size));
    if |c.frames| == c.pages then {} else {taken[c.pages - 1]}
  }

  /** Conservation: allocating a large block and freeing it again costs exactly the page tables created, and the last
      page's frame when that page could not be mapped; every translation of the heap region is as it was, the block's
      own pages translating to 0. */
  lemma {:induction false} LargeConservation(h: Heap, size: nat)
    requires Roomy(h, PagesFor(size)) && size > 1024 && KmallocLarge(h, size).1.Pointer?
    ensures
      var h1 := KmallocLarge(h, size).0;
      && h.vaddr in h1.chunks
      && var h2 := KfreeLarge(h1, h.vaddr);
      && h2.vm.free == h.vm.free - (h1.vm.place.Keys - h.vm.place.Keys) - Lost(h, size)
      && h2.chunks == h.chunks
      && forall v: nat :: HEAP_BASE <= v < TOP ==>
           LeafWord(h2.vm, h.root, v) == if h.vaddr <= v < h1.vaddr then 0 else LeafWord(h.vm, h.root, v)
  {
    hide HInv, KmallocLarge, LeafWord, Inv, RegionOk, KfreeLarge, Roomy, PagesFor, Elements, MapPages;
    KmallocLargeLookups(h, size);
    var h1 := KmallocLarge(h, size).0;
    KmallocLargeKeeps(h, size);
    KmallocLargeCost(h, size);
    KmallocLargeCases(h, size);
    KfreeLargeEffect(h1, h.vaddr);
    ChunkFacts(h1, h.vaddr);
    KfreeLargeParts(h1, h.vaddr);
    TakenApart(h, PagesFor(size));
    var taken, some := PagesTaken(h, PagesFor(size)), h1.chunks[h.vaddr].frames;
    SplitTaken(taken, some);
    Balance(h.vm.free, h1.vm.free, Elements(taken), h1.vm.place.Keys - h.vm.place.Keys, Elements(some), Lost(h, size));
  }

  lemma {:induction false} Balance(
    free: set<nat>, free1: set<nat>, taken: set<nat>, tables: set<nat>, some: set<nat>, lost: set<nat>)
    requires free1 <= free && free - free1 == taken + tables && taken !! tables && some == taken - lost && lost <= taken
    ensures free1 + some == free - tables - lost
  {
  }

  lemma {:induction false} TakenApart(h: Heap, n: nat)
    requires Roomy(h, n)
    ensures Distinct(PagesTaken(h, n))
  {
    RoomyFacts(h, n);
    MapPagesTree(h.vm, h.root, h.vaddr, n);
  }

  lemma {:induction false} SplitTaken(taken: seq<nat>, some: seq<nat>)
    requires Distinct(taken) && |taken| >= 1 && |taken| - 1 <= |some| <= |taken| && some == taken[..|some|]
    ensures Elements(some) == Elements(taken) - (if |some| == |taken| then {} else {taken[|taken| - 1]})
    ensures taken[|taken| - 1] in Elements(taken)
  {
    var last := taken[|taken| - 1];
    if |some| < |taken| {
      assert taken == some + [last];
      assert Elements(taken) == Elements(some) + {last};
      assert last !in some;
    }
  }

  lemma {:induction false} KfreeLargeParts(h: Heap, base: nat)
    requires base in h.chunks
    ensures
      var h1 := KfreeLarge(h, base);
      && h1.chunks == h.chunks - {base} && h1.root == h.root && h1.vaddr == h.vaddr
      && h1.slabs == h.slabs && h1.chains == h.chains && h1.hhdm == h.hhdm
  {
  }

  lemma {:induction false} MissingTranslatesToZero(mem: Mem, t: nat, level: nat, page: nat)
    requires level >= 1 && Missing(mem, t, level, page) > 0
    ensures Lookup(mem, t, level, page) == 0
    decreases level
  {
    var e := Entry(mem, t, Index(page, level));
    if level > 1 && Present(e) {
      MissingTranslatesToZero(mem, Target(e), level - 1, page);
    }
  }

  /** When the allocator had a frame for every page, all pages but the last are mapped before the last turn. */
  lemma {:induction false} BeforeLastPage(vm: State, root: nat, base: nat, n: nat)
    requires Inv(vm) && Region(vm, root) && 0 !in vm.free
    requires HEAP_BASE <= base && base % PAGE_SIZE == 0 && n >= 1 && base + PAGE_SIZE * n <= TOP
    requires MapPages(vm, root, base, n).2
    ensures
      var (before, frames, _) := MapPages(vm, root, base, n - 1);
      && Inv(before) && Region(before, root) && before.free != {} && |frames| == n - 1 && 0 !in frames
      && AllMapped(before, root, base, frames)
      && MapPages(vm, root, base, n)
         == (PageStep(before, root, base + PAGE_SIZE * (n - 1)).0, frames + [Lowest(before.free)], true)
  {
    hide Inv, Region, LeafWord, PageStep;
    MapPagesTree(vm, root, base, n - 1);
    MapPagesLookups(vm, root, base, n - 1);
  }

  lemma {:induction false} MappedStores(vm: State, root: nat, v: nat, f: nat)
    requires LeafWord(vm, root, v) == f * 4096 + 3
    ensures CanStore(vm, root, v)
  {
    hide LeafWord;
    PresentWritable(f);
  }

  lemma {:induction false} PresentWritable(f: nat)
    ensures (f * 4096 + 3) % 2 == 1 && (f * 4096 + 3) / 2 % 2 == 1
  {
    var x, y := 2048 * f + 1, 1024 * f;
    assert f * 4096 + 3 == 2 * x + 1 && x == 2 * y + 1;
    OddParts(x);
    OddParts(y);
  }

  lemma {:induction false} OddParts(x: nat)
    ensures (2 * x + 1) % 2 == 1 && (2 * x + 1) / 2 == x
  {
  }

  lemma {:induction false} MissingLeaf(vm: State, root: nat, v: nat)
    requires Missing(vm.mem, root, 4, PageNumber(v)) > 0
    ensures LeafWord(vm, root, v) == 0
  {
    MissingTranslatesToZero(vm.mem, root, 4, PageNumber(v));
  }

  lemma {:induction false} LastPageOutcome(vm: State, root: nat, base: nat, n: nat, frames: seq<nat>)
    requires Inv(vm) && Region(vm, root) && vm.free != {}
    requires HEAP_BASE <= base && base % PAGE_SIZE == 0 && n >= 1 && base + PAGE_SIZE * n <= TOP
    requires |frames| == n - 1 && AllMapped(vm, root, base, frames) && 0 !in frames
    ensures
      var last := base + PAGE_SIZE * (n - 1);
      var (vm1, ok) := PageStep(vm, root, last);
      var all := frames + [Lowest(vm.free)];
      && (ok <==> Missing(vm.mem, root, 4, PageNumber(last)) < |vm.free|)
      && (ok <==> AllMapped(vm1, root, base, all))
      && (!ok ==> LeafWord(vm1, root, last) == 0 && vm1.free == {})
      && (ok || n >= 2 ==> CanStore(vm1, root, base))
  {
    hide Inv, Region, PageStep, Missing, LeafWord, CanStore;
    var last := base + PAGE_SIZE * (n - 1);
    var (vm1, ok) := PageStep(vm, root, last);
    var all := frames + [Lowest(vm.free)];
    PageStepCost(vm, root, last);
    PageStepLookups(vm, root, last, last);
    PageStepTree(vm, root, last);
    LastPage(vm, root, base, n, frames);
    if !ok {
      MissingLeaf(vm, root, last);
      assert !PageMapped(vm1, root, base, all, n - 1);
    }
    if ok || n >= 2 {
      assert PageMapped(vm1, root, base, all, 0);
      MappedStores(vm1, root, base, all[0]);
    }
  }
}
