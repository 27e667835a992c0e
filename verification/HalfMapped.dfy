/** A run of the heap (kernel/src/mm/heap.c) from its initialisation to a block whose last page is not mapped. */
module HalfMapped {
  import opened Common
  import opened Words
  import opened FrameAllocator
  import opened PageTables
  import opened AddressSpaces
  import opened Slabs
  import opened HeapState
  import opened SlabHeap
  import opened LargeHeap
  import opened BlockCost
  import Runs = HeapRuns
  import Boot = Heap

  /* ---------- counting ---------- */

  lemma {:induction false} RangeSize(first: nat, count: nat)
    ensures |Range(first, count)| == count
    decreases count
  {
    if count == 0 {
      assert Range(first, 0) == {};
    } else {
      RangeSize(first, count - 1);
      assert Range(first, count) == Range(first, count - 1) + {first + count - 1};
    }
  }

  /** Neighbouring pages of one page table share all their tables. */
  lemma {:induction false} SameTable(page: nat, i: nat)
    requires page % 512 == 0 && 1 <= i < 512
    ensures Diverge(page + i, page + i - 1, 4) == 0
  {
    assert Prefix(page + i, 1) == (page + i) / 512 == page / 512;
    assert Prefix(page + i - 1, 1) == (page + i - 1) / 512 == page / 512;
    SameUpwards(page + i, page + i - 1);
  }

  lemma {:induction false} SameUpwards(p: nat, q: nat)
    requires Prefix(p, 1) == Prefix(q, 1)
    ensures Diverge(p, q, 4) == 0
  {
    assert Prefix(p, 2) == Prefix(q, 2);
    assert Prefix(p, 3) == Prefix(q, 3);
  }

  /** The pages of one page table lack what the first of them lacks. */
  lemma {:induction false} OneTableLacks(mem: Mem, root: nat, page: nat, n: nat)
    requires page % 512 == 0 && 1 <= n <= 512
    ensures Lacking(mem, root, page, n) == Missing(mem, root, 4, page)
    decreases n
  {
    hide Missing, Diverge;
    if n == 1 {
      assert Lacking(mem, root, page, 0) == 0;
    } else {
      OneTableLacks(mem, root, page, n - 1);
      SameTable(page, n - 1);
    }
  }

  /** The page after the last of a page table needs another page table, and no other table, for the pages at hand. */
  lemma {:induction false} NextTable(page: nat, q: nat)
    requires page == 0xF_FFF9_0000 && page <= q < page + 512
    ensures Diverge(page + 512, q, 4) == 1
  {
    assert Prefix(q, 1) == q / 512 == 0x7FF_FC80 && Prefix(page + 512, 1) == (page + 512) / 512 == 0x7FF_FC81;
    assert Prefix(q, 2) == Prefix(q, 1) / 512 == 0x3_FFFE;
    assert Prefix(page + 512, 2) == Prefix(page + 512, 1) / 512 == 0x3_FFFE;
    assert Prefix(q, 3) == Prefix(page + 512, 3);
  }

  lemma {:induction false} FirstPageNumber()
    ensures PageNumber(HEAP_BASE) == 0xF_FFF9_0000 && PageNumber(HEAP_BASE) % 512 == 0
  {
  }

  /* ---------- what stays when slabs are made and headers written ---------- */

  lemma {:induction false} PutRowMissing(s: State, f: nat, row: seq<nat>, x: nat, level: nat, page: nat)
    requires Inv(s) && f !in s.place && 1 <= level && OnPath(s, x, level, page) && Clean(s.mem, x, level, page)
    ensures Missing(PutRow(s, f, row).mem, x, level, page) == Missing(s.mem, x, level, page)
    decreases level
  {
    var e := Entry(s.mem, x, Index(page, level));
    assert Entry(PutRow(s, f, row).mem, x, Index(page, level)) == e;
    if level > 1 && Present(e) {
      ChildOnPath(s, x, level, page);
      PutRowMissing(s, f, row, Target(e), level - 1, page);
    }
  }

  /** The page tables, the heap's region and its large blocks are the same. */
  ghost predicate SameTables(h: Heap, h1: Heap) {
    && h1.vm.place == h.vm.place && h1.root == h.root && h1.vaddr == h.vaddr && h1.chunks == h.chunks
    && forall x :: x in h.vm.place ==> x in h.vm.mem && x in h1.vm.mem && h1.vm.mem[x] == h.vm.mem[x]
  }

  lemma {:induction false} SameTablesTransitive(a: Heap, b: Heap, c: Heap)
    requires SameTables(a, b) && SameTables(b, c)
    ensures SameTables(a, c)
  {
  }

  /** `heap_init` touches no page table and no large block. */
  lemma {:induction false} InitialisedTables(h: Heap, n: nat)
    requires HInv(h) && n <= CLASSES && h.chains == Boot.Unused()
    ensures SameTables(h, Boot.Initialised(h, n))
    decreases n
  {
    hide Grow, HInv, SameTables;
    if n == 0 {
      TablesStay(h);
    } else {
      InitialisedTables(h, n - 1);
      Boot.InitialisedKeeps(h, n - 1);
      var h1 := Boot.Initialised(h, n - 1);
      if CanGrow(h1, n - 1) {
        GrowTables(h1, n - 1);
        SameTablesTransitive(h, h1, Grow(h1, n - 1));
      }
    }
  }

  lemma {:induction false} TablesStay(h: Heap)
    requires HInv(h)
    ensures SameTables(h, h)
  {
    TablesInMemory(h);
  }

  lemma {:induction false} TablesInMemory(h: Heap)
    requires HInv(h)
    ensures forall x :: x in h.vm.place ==> x in h.vm.mem
  {
  }

  lemma {:induction false} GrowTables(h: Heap, c: nat)
    requires HInv(h) && CanGrow(h, c) && h.chains[c] == []
    ensures SameTables(h, Grow(h, c))
  {
    TablesInMemory(h);
    hide Grow, HInv, FreshRow;
    GrowMemory(h, c);
  }

  /* ---------- the run ---------- */

  /** The machine before `heap_init`: an empty root table in frame 1 and 522 free frames. */
  ghost function Machine(): Heap {
    var mem: Mem := map f: nat | f in Range(1, 523) :: Zeroes();
    var vm := State(mem, Range(2, 522), map[1 := RootPlace(1)]);
    Heap(vm, PAGE_SIZE, 524, 1, Boot.Unused(), map[], HEAP_BASE, map[], map[])
  }

  lemma {:induction false} MachineOk()
    ensures HInv(Machine()) && Machine().chains == Boot.Unused() && |Machine().vm.free| == 522
  {
    var h := Machine();
    RangeSize(2, 522);
    assert 1 in h.vm.mem && h.vm.mem[1] == Zeroes();
    forall v: nat | HEAP_BASE <= v < TOP
      ensures Walkable(h.vm, 1, v)
    {
      ZeroTable(h.vm.mem, 1, 4, PageNumber(v));
    }
    hide Missing;
    assert Inv(h.vm);
    assert Config(h) && FramesOk(h) && RegionOk(h) && ChunksOk(h) && SlabsOk(h);
  }

  /** After `heap_init`: a slab of every class, 516 frames left, no table but the root. */
  ghost function Start(): Heap {
    Boot.Initialised(Machine(), CLASSES)
  }

  lemma {:induction false} StartOk()
    ensures
      var h := Start();
      && HInv(h) && |h.vm.free| == 516 && h.vaddr == HEAP_BASE && h.root == 1 && h.chunks == map[]
      && 1 in h.vm.mem && h.vm.mem[1] == Zeroes()
  {
    hide HInv, Boot.Initialised;
    MachineOk();
    Boot.InitialisedKeeps(Machine(), CLASSES);
    InitialisedTables(Machine(), CLASSES);
  }

  /** A request for all but the last page of one page table. */
  const BIG: nat := 511 * 4096 - 24

  lemma {:induction false} BigNeeds()
    ensures HInv(Start()) && Roomy(Start(), 511) && PagesFor(BIG) == 511
    ensures Start().vaddr == HEAP_BASE && Start().root == 1
    ensures Needed(Start().vm, 1, HEAP_BASE, 511) == 514
    ensures forall p :: Missing(Start().vm.mem, 1, 4, p) == 3
  {
    hide HInv, Start;
    StartOk();
    FirstPageNumber();
    forall p
      ensures Missing(Start().vm.mem, 1, 4, p) == 3
    {
      ZeroTable(Start().vm.mem, 1, 4, p);
    }
    OneTableLacks(Start().vm.mem, 1, PageNumber(HEAP_BASE), 511);
  }

  /** Writing the header does not change what a page lacks. */
  lemma {:induction false} HeaderKeepsMissing(h: Heap, size: nat, v: nat)
    requires Roomy(h, PagesFor(size)) && size > 1024 && HEAP_BASE <= v < TOP
    ensures
      var vm1 := MapPages(h.vm, h.root, h.vaddr, PagesFor(size)).0;
      Missing(KmallocLarge(h, size).0.vm.mem, h.root, 4, PageNumber(v)) == Missing(vm1.mem, h.root, 4, PageNumber(v))
  {
    hide HInv, Inv, MapPages, AddData, HeaderRow, LeafWord, AllMapped, Missing, Clean;
    var n := PagesFor(size);
    RoomyFacts(h, n);
    FirstPage(h, size);
    MapPagesTree(h.vm, h.root, h.vaddr, n);
    var (vm1, frames, ok) := MapPages(h.vm, h.root, h.vaddr, n);
    if ok {
      TakenNotTables(h.vm, vm1, frames);
      assert Walkable(vm1, h.root, v);
      RootOnPath(vm1, h.root, PageNumber(v));
      PutRowMissing(vm1, frames[0], HeaderRow(vm1.mem[frames[0]], n, size), h.root, 4, PageNumber(v));
    }
  }

  ghost function AfterBig(): Heap
    requires Roomy(Start(), PagesFor(BIG))
  {
    KmallocLarge(Start(), BIG).0
  }

  /** Afterwards two frames are left, the last page of the table lacks nothing and the page after it one table. */
  lemma {:induction false} BigBlock()
    ensures Roomy(Start(), PagesFor(BIG))
    ensures
      var h := AfterBig();
      && HInv(h) && |h.vm.free| == 2 && h.vaddr == HEAP_BASE + 511 * PAGE_SIZE && h.root == 1
      && Missing(h.vm.mem, 1, 4, PageNumber(HEAP_BASE) + 511) == 0
      && Missing(h.vm.mem, 1, 4, PageNumber(HEAP_BASE) + 512) == 1
  {
    hide HInv, Inv, Start, KmallocLarge, Missing, Needed, Region, MapPages, Diverge, LeafWord;
    StartOk();
    BigNeeds();
    var h, page := Start(), PageNumber(HEAP_BASE);
    LargeOutcome(h, BIG);
    KmallocLargeKeeps(h, BIG);
    KmallocLargeCases(h, BIG);
    RoomyFacts(h, 511);
    MapPagesCost(h.vm, 1, HEAP_BASE, 511);
    var vm1 := MapPages(h.vm, 1, HEAP_BASE, 511).0;
    assert LacksAfter(h.vm, vm1, 1, page, 511, 511) && LacksAfter(h.vm, vm1, 1, page, 511, 512);
    FirstPageNumber();
    SameTable(page, 511);
    NextTable(page, page + 510);
    PageNumbers(HEAP_BASE, 511);
    PageNumbers(HEAP_BASE, 512);
    HeaderKeepsMissing(h, BIG, HEAP_BASE + PAGE_SIZE * 511);
    HeaderKeepsMissing(h, BIG, HEAP_BASE + PAGE_SIZE * 512);
  }

  lemma {:induction false} SmallNeeds()
    requires Roomy(Start(), PagesFor(BIG))
    ensures
      var h := AfterBig();
      Needed(h.vm, 1, h.vaddr, 1) == 1 && Needed(h.vm, 1, h.vaddr, 2) == 3
  {
    hide HInv, Inv, Start, AfterBig, Missing, Diverge, Roomy, Lacking, PageNumber;
    BigBlock();
    var h, page := AfterBig(), PageNumber(HEAP_BASE);
    PageNumbers(HEAP_BASE, 511);
    FirstPageNumber();
    NextTable(page, page + 511);
    TwoPagesLack(h.vm.mem, page + 511);
  }

  lemma {:induction false} TwoPagesLack(mem: Mem, p: nat)
    requires Missing(mem, 1, 4, p) == 0 && Missing(mem, 1, 4, p + 1) == 1 && Diverge(p + 1, p, 4) == 1
    ensures Lacking(mem, 1, p, 1) == 0 && Lacking(mem, 1, p, 2) == 1
  {
    hide Missing, Diverge;
    assert NewTables(mem, 1, p, 0) == 0 && NewTables(mem, 1, p, 1) == 1;
    assert Lacking(mem, 1, p, 0) == 0;
    assert Lacking(mem, 1, p, 1) == 0;
  }

  /** From the initialised heap, a large request and then one for 5000 bytes: the second is answered with a pointer
      although the last of its two pages is not mapped, and freeing that block gives back one frame. */
  lemma {:induction false} HalfMappedRun()
    ensures
      var start, ops := Start(), [Runs.Malloc(BIG), Runs.Malloc(5000)];
      && HInv(start) && Runs.IsRun(start, ops)
      && var h, h1 := Runs.RunAll(start, [Runs.Malloc(BIG)]), Runs.RunAll(start, ops);
      && Roomy(h, PagesFor(5000)) && KmallocLarge(h, 5000) == (h1, Pointer(h.vaddr + 24))
      && h.vaddr in h1.chunks && LeafWord(h1.vm, h1.root, h.vaddr + PAGE_SIZE) == 0
      && h1.vm.free == {} && |KfreeLarge(h1, h.vaddr).vm.free| == 1
  {
    hide HInv, Inv, Start, AfterBig, Needed, LeafWord, KmallocLarge, KfreeLarge, Elements;
    StartOk();
    BigNeeds();
    BigBlock();
    SmallNeeds();
    RunIs();
    SecondBlock(AfterBig());
  }

  lemma {:induction false} RunIs()
    requires HInv(Start()) && Roomy(Start(), PagesFor(BIG)) && Start().vaddr == HEAP_BASE
    requires HInv(AfterBig()) && AfterBig().vaddr == HEAP_BASE + 511 * PAGE_SIZE
    ensures
      var ops := [Runs.Malloc(BIG), Runs.Malloc(5000)];
      && Runs.IsRun(Start(), ops) && Runs.IsRun(Start(), [Runs.Malloc(BIG)])
      && Runs.RunAll(Start(), [Runs.Malloc(BIG)]) == AfterBig()
      && Roomy(AfterBig(), PagesFor(5000)) && Runs.RunAll(Start(), ops) == KmallocLarge(AfterBig(), 5000).0
  {
    hide HInv, Start, KmallocLarge;
    var one, two := Runs.Malloc(BIG), Runs.Malloc(5000);
    assert [one, two][1..] == [two] && [two][1..] == [] && [one][1..] == [];
    assert Runs.Apply(Start(), one) == AfterBig();
    assert Runs.IsRun(AfterBig(), [two]);
    Runs.ApplyKeeps(AfterBig(), two);
    var last := Runs.Apply(AfterBig(), two);
    assert Runs.RunAll(last, []) == last;
    assert Runs.RunAll(AfterBig(), [two]) == Runs.RunAll(last, [two][1..]);
    assert Runs.RunAll(Start(), [one, two]) == Runs.RunAll(AfterBig(), [one, two][1..]);
  }

  /** Two free frames where the second page lacks one table. */
  lemma {:induction false} SecondBlock(h: Heap)
    requires Roomy(h, PagesFor(5000)) && |h.vm.free| == 2
    requires Needed(h.vm, h.root, h.vaddr, 1) == 1 && Needed(h.vm, h.root, h.vaddr, 2) == 3
    ensures
      var (h1, r) := KmallocLarge(h, 5000);
      && r == Pointer(h.vaddr + 24) && h.vaddr in h1.chunks && LeafWord(h1.vm, h1.root, h.vaddr + PAGE_SIZE) == 0
      && h1.vm.free == {} && |KfreeLarge(h1, h.vaddr).vm.free| == 1
  {
    hide HInv, Inv, KmallocLarge, Needed, LeafWord, MapPages, KfreeLarge, Elements, Roomy;
    LargeOutcome(h, 5000);
    KmallocLargeKeeps(h, 5000);
    KmallocLargeCost(h, 5000);
    var h1 := KmallocLarge(h, 5000).0;
    KmallocLargeCases(h, 5000);
    ChunkBacked(h1, h.vaddr);
    KfreeLargeEffect(h1, h.vaddr);
    var frames := h1.chunks[h.vaddr].frames;
    assert KfreeLarge(h1, h.vaddr).vm.free == {} + Elements(frames);
    OneElement(frames);
  }

  lemma {:induction false} OneElement(s: seq<nat>)
    requires |s| == 1
    ensures |Elements(s)| == 1
  {
    assert Elements(s) == {s[0]};
  }
}
