/** What a large `kmalloc` (kernel/src/mm/heap.c) needs, counted on the state before the call: frames for the pages and
    the page tables that consecutive pages lack. */
module BlockCost {
  import opened Common
  import opened Words
  import opened FrameAllocator
  import opened PageTables
  import opened AddressSpaces
  import opened Slabs
  import opened HeapState
  import opened SlabHeap
  import opened LargeHeap

  /* ---------- tables lacking after a neighbour was mapped ---------- */

  /** How many of the tables below `level` two pages do not share. */
  function Diverge(p: nat, q: nat, level: nat): (d: nat)
    requires level >= 1
    ensures d <= level - 1
    decreases level
  {
    if level == 1 then 0
    else if Prefix(p, level - 1) != Prefix(q, level - 1) then level - 1
    else Diverge(p, q, level - 1)
  }

  function Min(a: nat, b: nat): nat {
    if a < b then a else b
  }

  lemma {:induction false} PrefixMonotone(p: nat, q: nat, level: nat)
    requires p <= q
    ensures Prefix(p, level) <= Prefix(q, level)
    decreases level
  {
    if level > 0 { PrefixMonotone(p, q, level - 1); }
  }

  /** Of two pages below `p`, the nearer one shares at least as many tables with it. */
  lemma {:induction false} DivergeNearer(p: nat, q: nat, r: nat, level: nat)
    requires r <= q <= p && level >= 1
    ensures Diverge(p, q, level) <= Diverge(p, r, level)
    decreases level
  {
    if level > 1 {
      PrefixMonotone(r, q, level - 1);
      PrefixMonotone(q, p, level - 1);
      DivergeNearer(p, q, r, level - 1);
    }
  }

  /** Linking a table changes how much another page lacks only if that page goes through the new table. */
  lemma {:induction false} LinkKeepsMissing(s: State, t: nat, i: nat, flags: nat, x: nat, level: nat, page: nat)
    requires Linkable(s, t, i, flags)
    requires 1 <= level && OnPath(s, x, level, page) && Clean(s.mem, x, level, page)
    requires Prefix(page, s.place[t].level - 1) != s.place[t].prefix * ENTRIES + i
    ensures Missing(GetOrCreate(s, t, i, flags).0.mem, x, level, page) == Missing(s.mem, x, level, page)
    decreases level
  {
    var (s1, c) := GetOrCreate(s, t, i, flags);
    if s1 != s && level > 1 {
      var k := Index(page, level);
      assert Prefix(page, level - 1) == Prefix(page, level) * ENTRIES + k;
      assert Entry(s1.mem, x, k) == Entry(s.mem, x, k);
      if Present(Entry(s.mem, x, k)) {
        ChildOnPath(s, x, level, page);
        LinkKeepsMissing(s, t, i, flags, Target(Entry(s.mem, x, k)), level - 1, page);
      }
    }
  }

  lemma {:induction false} LeafKeepsMissing(s: State, pt: nat, i: nat, w: nat, x: nat, level: nat, page: nat)
    requires Inv(s) && pt in s.place && s.place[pt].level == 1 && i < ENTRIES
    requires 1 <= level && OnPath(s, x, level, page) && Clean(s.mem, x, level, page)
    ensures Missing(WriteEntry(s.mem, pt, i, w), x, level, page) == Missing(s.mem, x, level, page)
    decreases level
  {
    if level > 1 {
      var mem, e := WriteEntry(s.mem, pt, i, w), Entry(s.mem, x, Index(page, level));
      assert Entry(mem, x, Index(page, level)) == e;
      if Present(e) {
        ChildOnPath(s, x, level, page);
        LeafKeepsMissing(s, pt, i, w, Target(e), level - 1, page);
      }
    }
  }

  /** Mapping one page leaves what another page lacks alone when they part above the table it starts from. */
  lemma {:induction false} ApartKeepsMissing(
    s: State, t: nat, level: nat, q: nat, w: nat, flags: nat, x: nat, xlevel: nat, p: nat)
    requires Mappable(s, t, level, q, flags) && Prefix(p, level - 1) != Prefix(q, level - 1)
    requires 1 <= xlevel && OnPath(s, x, xlevel, p) && Clean(s.mem, x, xlevel, p)
    ensures Missing(MapFrom(s, t, level, q, w, flags).0.mem, x, xlevel, p) == Missing(s.mem, x, xlevel, p)
    decreases level
  {
    hide Inv, Extends, GetOrCreate, Clean;
    TableSize(s, t);
    if level == 1 {
      LeafKeepsMissing(s, t, Index(q, 1), w, x, xlevel, p);
    } else {
      var i := Index(q, level);
      var (s1, c) := GetOrCreate(s, t, i, flags);
      MapStep(s, t, level, q, flags);
      assert Prefix(q, level - 1) == Prefix(q, level) * ENTRIES + i;
      LinkKeepsMissing(s, t, i, flags, x, xlevel, p);
      LinkKeepsLookups(s, t, i, flags, x, xlevel, p);
      if c.Some? {
        LinkKeepsTree(s, t, i, flags);
        assert Prefix(p, level - 1) == Prefix(p, level - 2) / ENTRIES;
        ApartKeepsMissing(s1, c.value, level - 1, q, w, flags, x, xlevel, p);
      }
    }
  }

  /** After page `q` is mapped, page `p` lacks what it lacked before, but no table it shares with `q`. */
  lemma {:induction false} MissingAfterMap(s: State, t: nat, level: nat, q: nat, w: nat, flags: nat, p: nat)
    requires Mappable(s, t, level, q, flags) && OnPath(s, t, level, p) && Clean(s.mem, t, level, p)
    requires MapFrom(s, t, level, q, w, flags).1
    ensures Missing(MapFrom(s, t, level, q, w, flags).0.mem, t, level, p)
         == Min(Missing(s.mem, t, level, p), Diverge(p, q, level))
    decreases level
  {
    hide Inv, Extends, GetOrCreate, Clean, Mappable;
    if level > 1 {
      if Prefix(p, level - 1) != Prefix(q, level - 1) {
        ApartKeepsMissing(s, t, level, q, w, flags, t, level, p);
        MissingBound(s.mem, t, level, p);
      } else {
        SharedStep(s, t, level, q, w, flags, p);
      }
    }
  }

  /** The table followed or created for one page is on the way of every page with the same index. */
  lemma {:induction false} SharedChild(s: State, t: nat, level: nat, i: nat, flags: nat, p: nat)
    requires Linkable(s, t, i, flags) && level > 1 && OnPath(s, t, level, p) && Clean(s.mem, t, level, p)
    requires i == Index(p, level) && GetOrCreate(s, t, i, flags).1.Some?
    ensures
      var (s1, c) := GetOrCreate(s, t, i, flags);
      && OnPath(s1, c.value, level - 1, p) && Clean(s1.mem, c.value, level - 1, p)
      && Missing(s.mem, t, level, p)
         == (if Present(Entry(s.mem, t, i)) then Missing(s1.mem, c.value, level - 1, p) else level - 1)
      && (!Present(Entry(s.mem, t, i)) ==> Missing(s1.mem, c.value, level - 1, p) == level - 2)
  {
    hide Inv, Extends;
    TableSize(s, t);
    var (s1, c) := GetOrCreate(s, t, i, flags);
    LinkKeepsTree(s, t, i, flags);
    LinkKeepsLookups(s, t, i, flags, t, level, p);
    LinkCost(s, t, i, flags);
    if !Present(Entry(s.mem, t, i)) { ZeroTable(s1.mem, c.value, level - 1, p); }
  }

  lemma {:induction false} SharedStep(s: State, t: nat, level: nat, q: nat, w: nat, flags: nat, p: nat)
    requires Mappable(s, t, level, q, flags) && OnPath(s, t, level, p) && Clean(s.mem, t, level, p) && level > 1
    requires MapFrom(s, t, level, q, w, flags).1 && Prefix(p, level - 1) == Prefix(q, level - 1)
    ensures Missing(MapFrom(s, t, level, q, w, flags).0.mem, t, level, p)
         == Min(Missing(s.mem, t, level, p), Diverge(p, q, level))
    decreases level, 0
  {
    hide Inv, Extends, GetOrCreate;
    var i := Index(q, level);
    TableSize(s, t);
    var (s1, c) := GetOrCreate(s, t, i, flags);
    MapStep(s, t, level, q, flags);
    LinkKeepsTree(s, t, i, flags);
    SharedChild(s, t, level, i, flags, p);
    MissingAfterMap(s1, c.value, level - 1, q, w, flags, p);
    MapCost(s1, c.value, level - 1, q, w, flags);
    PresentEntryKept(s1, MapFrom(s1, c.value, level - 1, q, w, flags).0, t, i);
  }

  /* ---------- the tables that consecutive pages lack ---------- */

  /** The tables that page `i` of the block lacks and the page before it does not already need. */
  function NewTables(mem: Mem, root: nat, page: nat, i: nat): nat {
    var lacking := Missing(mem, root, 4, page + i);
    if i == 0 then lacking else Min(lacking, Diverge(page + i, page + i - 1, 4))
  }

  /** The tables that `n` consecutive pages lack. */
  function Lacking(mem: Mem, root: nat, page: nat, n: nat): nat {
    if n == 0 then 0 else Lacking(mem, root, page, n - 1) + NewTables(mem, root, page, n - 1)
  }

  /** The frames that `n` pages from `base` need: one each, and the tables they lack. */
  function Needed(vm: State, root: nat, base: nat, n: nat): nat {
    n + Lacking(vm.mem, root, PageNumber(base), n)
  }

  ghost predicate Block(vm: State, root: nat, base: nat, n: nat) {
    && Inv(vm) && Region(vm, root) && HEAP_BASE <= base && base % PAGE_SIZE == 0 && base + PAGE_SIZE * n <= TOP
  }

  lemma {:induction false} PageNumbers(base: nat, i: nat)
    requires HEAP_BASE <= base && base + PAGE_SIZE * i < TOP
    ensures PageNumber(base + PAGE_SIZE * i) == PageNumber(base) + i
  {
    var q := base / PAGE_SIZE;
    assert (base + PAGE_SIZE * i) / PAGE_SIZE == q + i;
    assert PAGE_COUNT * 0xFFFF <= q && q + i < PAGE_COUNT * 0x1_0000;
    assert q / PAGE_COUNT == 0xFFFF && (q + i) / PAGE_COUNT == 0xFFFF;
  }

  /** Page `j` after `n` pages were mapped: it lacks what it lacked before, but no table it shares with the last of
      them. */
  ghost predicate LacksAfter(vm: State, vm1: State, root: nat, page: nat, n: nat, j: nat) {
    Missing(vm1.mem, root, 4, page + j)
    == if n == 0 then Missing(vm.mem, root, 4, page + j)
       else Min(Missing(vm.mem, root, 4, page + j), Diverge(page + j, page + n - 1, 4))
  }

  /** One more page, mapped: the later pages lack less. */
  lemma {:induction false} LacksStep(vm: State, vm1: State, root: nat, base: nat, n: nat, j: nat)
    requires Block(vm1, root, base, j + 1) && n <= j && vm1.free != {}
    requires LacksAfter(vm, vm1, root, PageNumber(base), n, j)
    requires PageStep(vm1, root, base + PAGE_SIZE * n).1
    ensures LacksAfter(vm, PageStep(vm1, root, base + PAGE_SIZE * n).0, root, PageNumber(base), n + 1, j)
  {
    hide Inv, Region, Missing, Diverge, VmmMap, Walkable;
    var page, f := PageNumber(base), Lowest(vm1.free);
    var vm0 := vm1.(free := vm1.free - {f});
    PageStepTree(vm1, root, base + PAGE_SIZE * n);
    PageNumbers(base, n);
    PageNumbers(base, j);
    RegionWalk(vm1, root, base + PAGE_SIZE * j);
    MapLacks(vm0, root, base + PAGE_SIZE * n, f * PAGE_SIZE, KERNEL_PAGE, base + PAGE_SIZE * j);
    if n > 0 { DivergeNearer(page + j, page + n, page + n - 1, 4); }
  }

  lemma {:induction false} RegionWalk(vm: State, root: nat, v: nat)
    requires Region(vm, root) && HEAP_BASE <= v < TOP && vm.free != {}
    ensures Walkable(vm, root, v) && Walkable(vm.(free := vm.free - {Lowest(vm.free)}), root, v)
  {
  }

  lemma {:induction false} MapLacks(s: State, root: nat, virt: nat, phys: nat, flags: nat, v: nat)
    requires Inv(s) && Walkable(s, root, virt) && Walkable(s, root, v) && VmmMap(s, root, virt, phys, flags).1
    ensures Missing(VmmMap(s, root, virt, phys, flags).0.mem, root, 4, PageNumber(v))
         == Min(Missing(s.mem, root, 4, PageNumber(v)), Diverge(PageNumber(v), PageNumber(virt), 4))
  {
    hide Inv, Missing, Diverge, MapFrom;
    WalkableIsMappable(s, root, virt, flags);
    RootOnPath(s, root, PageNumber(v));
    MissingAfterMap(s, root, 4, PageNumber(virt), Or(phys, flags), TableFlags(flags), PageNumber(v));
  }

  /** While the frames suffice, the loop maps every page, at the cost counted before it started. */
  lemma {:induction false} MapPagesCost(vm: State, root: nat, base: nat, n: nat)
    requires Block(vm, root, base, n) && Needed(vm, root, base, n) <= |vm.free|
    ensures
      var (vm1, frames, ok) := MapPages(vm, root, base, n);
      && ok && |vm1.free| == |vm.free| - Needed(vm, root, base, n) && AllMapped(vm1, root, base, frames)
      && forall j: nat :: n <= j && base + PAGE_SIZE * (j + 1) <= TOP ==>
          LacksAfter(vm, vm1, root, PageNumber(base), n, j)
    decreases n
  {
    hide Inv, Region, Missing, Diverge, PageStep, LeafWord, LacksAfter;
    if n == 0 {
      LacksAtFirst(vm, root, PageNumber(base));
    } else {
      MapPagesCost(vm, root, base, n - 1);
      var (vm1, frames, _) := MapPages(vm, root, base, n - 1);
      MapPagesTree(vm, root, base, n - 1);
      var virt, page := base + PAGE_SIZE * (n - 1), PageNumber(base);
      PageNumbers(base, n - 1);
      assert LacksAfter(vm, vm1, root, page, n - 1, n - 1);
      LacksNow(vm, vm1, root, page, n - 1);
      PageStepCost(vm1, root, virt);
      LastPage(vm1, root, base, n, frames);
      forall j: nat | n <= j && base + PAGE_SIZE * (j + 1) <= TOP
        ensures LacksAfter(vm, PageStep(vm1, root, virt).0, root, page, n, j)
      {
        LacksStep(vm, vm1, root, base, n - 1, j);
      }
    }
  }

  lemma {:induction false} LacksAtFirst(vm: State, root: nat, page: nat)
    ensures forall j: nat :: LacksAfter(vm, vm, root, page, 0, j)
  {
  }

  lemma {:induction false} LacksNow(vm: State, vm1: State, root: nat, page: nat, n: nat)
    requires LacksAfter(vm, vm1, root, page, n, n)
    ensures Missing(vm1.mem, root, 4, page + n) == NewTables(vm.mem, root, page, n)
  {
  }

  /** When the frames do not suffice the allocator ends empty, and there was a frame for every page exactly when all
      pages but the last could be mapped and one frame was left. */
  lemma {:induction false} MapPagesShort(vm: State, root: nat, base: nat, n: nat)
    requires Block(vm, root, base, n) && Needed(vm, root, base, n) > |vm.free| && 0 !in vm.free
    ensures
      var (vm1, frames, ok) := MapPages(vm, root, base, n);
      && n >= 1 && vm1.free == {}
      && (ok <==> Needed(vm, root, base, n - 1) < |vm.free|)
      && (ok ==> |frames| == n && !AllMapped(vm1, root, base, frames)
                 && (CanStore(vm1, root, base) <==> n > 1))
    decreases n
  {
    hide Inv, Region, Missing, Diverge, PageStep, LeafWord, LacksAfter;
    var (vm1, frames, ok) := MapPages(vm, root, base, n - 1);
    if Needed(vm, root, base, n - 1) > |vm.free| {
      MapPagesShort(vm, root, base, n - 1);
    } else {
      MapPagesCost(vm, root, base, n - 1);
      MapPagesTree(vm, root, base, n - 1);
      if vm1.free != {} {
        var virt, page := base + PAGE_SIZE * (n - 1), PageNumber(base);
        PageNumbers(base, n - 1);
        assert LacksAfter(vm, vm1, root, page, n - 1, n - 1);
        LacksNow(vm, vm1, root, page, n - 1);
        PageStepCost(vm1, root, virt);
        TakenNotZero(vm, vm1, frames);
        LastPageOutcome(vm1, root, base, n, frames);
      }
    }
  }

  lemma {:induction false} TakenNotZero(s: State, s1: State, frames: seq<nat>)
    requires Takes(s, s1, frames) && 0 !in s.free
    ensures 0 !in frames
  {
  }

  /* ---------- the outcome of a large kmalloc ---------- */

  /** `vmm_map` cannot report failure, so a large `kmalloc` can hand out a block whose last page is not mapped. The
      outcome is decided by the free frames before the call. With enough for the pages and the tables they lack, all
      pages are mapped. With too few, but enough for every page but the last one and a frame for the last page, the last
      page is left unmapped: the block is handed out, or, when it has only that page, its header faults. With fewer
      still the result is NULL. In both failing cases every frame is gone. */
  lemma {:induction false} LargeOutcome(h: Heap, size: nat)
    requires Roomy(h, PagesFor(size)) && size > 1024
    ensures
      var n, free := PagesFor(size), |h.vm.free|;
      var needed := Needed(h.vm, h.root, h.vaddr, n);
      var (h1, r) := KmallocLarge(h, size);
      && n >= 1
      && var before := Needed(h.vm, h.root, h.vaddr, n - 1);
      && before < needed
      && (free >= needed ==>
            && r == Pointer(h.vaddr + 24) && h.vaddr in h1.chunks && |h1.chunks[h.vaddr].frames| == n
            && |h1.vm.free| == free - needed)
      && (before < free < needed ==>
            && h1.vm.free == {}
            && if n == 1 then r == Fault
               else r == Pointer(h.vaddr + 24) && h.vaddr in h1.chunks && |h1.chunks[h.vaddr].frames| == n - 1)
      && (free <= before ==> r == Null && h1.vm.free == {})
  {
    hide HInv, Inv, Region, KmallocLarge, LeafWord, PagesFor, MapPages, Roomy, Lacking;
    var n := PagesFor(size);
    FirstPage(h, size);
    RoomyFacts(h, n);
    SomePages(size);
    LackingGrows(h.vm, h.root, h.vaddr, n);
    KmallocLargeCases(h, size);
    var (vm1, frames, ok) := MapPages(h.vm, h.root, h.vaddr, n);
    if Needed(h.vm, h.root, h.vaddr, n) <= |h.vm.free| {
      MapPagesCost(h.vm, h.root, h.vaddr, n);
      assert PageMapped(vm1, h.root, h.vaddr, frames, 0);
    } else {
      MapPagesShort(h.vm, h.root, h.vaddr, n);
    }
  }

  lemma {:induction false} SomePages(size: nat)
    ensures PagesFor(size) >= 1
  {
  }

  lemma {:induction false} LackingGrows(vm: State, root: nat, base: nat, n: nat)
    requires n >= 1
    ensures Needed(vm, root, base, n - 1) < Needed(vm, root, base, n)
  {
  }
}
