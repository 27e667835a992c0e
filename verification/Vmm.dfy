/** The page-table code as it runs (kernel/src/mm/vmm.c): words of physical memory written in place, frames
    taken from the allocator. Each method is proved to do what the value-level operation says. */
module Vmm {
  import opened Common
  import opened Words
  import opened FrameAllocator
  import opened PageTables
  import opened AddressSpaces

  class PageMapper {
    const pmm: Pmm
    var mem: Mem
    ghost var place: map<nat, Place>

    ghost function Value(): State
      reads this, pmm, pmm.bitmap
    {
      State(mem, pmm.Free(), place)
    }

    ghost predicate Valid()
      reads this, pmm, pmm.bitmap
    {
      pmm.Valid() && Inv(Value())
    }

    /** The state the boot loader leaves: its page tables, in frames the allocator does not manage. */
    constructor (pmm: Pmm, mem: Mem, ghost place: map<nat, Place>)
      requires pmm.Valid() && Inv(State(mem, pmm.Free(), place))
      ensures Valid() && this.pmm == pmm && Value() == State(mem, pmm.Free(), place)
    {
      this.pmm := pmm;
      this.mem := mem;
      this.place := place;
    }

    /** `get_or_create`; None stands for the NULL it returns when the allocator is exhausted. */
    method FollowOrCreate(t: nat, index: nat, flags: nat, ghost s: State) returns (child: Option<nat>)
      requires Valid() && s == Value() && Linkable(s, t, index, flags)
      modifies this, pmm`freePages, pmm.bitmap
      ensures Valid()
      ensures (Value(), child) == GetOrCreate(s, t, index, flags)
    {
      hide FreeFrames, Inv, Linkable, Or;
      LinkReady(s, t, index, flags);
      var e := mem[t][index];
      if e % 2 == 1 {
        return Some(PageBase(e) / PAGE_SIZE);
      }
      var phys := pmm.Alloc();
      if phys == 0 {
        return None;
      }
      var f := phys / PAGE_SIZE;
      ClearFrame(f);
      mem := WriteEntry(mem, t, index, Or(phys, flags));
      place := place[f := ChildPlace(place[t], index)];
      return Some(f);
    }

    /** The zeroing loop of `get_or_create`. */
    method ClearFrame(f: nat)
      requires f in mem && |mem[f]| == ENTRIES
      modifies this`mem
      ensures mem == old(mem)[f := Zeroes()]
    {
      for i := 0 to ENTRIES
        invariant f in mem && |mem[f]| == ENTRIES && mem == old(mem)[f := mem[f]]
        invariant forall k :: 0 <= k < i ==> mem[f][k] == 0
      {
        mem := WriteEntry(mem, f, i, 0);
      }
      assert mem[f] == Zeroes();
    }

    /** `vmm_map`. It has no result: whether the leaf was written is not visible to the caller. */
    method Map(root: nat, virt: nat, phys: nat, flags: nat)
      requires Valid() && Walkable(Value(), root, virt)
      modifies this, pmm`freePages, pmm.bitmap
      ensures Valid()
      ensures Value() == VmmMap(old(Value()), root, virt, phys, flags).0
    {
      var tableFlags := if flags / USER % 2 == 1 then PRESENT + WRITE + USER else PRESENT + WRITE;
      IndexIsField(virt);
      WalkableIsMappable(Value(), root, virt, flags);
      hide *;
      MapEntries(root, virt / 0x80_0000_0000 % 512, virt / 0x4000_0000 % 512, virt / 0x20_0000 % 512,
                 virt / 0x1000 % 512, Or(phys, flags), tableFlags, PageNumber(virt));
    }

    /** The body of `vmm_map` once the four indices are split off. */
    method MapEntries(
      root: nat, pml4Idx: nat, pdptIdx: nat, pdIdx: nat, ptIdx: nat, w: nat, flags: nat, ghost page: nat)
      requires Valid() && Mappable(Value(), root, 4, page, flags)
      requires pml4Idx == Index(page, 4) && pdptIdx == Index(page, 3) && pdIdx == Index(page, 2)
      requires ptIdx == Index(page, 1)
      modifies this, pmm`freePages, pmm.bitmap
      ensures Valid()
      ensures Value() == MapFrom(old(Value()), root, 4, page, w, flags).0
    {
      ghost var s := Value();
      hide Inv, MapFrom, GetOrCreate, Mappable, Linkable, Index, FreeFrames, WriteEntry;
      Descend(s, root, 4, page, w, flags);
      var pdpt := FollowOrCreate(root, pml4Idx, flags, s);
      if pdpt == None {
        return;
      }
      Descend(Value(), pdpt.value, 3, page, w, flags);
      var pd := FollowOrCreate(pdpt.value, pdptIdx, flags, Value());
      if pd == None {
        return;
      }
      Descend(Value(), pd.value, 2, page, w, flags);
      var pt := FollowOrCreate(pd.value, pdIdx, flags, Value());
      if pt == None {
        return;
      }
      Leaf(Value(), pt.value, page, w, flags);
      mem := WriteEntry(mem, pt.value, ptIdx, w);
    }

    /** The three guarded steps `vmm_unmap` and `vmm_get_phys` share: the last-level table, if all are present. */
    method Walk(root: nat, virt: nat) returns (pt: Option<nat>)
      requires Valid() && Walkable(Value(), root, virt)
      ensures pt == LastTable(mem, root, 4, PageNumber(virt))
      ensures pt.Some? ==> pt.value in mem && |mem[pt.value]| == ENTRIES && pt.value in place
    {
      hide Inv, Clean, Index, PageNumber, OnPath, FreeFrames;
      ghost var s, page := Value(), PageNumber(virt);
      WalkReady(s, root, virt);
      var e4 := mem[root][virt / 0x80_0000_0000 % 512];
      if e4 % 2 == 0 {
        return None;
      }
      var pdpt := PageBase(e4) / PAGE_SIZE;
      StepOk(s, pdpt, 3, page);
      var e3 := mem[pdpt][virt / 0x4000_0000 % 512];
      if e3 % 2 == 0 {
        return None;
      }
      var pd := PageBase(e3) / PAGE_SIZE;
      StepOk(s, pd, 2, page);
      var e2 := mem[pd][virt / 0x20_0000 % 512];
      if e2 % 2 == 0 {
        return None;
      }
      return Some(PageBase(e2) / PAGE_SIZE);
    }

    /** The leaf word, as the processor reads it when the address is used. */
    method ReadLeaf(root: nat, virt: nat) returns (w: nat)
      requires Valid() && Walkable(Value(), root, virt)
      ensures w == LeafWord(Value(), root, virt)
    {
      var pt := Walk(root, virt);
      LookupIsLastEntry(mem, root, 4, PageNumber(virt));
      if pt == None {
        return 0;
      }
      IndexIsField(virt);
      return mem[pt.value][virt / 0x1000 % 512];
    }

    /** `vmm_get_phys`. */
    method Translate(root: nat, virt: nat) returns (phys: nat)
      requires Valid() && Walkable(Value(), root, virt)
      ensures phys == GetPhys(Value(), root, virt)
    {
      var pt := Walk(root, virt);
      LookupIsLastEntry(mem, root, 4, PageNumber(virt));
      if pt == None {
        return 0;
      }
      IndexIsField(virt);
      return PageBase(mem[pt.value][virt / 0x1000 % 512]);
    }

    /** `vmm_unmap`, without the TLB invalidation. */
    method Unmap(root: nat, virt: nat)
      requires Valid() && Walkable(Value(), root, virt)
      modifies this`mem
      ensures Valid()
      ensures Value() == VmmUnmap(old(Value()), root, virt)
    {
      UnmapOutcome(Value(), root, virt);
      var pt := Walk(root, virt);
      if pt == None {
        return;
      }
      IndexIsField(virt);
      hide Inv, Extends, PageNumber, Index, LastTable;
      mem := WriteEntry(mem, pt.value, virt / 0x1000 % 512, 0);
    }

    /** `vmm_new_pagemap`; `current` is the root in CR3. */
    method NewPagemap(current: nat, ghost s: State) returns (root: nat)
      requires Valid() && s == Value() && IsRoot(s, current) && s.free != {}
      modifies this, pmm`freePages, pmm.bitmap
      ensures Valid()
      ensures (Value(), root) == VmmNewPagemap(s, current)
    {
      hide Inv, FreeFrames, CopiedRoot, Extends;
      FreeFrameReady(s);
      NewPagemapKeepsTree(s, current);
      TableSize(s, current);
      var phys := pmm.Alloc();
      root := phys / PAGE_SIZE;
      CopyUpperHalf(root, current);
      place := place[root := RootPlace(root)];
    }

    /** The copy loop of `vmm_new_pagemap`. */
    method CopyUpperHalf(root: nat, current: nat)
      requires root in mem && |mem[root]| == ENTRIES && current in mem && |mem[current]| == ENTRIES && root != current
      modifies this`mem
      ensures mem == old(mem)[root := CopiedRoot(old(mem)[current])]
    {
      ghost var copy := CopiedRoot(mem[current]);
      for i := 0 to ENTRIES
        invariant root in mem && |mem[root]| == ENTRIES && mem == old(mem)[root := mem[root]]
        invariant forall k :: 0 <= k < i ==> mem[root][k] == copy[k]
      {
        if i >= 256 {
          mem := WriteEntry(mem, root, i, mem[current][i]);
        } else {
          mem := WriteEntry(mem, root, i, 0);
        }
      }
      assert mem[root] == copy;
    }
  }

  lemma {:induction false} WalkReady(s: State, root: nat, virt: nat)
    requires Inv(s) && Walkable(s, root, virt)
    ensures
      var page := PageNumber(virt);
      && virt / 0x80_0000_0000 % 512 == Index(page, 4) && virt / 0x4000_0000 % 512 == Index(page, 3)
      && virt / 0x20_0000 % 512 == Index(page, 2)
      && root in s.mem && |s.mem[root]| == ENTRIES
      && (var e := Entry(s.mem, root, Index(page, 4));
          Present(e) ==> OnPath(s, Target(e), 3, page) && Clean(s.mem, Target(e), 3, page))
      && (LastTable(s.mem, root, 4, page).Some? ==>
            var pt := LastTable(s.mem, root, 4, page).value;
            pt in s.mem && |s.mem[pt]| == ENTRIES && pt in s.place)
  {
    var page := PageNumber(virt);
    RootOnPath(s, root, page);
    IndexIsField(virt);
    StepOk(s, root, 4, page);
    if LastTable(s.mem, root, 4, page).Some? {
      LastTablePlace(s, root, 4, page);
    }
  }

  lemma {:induction false} StepOk(s: State, t: nat, level: nat, page: nat)
    requires Inv(s) && level > 1 && OnPath(s, t, level, page) && Clean(s.mem, t, level, page)
    ensures t in s.mem && |s.mem[t]| == ENTRIES
    ensures
      var e := Entry(s.mem, t, Index(page, level));
      Present(e) ==> OnPath(s, Target(e), level - 1, page) && Clean(s.mem, Target(e), level - 1, page)
  {
    if Present(Entry(s.mem, t, Index(page, level))) {
      ChildOnPath(s, t, level, page);
    }
  }

  lemma {:induction false} LookupIsLastEntry(mem: Mem, t: nat, level: nat, page: nat)
    requires level >= 1
    ensures Lookup(mem, t, level, page)
         == match LastTable(mem, t, level, page)
            case None => 0
            case Some(pt) => Entry(mem, pt, Index(page, 1))
    decreases level
  {
    var e := Entry(mem, t, Index(page, level));
    if level > 1 && Present(e) {
      LookupIsLastEntry(mem, Target(e), level - 1, page);
    }
  }

  /** Frame 0 is never free, so the 0 that `pmm_alloc` returns can only mean that it is exhausted. */
  lemma {:induction false} FreeFrameReady(s: State)
    requires Inv(s) && s.free != {}
    ensures Lowest(s.free) > 0 && Lowest(s.free) in s.mem && |s.mem[Lowest(s.free)]| == ENTRIES
    ensures Lowest(s.free) !in s.place
  {
  }

  lemma {:induction false} LinkReady(s: State, t: nat, i: nat, flags: nat)
    requires Linkable(s, t, i, flags)
    ensures t in s.place && t in s.mem && |s.mem[t]| == ENTRIES && s.place[t].level >= 1 && i < ENTRIES
    ensures Inv(GetOrCreate(s, t, i, flags).0)
    ensures s.free != {} ==>
              Lowest(s.free) > 0 && Lowest(s.free) in s.mem && |s.mem[Lowest(s.free)]| == ENTRIES && Lowest(s.free) != t
  {
    hide GetOrCreate;
    LinkKeepsTree(s, t, i, flags);
  }

  /** One level of the descent, as an equation on `MapFrom`. */
  lemma {:induction false} Descend(s: State, t: nat, level: nat, page: nat, w: nat, flags: nat)
    requires Mappable(s, t, level, page, flags) && level > 1
    ensures Linkable(s, t, Index(page, level), flags)
    ensures t in s.place && t in s.mem && |s.mem[t]| == ENTRIES && s.place[t].level >= 1
    ensures
      var (s1, c) := GetOrCreate(s, t, Index(page, level), flags);
      match c
      case None => MapFrom(s, t, level, page, w, flags) == (s1, false)
      case Some(x) =>
        && Mappable(s1, x, level - 1, page, flags)
        && MapFrom(s, t, level, page, w, flags) == MapFrom(s1, x, level - 1, page, w, flags)
  {
    TableSize(s, t);
    MapStep(s, t, level, page, flags);
    hide Mappable, Linkable, Inv, Extends, Clean, GetOrCreate, Missing;
  }

  lemma {:induction false} Leaf(s: State, t: nat, page: nat, w: nat, flags: nat)
    requires Mappable(s, t, 1, page, flags)
    ensures t in s.mem && |s.mem[t]| == ENTRIES
    ensures MapFrom(s, t, 1, page, w, flags) == (s.(mem := WriteEntry(s.mem, t, Index(page, 1), w)), true)
    ensures Inv(s.(mem := WriteEntry(s.mem, t, Index(page, 1), w)))
  {
    LeafKeepsTree(s, t, Index(page, 1), w);
  }
}
