/** What the page-table operations do to translations: `vmm_map`, `vmm_unmap` and `vmm_new_pagemap` refine
    updates of a plain map from page number to physical page, one map per root. */
module AddressSpaces {
  import opened Common
  import opened Words
  import opened FrameAllocator
  import opened PageTables

  /** A mapping is seen by the walks of the same page that end in the same last-level table, from whatever
      table they start; every other translation, and every translation when the mapping fails, is unchanged. */
  lemma {:induction false} MapLookups(
    s: State, t: nat, level: nat, page: nat, w: nat, flags: nat, x: nat, xlevel: nat, q: nat)
    requires Mappable(s, t, level, page, flags)
    requires 1 <= xlevel && OnPath(s, x, xlevel, q) && Clean(s.mem, x, xlevel, q)
    ensures
      var (s1, ok) := MapFrom(s, t, level, page, w, flags);
      && Clean(s1.mem, x, xlevel, q)
      && (ok ==> LastTable(s1.mem, t, level, page).Some?)
      && Lookup(s1.mem, x, xlevel, q)
         == if ok && q == page && LastTable(s1.mem, x, xlevel, q) == LastTable(s1.mem, t, level, page) then w
            else Lookup(s.mem, x, xlevel, q)
    decreases level
  {
    hide Inv, Extends, GetOrCreate;
    if level == 1 {
      LeafHit(s, t, page, w, x, xlevel, q);
    } else {
      var i := Index(page, level);
      TableSize(s, t);
      var (s1, c) := GetOrCreate(s, t, i, flags);
      MapStep(s, t, level, page, flags);
      LinkKeepsLookups(s, t, i, flags, x, xlevel, q);
      if c.Some? {
        LinkKeepsTree(s, t, i, flags);
        MapLookups(s1, c.value, level - 1, page, w, flags, x, xlevel, q);
        MapCost(s1, c.value, level - 1, page, w, flags);
        PresentEntryKept(s1, MapFrom(s1, c.value, level - 1, page, w, flags).0, t, i);
      }
    }
  }

  lemma {:induction false} LeafHit(s: State, pt: nat, page: nat, w: nat, x: nat, level: nat, q: nat)
    requires Inv(s) && OnPath(s, pt, 1, page)
    requires 1 <= level && OnPath(s, x, level, q) && Clean(s.mem, x, level, q)
    ensures
      var mem := WriteEntry(s.mem, pt, Index(page, 1), w);
      && Clean(mem, x, level, q)
      && Lookup(mem, x, level, q)
         == if q == page && LastTable(mem, x, level, q) == Some(pt) then w else Lookup(s.mem, x, level, q)
  {
    LeafLookups(s, pt, Index(page, 1), w, x, level, q);
    if LastTable(s.mem, x, level, q) == Some(pt) && Index(q, 1) == Index(page, 1) {
      LastTablePlace(s, x, level, q);
      assert Prefix(q, 1) == Prefix(page, 1);
    }
  }

  lemma {:induction false} PresentEntryKept(s: State, s1: State, t: nat, i: nat)
    requires Extends(s, s1) && t in s.place && s.place[t].level > 1 && Present(Entry(s.mem, t, i))
    ensures Entry(s1.mem, t, i) == Entry(s.mem, t, i)
  {
  }

  /* ---------- the operations on a root ---------- */

  /** The leaf word of an address: the frame and all flag bits; 0 when the walk does not reach a last-level table. */
  function LeafWord(s: State, root: nat, virt: nat): nat {
    Lookup(s.mem, root, 4, PageNumber(virt))
  }

  /** `vmm_get_phys`: the leaf word without its low twelve bits. The PRESENT bit of the last entry is not looked at. */
  function GetPhys(s: State, root: nat, virt: nat): nat {
    PageBase(LeafWord(s, root, virt))
  }

  /** `vmm_map`, with whether it reached the leaf (the code returns nothing). */
  ghost function VmmMap(s: State, root: nat, virt: nat, phys: nat, flags: nat): (State, bool) {
    MapFrom(s, root, 4, PageNumber(virt), Or(phys, flags), TableFlags(flags))
  }

  /** `vmm_unmap`. */
  function VmmUnmap(s: State, root: nat, virt: nat): State {
    var page := PageNumber(virt);
    match LastTable(s.mem, root, 4, page)
    case Some(pt) =>
      if pt in s.mem && |s.mem[pt]| == ENTRIES then s.(mem := WriteEntry(s.mem, pt, Index(page, 1), 0)) else s
    case None => s
  }

  function CopiedRoot(current: seq<nat>): seq<nat>
    requires |current| == ENTRIES
  {
    seq(ENTRIES, i requires 0 <= i < ENTRIES => if i >= 256 then current[i] else 0)
  }

  /** `vmm_new_pagemap` when the allocator has a frame. */
  ghost function VmmNewPagemap(s: State, current: nat): (State, nat)
    requires s.free != {} && current in s.mem && |s.mem[current]| == ENTRIES
  {
    var f := Lowest(s.free);
    (State(s.mem[f := CopiedRoot(s.mem[current])], s.free - {f}, s.place[f := RootPlace(f)]), f)
  }

  /** `root` is a page map and no large page is on the way to `virt`. */
  ghost predicate Walkable(s: State, root: nat, virt: nat) {
    IsRoot(s, root) && Clean(s.mem, root, 4, PageNumber(virt))
  }

  predicate SamePage(v: nat, w: nat) {
    PageNumber(v) == PageNumber(w)
  }

  /** The PML4 slot an address falls in; slots 256..511 are the upper half. */
  function Slot(virt: nat): nat {
    Index(PageNumber(virt), 4)
  }

  lemma {:induction false} WalkableIsMappable(s: State, root: nat, virt: nat, flags: nat)
    requires Inv(s) && Walkable(s, root, virt)
    ensures Mappable(s, root, 4, PageNumber(virt), TableFlags(flags))
  {
    RootOnPath(s, root, PageNumber(virt));
  }

  /* ---------- vmm_map ---------- */

  /** When the mapping is written, exactly when the missing tables can be allocated, and at what cost. */
  lemma {:induction false} MapOutcome(s: State, root: nat, virt: nat, phys: nat, flags: nat)
    requires Inv(s) && Walkable(s, root, virt)
    ensures
      var (s1, ok) := VmmMap(s, root, virt, phys, flags);
      var missing := Missing(s.mem, root, 4, PageNumber(virt));
      && Inv(s1) && Extends(s, s1)
      && missing <= 3
      && (ok <==> missing <= |s.free|)
      && |s1.free| == (if ok then |s.free| - missing else 0)
      && (!ok ==> |s.free| <= 2)
  {
    WalkableIsMappable(s, root, virt, flags);
    MapCost(s, root, 4, PageNumber(virt), Or(phys, flags), TableFlags(flags));
    MissingBound(s.mem, root, 4, PageNumber(virt));
  }

  lemma {:induction false} MissingBound(mem: Mem, t: nat, level: nat, page: nat)
    requires level >= 1
    ensures Missing(mem, t, level, page) <= level - 1
    decreases level
  {
    var e := Entry(mem, t, Index(page, level));
    if level > 1 && Present(e) {
      MissingBound(mem, Target(e), level - 1, page);
    }
  }

  /** The leaf word of every address in the mapped page is the or of `phys` and `flags`, all bits of it, and the page
      translates to its masked value. */
  lemma {:induction false} MapHit(s: State, root: nat, virt: nat, phys: nat, flags: nat, v: nat)
    requires Inv(s) && Walkable(s, root, virt) && VmmMap(s, root, virt, phys, flags).1
    requires SamePage(v, virt)
    ensures LeafWord(VmmMap(s, root, virt, phys, flags).0, root, v) == Or(phys, flags)
    ensures GetPhys(VmmMap(s, root, virt, phys, flags).0, root, v)
         == PAGE_SIZE * Or(phys / PAGE_SIZE, flags / PAGE_SIZE)
  {
    WalkableIsMappable(s, root, virt, flags);
    MapLookups(s, root, 4, PageNumber(virt), Or(phys, flags), TableFlags(flags), root, 4, PageNumber(virt));
    PageBaseOfOr(phys, flags);
  }

  /** For an aligned frame and flags in bits 0..11 the leaf word is their sum: the page is present, writable and open to
      user mode exactly as the flags say. */
  lemma {:induction false} MapLeaf(s: State, root: nat, virt: nat, phys: nat, flags: nat, v: nat)
    requires Inv(s) && Walkable(s, root, virt) && VmmMap(s, root, virt, phys, flags).1
    requires SamePage(v, virt) && phys % 4096 == 0 && flags < 4096
    ensures
      var w := LeafWord(VmmMap(s, root, virt, phys, flags).0, root, v);
      w == phys + flags && w % 2 == flags % 2 && w / 2 % 2 == flags / 2 % 2 && w / 4 % 2 == flags / 4 % 2
  {
    hide Inv, Walkable, VmmMap, LeafWord, Or, SamePage;
    MapHit(s, root, virt, phys, flags, v);
    OrAligned(phys, flags);
    LowBits(phys, flags);
  }

  lemma {:induction false} LowBits(phys: nat, flags: nat)
    requires phys % 4096 == 0
    ensures var w := phys + flags;
      w % 2 == flags % 2 && w / 2 % 2 == flags / 2 % 2 && w / 4 % 2 == flags / 4 % 2
  {
    var k := phys / 4096;
    assert phys == 2 * (2048 * k);
    AddEven(2048 * k, flags);
    assert 2048 * k == 2 * (1024 * k) && 1024 * k == 2 * (512 * k);
    AddEven(1024 * k, flags / 2);
    AddEven(512 * k, flags / 2 / 2);
    assert (phys + flags) / 4 == (phys + flags) / 2 / 2 && flags / 4 == flags / 2 / 2;
  }

  lemma {:induction false} AddEven(k: nat, f: nat)
    ensures (2 * k + f) % 2 == f % 2 && (2 * k + f) / 2 == k + f / 2
  {
  }

  /** The entry at level `l` of the walk; 0 when the walk does not get there. */
  function WalkEntry(mem: Mem, t: nat, level: nat, page: nat, l: nat): nat
    requires 1 <= l <= level
    decreases level
  {
    var e := Entry(mem, t, Index(page, level));
    if l == level then e else if !Present(e) then 0 else WalkEntry(mem, Target(e), level - 1, page, l)
  }

  lemma {:induction false} ZeroWalk(mem: Mem, t: nat, level: nat, page: nat, l: nat)
    requires 1 <= l <= level && t in mem && mem[t] == Zeroes()
    ensures WalkEntry(mem, t, level, page, l) == 0
  {
  }

  lemma {:induction false} LinkedEntry(s: State, t: nat, i: nat, flags: nat)
    requires Linkable(s, t, i, flags) && GetOrCreate(s, t, i, flags).1.Some?
    ensures
      var (s1, c) := GetOrCreate(s, t, i, flags);
      var e, e1 := Entry(s.mem, t, i), Entry(s1.mem, t, i);
      && Present(e1) && Target(e1) == c.value
      && (Present(e) ==> s1 == s)
      && (!Present(e) ==> e1 == c.value * 4096 + flags && c.value in s.free && s1.mem[c.value] == Zeroes())
  {
    LinkKeepsTree(s, t, i, flags);
    LinkCost(s, t, i, flags);
    hide Or;
    if !Present(Entry(s.mem, t, i)) { OrAligned(GetOrCreate(s, t, i, flags).1.value * PAGE_SIZE, flags); }
  }

  /** Entries of the walk that were there stay; the others link a frame that was free, with exactly the table flags. */
  lemma {:induction false} MapWalk(s: State, t: nat, level: nat, page: nat, w: nat, flags: nat, l: nat)
    requires Mappable(s, t, level, page, flags) && 2 <= l <= level && MapFrom(s, t, level, page, w, flags).1
    ensures
      var e := WalkEntry(s.mem, t, level, page, l);
      var e1 := WalkEntry(MapFrom(s, t, level, page, w, flags).0.mem, t, level, page, l);
      && (Present(e) ==> e1 == e)
      && (!Present(e) ==> e1 == Target(e1) * 4096 + flags && Target(e1) in s.free)
    decreases level
  {
    hide Inv, Extends, GetOrCreate, Clean;
    TableSize(s, t);
    var i := Index(page, level);
    var (s1, c) := GetOrCreate(s, t, i, flags);
    MapStep(s, t, level, page, flags);
    LinkedEntry(s, t, i, flags);
    LinkKeepsTree(s, t, i, flags);
    FreeShrinks(s, s1);
    MapCost(s1, c.value, level - 1, page, w, flags);
    PresentEntryKept(s1, MapFrom(s1, c.value, level - 1, page, w, flags).0, t, i);
    if l < level {
      MapWalk(s1, c.value, level - 1, page, w, flags, l);
      if !Present(Entry(s.mem, t, i)) { ZeroWalk(s1.mem, c.value, level - 1, page, l); }
    }
  }

  lemma {:induction false} FreeShrinks(s: State, s1: State)
    requires Extends(s, s1)
    ensures s1.free <= s.free
  {
  }

  /** The entries on the walk to a mapped page: those that were present are as they were; those created link a fresh
      table, present and writable, and open to user mode if and only if the mapping asked for it. */
  lemma {:induction false} MapEntryFlags(s: State, root: nat, virt: nat, phys: nat, flags: nat, l: nat)
    requires Inv(s) && Walkable(s, root, virt) && VmmMap(s, root, virt, phys, flags).1 && 2 <= l <= 4
    ensures
      var e := WalkEntry(s.mem, root, 4, PageNumber(virt), l);
      var e1 := WalkEntry(VmmMap(s, root, virt, phys, flags).0.mem, root, 4, PageNumber(virt), l);
      && (e % 2 == 1 ==> e1 == e)
      && (e % 2 == 0 ==> e1 / 4096 in s.free && e1 == e1 / 4096 * 4096 + (if flags / 4 % 2 == 1 then 7 else 3))
  {
    WalkableIsMappable(s, root, virt, flags);
    MapWalk(s, root, 4, PageNumber(virt), Or(phys, flags), TableFlags(flags), l);
  }

  /** The round trip: with flags in bits 0..11, the mapped page reads back as `phys` if and only if `phys` is
      page aligned. */
  lemma {:induction false} MapRoundTrip(s: State, root: nat, virt: nat, phys: nat, flags: nat, v: nat)
    requires Inv(s) && Walkable(s, root, virt) && VmmMap(s, root, virt, phys, flags).1
    requires SamePage(v, virt) && flags < PAGE_SIZE
    ensures GetPhys(VmmMap(s, root, virt, phys, flags).0, root, v) == phys <==> phys % PAGE_SIZE == 0
  {
    MapHit(s, root, virt, phys, flags, v);
    assert Or(phys / PAGE_SIZE, 0) == phys / PAGE_SIZE;
  }

  /** No other leaf word of any root changes, and a failed mapping changes none at all. */
  lemma {:induction false} MapMiss(s: State, root: nat, virt: nat, phys: nat, flags: nat, r: nat, v: nat)
    requires Inv(s) && Walkable(s, root, virt) && Walkable(s, r, v)
    requires !SamePage(v, virt) || !VmmMap(s, root, virt, phys, flags).1
    ensures
      var s1 := VmmMap(s, root, virt, phys, flags).0;
      Walkable(s1, r, v) && LeafWord(s1, r, v) == LeafWord(s, r, v)
  {
    WalkableIsMappable(s, root, virt, flags);
    RootOnPath(s, r, PageNumber(v));
    MapLookups(s, root, 4, PageNumber(virt), Or(phys, flags), TableFlags(flags), r, 4, PageNumber(v));
    MapOutcome(s, root, virt, phys, flags);
  }

  lemma {:induction false} MapKeepsWalkable(s: State, root: nat, virt: nat, phys: nat, flags: nat, r: nat, v: nat)
    requires Inv(s) && Walkable(s, root, virt) && Walkable(s, r, v)
    ensures Walkable(VmmMap(s, root, virt, phys, flags).0, r, v)
  {
    WalkableIsMappable(s, root, virt, flags);
    RootOnPath(s, r, PageNumber(v));
    MapLookups(s, root, 4, PageNumber(virt), Or(phys, flags), TableFlags(flags), r, 4, PageNumber(v));
    MapOutcome(s, root, virt, phys, flags);
  }

  /* ---------- vmm_unmap ---------- */

  lemma {:induction false} UnmapOutcome(s: State, root: nat, virt: nat)
    requires Inv(s) && Walkable(s, root, virt)
    ensures Inv(VmmUnmap(s, root, virt)) && Extends(s, VmmUnmap(s, root, virt))
    ensures VmmUnmap(s, root, virt).free == s.free
  {
    var page := PageNumber(virt);
    RootOnPath(s, root, page);
    if LastTable(s.mem, root, 4, page).Some? {
      LastTablePlace(s, root, 4, page);
      LeafKeepsTree(s, LastTable(s.mem, root, 4, page).value, Index(page, 1), 0);
    }
  }

  /** After `vmm_unmap` the leaf word of the page is 0, so the page is not present, in its map and in every map that
      shares its last table; every other leaf word of every map is unchanged. */
  lemma {:induction false} UnmapLookups(s: State, root: nat, virt: nat, r: nat, v: nat)
    requires Inv(s) && Walkable(s, root, virt) && Walkable(s, r, v)
    ensures
      var s1 := VmmUnmap(s, root, virt);
      && Walkable(s1, r, v)
      && (SamePage(v, virt) && r == root ==> LeafWord(s1, r, v) == 0)
      && (SamePage(v, virt) && LastTable(s.mem, r, 4, PageNumber(v)) == LastTable(s.mem, root, 4, PageNumber(virt)) ==>
            LeafWord(s1, r, v) == 0)
      && (!SamePage(v, virt) ==> LeafWord(s1, r, v) == LeafWord(s, r, v))
      && LastTable(s1.mem, r, 4, PageNumber(v)) == LastTable(s.mem, r, 4, PageNumber(v))
      && (LastTable(s.mem, r, 4, PageNumber(v)) != LastTable(s.mem, root, 4, PageNumber(virt)) ==>
            LeafWord(s1, r, v) == LeafWord(s, r, v))
  {
    var page, q := PageNumber(virt), PageNumber(v);
    RootOnPath(s, root, page);
    RootOnPath(s, r, q);
    match LastTable(s.mem, root, 4, page)
    case None =>
      NoLastTable(s.mem, root, 4, page);
    case Some(pt) =>
      LastTablePlace(s, root, 4, page);
      LeafLookups(s, pt, Index(page, 1), 0, r, 4, q);
      if LastTable(s.mem, r, 4, q) == Some(pt) {
        LastTablePlace(s, r, 4, q);
        assert Index(q, 1) == Index(page, 1) ==> q == page;
      }
  }

  lemma {:induction false} NoLastTable(mem: Mem, t: nat, level: nat, page: nat)
    requires level >= 1 && LastTable(mem, t, level, page) == None
    ensures Lookup(mem, t, level, page) == 0
    decreases level
  {
    var e := Entry(mem, t, Index(page, level));
    if Present(e) {
      NoLastTable(mem, Target(e), level - 1, page);
    }
  }

  /* ---------- vmm_new_pagemap ---------- */

  lemma {:induction false} NewPagemapKeepsTree(s: State, current: nat)
    requires Inv(s) && IsRoot(s, current) && s.free != {}
    ensures
      var (s1, r) := VmmNewPagemap(s, current);
      Inv(s1) && Extends(s, s1) && IsRoot(s1, r) && r in s.free && r != current
  {
    var (s1, r) := VmmNewPagemap(s, current);
    assert s1.free == s.free - {r};
    assert forall x, k: nat :: x in s.place ==> Entry(s1.mem, x, k) == Entry(s.mem, x, k);
    forall x | x in s1.place
      ensures LinksOk(s1, x)
    {
      if x != r {
        assert LinksOk(s, x);
      } else {
        assert LinksOk(s, current);
        assert forall k: nat :: k < ENTRIES ==> Entry(s1.mem, r, k) == if k >= 256 then Entry(s.mem, current, k) else 0;
      }
    }
  }

  /** The new root holds the upper 256 entries of the current one and 0 below; no existing table changes. */
  lemma {:induction false} NewPagemapEntries(s: State, current: nat, i: nat)
    requires Inv(s) && IsRoot(s, current) && s.free != {} && i < 512
    ensures
      var (s1, r) := VmmNewPagemap(s, current);
      && Entry(s1.mem, r, i) == (if i >= 256 then Entry(s.mem, current, i) else 0)
      && forall x :: x in s.place ==> x in s1.mem && s1.mem[x] == s.mem[x]
  {
  }

  /** Adding a root changes no walk from an existing table. */
  lemma {:induction false} NewPagemapKeepsLookups(s: State, current: nat, x: nat, level: nat, page: nat)
    requires Inv(s) && IsRoot(s, current) && s.free != {}
    requires 1 <= level && OnPath(s, x, level, page) && Clean(s.mem, x, level, page)
    ensures
      var s1 := VmmNewPagemap(s, current).0;
      && Clean(s1.mem, x, level, page)
      && Lookup(s1.mem, x, level, page) == Lookup(s.mem, x, level, page)
    decreases level
  {
    var s1 := VmmNewPagemap(s, current).0;
    var e := Entry(s.mem, x, Index(page, level));
    assert Entry(s1.mem, x, Index(page, level)) == e;
    if level > 1 && Present(e) {
      ChildOnPath(s, x, level, page);
      NewPagemapKeepsLookups(s, current, Target(e), level - 1, page);
    }
  }

  /** The new map agrees with the current one on the whole upper half and maps nothing in the lower half; the
      maps that existed keep all their translations. */
  lemma {:induction false} NewPagemapLookups(s: State, current: nat, v: nat, r: nat)
    requires Inv(s) && s.free != {} && Walkable(s, current, v) && Walkable(s, r, v)
    ensures
      var (s1, fresh_) := VmmNewPagemap(s, current);
      && Walkable(s1, fresh_, v) && Walkable(s1, r, v)
      && LeafWord(s1, r, v) == LeafWord(s, r, v)
      && LeafWord(s1, fresh_, v) == if Slot(v) >= 256 then LeafWord(s, current, v) else 0
  {
    var (s1, f) := VmmNewPagemap(s, current);
    NewPagemapKeepsTree(s, current);
    RootOnPath(s, current, PageNumber(v));
    RootOnPath(s, r, PageNumber(v));
    NewPagemapKeepsLookups(s, current, current, 4, PageNumber(v));
    NewPagemapKeepsLookups(s, current, r, 4, PageNumber(v));
    assert Entry(s1.mem, f, Slot(v)) == if Slot(v) >= 256 then Entry(s1.mem, current, Slot(v)) else 0;
  }

  /* ---------- whole runs ---------- */

  datatype Op =
    | Map(root: nat, virt: nat, phys: nat, flags: nat)
    | Unmap(root: nat, virt: nat)
    | NewPagemap(current: nat)

  ghost predicate Allowed(s: State, op: Op) {
    match op
    case Map(r, v, _, _) => Walkable(s, r, v)
    case Unmap(r, v) => Walkable(s, r, v)
    case NewPagemap(c) => IsRoot(s, c) && s.free != {}
  }

  ghost function Apply(s: State, op: Op): State
    requires Inv(s) && Allowed(s, op)
  {
    match op
    case Map(r, v, p, fl) => VmmMap(s, r, v, p, fl).0
    case Unmap(r, v) => VmmUnmap(s, r, v)
    case NewPagemap(c) => VmmNewPagemap(s, c).0
  }

  lemma {:induction false} ApplyKeepsTree(s: State, op: Op)
    requires Inv(s) && Allowed(s, op)
    ensures Inv(Apply(s, op)) && Extends(s, Apply(s, op))
  {
    match op
    case Map(r, v, p, fl) => MapOutcome(s, r, v, p, fl);
    case Unmap(r, v) => UnmapOutcome(s, r, v);
    case NewPagemap(c) => NewPagemapKeepsTree(s, c);
  }

  ghost predicate IsRun(s: State, ops: seq<Op>)
    requires Inv(s)
    decreases ops
  {
    ops == [] || (Allowed(s, ops[0]) && (ApplyKeepsTree(s, ops[0]); IsRun(Apply(s, ops[0]), ops[1..])))
  }

  ghost function RunAll(s: State, ops: seq<Op>): (s1: State)
    requires Inv(s) && IsRun(s, ops)
    ensures Inv(s1)
    decreases ops
  {
    if ops == [] then s
    else
      ApplyKeepsTree(s, ops[0]);
      RunAll(Apply(s, ops[0]), ops[1..])
  }

  /** Over every run tables are only added, taken from the allocator, and never moved or re-linked. */
  lemma {:induction false} RunExtends(s: State, ops: seq<Op>)
    requires Inv(s) && IsRun(s, ops)
    ensures Extends(s, RunAll(s, ops))
    decreases ops
  {
    if ops != [] {
      ApplyKeepsTree(s, ops[0]);
      RunExtends(Apply(s, ops[0]), ops[1..]);
      ExtendsTransitive(s, Apply(s, ops[0]), RunAll(s, ops));
    } else {
      assert Extends(s, s);
    }
  }

  /** The last-level tables of the lower half belong to one root only. */
  lemma {:induction false} LowerHalfOwner(s: State, x: nat, level: nat, page: nat)
    requires Inv(s) && 1 <= level <= 4 && OnPath(s, x, level, page) && Clean(s.mem, x, level, page)
    requires level == 4 ==> Index(page, 4) < 256
    requires LastTable(s.mem, x, level, page).Some?
    ensures
      var pt := LastTable(s.mem, x, level, page).value;
      pt in s.place && s.place[pt].owner == s.place[x].owner
    decreases level
  {
    if level > 1 {
      ChildOnPath(s, x, level, page);
      LowerHalfOwner(s, Target(Entry(s.mem, x, Index(page, level))), level - 1, page);
    }
  }

  lemma {:induction false} LowerHalfTablesDiffer(s: State, a: nat, b: nat, v: nat)
    requires Inv(s) && a != b && Walkable(s, a, v) && Walkable(s, b, v) && Slot(v) < 256
    requires LastTable(s.mem, a, 4, PageNumber(v)).Some?
    ensures LastTable(s.mem, a, 4, PageNumber(v)) != LastTable(s.mem, b, 4, PageNumber(v))
  {
    RootOnPath(s, a, PageNumber(v));
    RootOnPath(s, b, PageNumber(v));
    LowerHalfOwner(s, a, 4, PageNumber(v));
    if LastTable(s.mem, b, 4, PageNumber(v)).Some? {
      LowerHalfOwner(s, b, 4, PageNumber(v));
    }
  }

  ghost predicate LowerHalfOf(op: Op, root: nat) {
    (op.Map? || op.Unmap?) && op.root == root && Slot(op.virt) < 256
  }

  lemma {:induction false} LowerHalfStep(s: State, op: Op, root: nat, other: nat, v: nat)
    requires Inv(s) && Allowed(s, op) && LowerHalfOf(op, root)
    requires other != root && Walkable(s, other, v)
    ensures Walkable(Apply(s, op), other, v) && LeafWord(Apply(s, op), other, v) == LeafWord(s, other, v)
  {
    match op
    case Map(r, virt, phys, flags) =>
      var (s1, ok) := VmmMap(s, r, virt, phys, flags);
      if !SamePage(v, virt) || !ok {
        MapMiss(s, r, virt, phys, flags, other, v);
      } else {
        WalkableIsMappable(s, r, virt, flags);
        RootOnPath(s, other, PageNumber(v));
        MapLookups(s, r, 4, PageNumber(virt), Or(phys, flags), TableFlags(flags), other, 4, PageNumber(v));
        MapOutcome(s, r, virt, phys, flags);
        MapKeepsWalkable(s, r, virt, phys, flags, r, virt);
        LowerHalfTablesDiffer(s1, r, other, virt);
      }
    case Unmap(r, virt) =>
      UnmapLookups(s, r, virt, other, v);
      if SamePage(v, virt) && LastTable(s.mem, r, 4, PageNumber(virt)).Some? {
        LowerHalfTablesDiffer(s, r, other, virt);
      }
  }

  /** Isolation: no run of lower-half map and unmap in one page map changes any translation of another. */
  lemma {:induction false} LowerHalfIsolation(s: State, ops: seq<Op>, root: nat, other: nat, v: nat)
    requires Inv(s) && IsRun(s, ops)
    requires forall i :: 0 <= i < |ops| ==> LowerHalfOf(ops[i], root)
    requires other != root && Walkable(s, other, v)
    ensures LeafWord(RunAll(s, ops), other, v) == LeafWord(s, other, v)
    decreases ops
  {
    if ops != [] {
      ApplyKeepsTree(s, ops[0]);
      LowerHalfStep(s, ops[0], root, other, v);
      LowerHalfIsolation(Apply(s, ops[0]), ops[1..], root, other, v);
    }
  }

  /** Two roots share a slot when both hold the same present entry there, as they do after `vmm_new_pagemap`. */
  ghost predicate ShareSlot(s: State, a: nat, b: nat, slot: nat) {
    IsRoot(s, a) && IsRoot(s, b) && Present(Entry(s.mem, a, slot)) && Entry(s.mem, a, slot) == Entry(s.mem, b, slot)
  }

  /** Sharing: once two maps share an upper-half slot they translate it identically after every run, so a
      change made in either appears in both. */
  lemma {:induction false} SharedSlotStaysShared(s: State, ops: seq<Op>, a: nat, b: nat, v: nat)
    requires Inv(s) && IsRun(s, ops) && ShareSlot(s, a, b, Slot(v))
    ensures ShareSlot(RunAll(s, ops), a, b, Slot(v))
    ensures LeafWord(RunAll(s, ops), a, v) == LeafWord(RunAll(s, ops), b, v)
  {
    StaysShared(s, ops, a, b, Slot(v));
  }

  /** From `vmm_new_pagemap` on, whatever is mapped and unmapped in any map, the two maps translate every upper-half
      address whose slot was present at copy time identically. */
  lemma {:induction false} UpperHalfStaysShared(s: State, current: nat, ops: seq<Op>, v: nat)
    requires Inv(s) && IsRoot(s, current) && s.free != {} && Slot(v) >= 256 && Present(Entry(s.mem, current, Slot(v)))
    requires Inv(VmmNewPagemap(s, current).0) && IsRun(VmmNewPagemap(s, current).0, ops)
    ensures
      var (s1, r) := VmmNewPagemap(s, current);
      LeafWord(RunAll(s1, ops), r, v) == LeafWord(RunAll(s1, ops), current, v)
  {
    hide LeafWord, RunAll, Inv;
    NewPagemapKeepsTree(s, current);
    var (s1, r) := VmmNewPagemap(s, current);
    RootKept(s, s1, current);
    assert Entry(s1.mem, r, Slot(v)) == Entry(s1.mem, current, Slot(v));
    SharedSlotStaysShared(s1, ops, r, current, v);
  }

  lemma {:induction false} RootKept(s: State, s1: State, r: nat)
    requires Inv(s) && IsRoot(s, r) && Extends(s, s1)
    ensures IsRoot(s1, r)
  {
  }

  /** A slot that was absent when the map was copied is not shared: the first mapping made there in one map
      stays invisible in the other. */
  lemma {:induction false} AbsentSlotDiverges(s: State, a: nat, b: nat, virt: nat, phys: nat, flags: nat)
    requires Inv(s) && a != b && Walkable(s, a, virt) && IsRoot(s, b)
    requires !Present(Entry(s.mem, a, Slot(virt))) && !Present(Entry(s.mem, b, Slot(virt)))
    requires VmmMap(s, a, virt, phys, flags).1
    ensures
      var s1 := VmmMap(s, a, virt, phys, flags).0;
      && LeafWord(s1, a, virt) == Or(phys, flags)
      && LeafWord(s1, b, virt) == 0
  {
    MapHit(s, a, virt, phys, flags, virt);
    WalkableIsMappable(s, a, virt, flags);
    RootOnPath(s, b, PageNumber(virt));
    MapTouchesDownwards(s, a, 4, PageNumber(virt), Or(phys, flags), TableFlags(flags), b);
  }

  /** Mapping from a table writes to that table and to tables further down, not to its peers. */
  lemma {:induction false} MapTouchesDownwards(s: State, t: nat, level: nat, page: nat, w: nat, flags: nat, x: nat)
    requires Mappable(s, t, level, page, flags)
    requires x in s.place && x != t && s.place[x].level >= level
    ensures x in MapFrom(s, t, level, page, w, flags).0.mem
    ensures MapFrom(s, t, level, page, w, flags).0.mem[x] == s.mem[x]
    decreases level
  {
    if level > 1 {
      var (s1, c) := GetOrCreate(s, t, Index(page, level), flags);
      MapStep(s, t, level, page, flags);
      LinkKeepsTree(s, t, Index(page, level), flags);
      if c.Some? {
        MapTouchesDownwards(s1, c.value, level - 1, page, w, flags, x);
      }
    }
  }

  /* ---------- which slots are shared ---------- */

  /** What `vmm_map` does to the entries of roots: only an absent entry of its own root can change, and only to a link
      to a frame that was free. */
  lemma {:induction false} MapRootEntry(s: State, root: nat, virt: nat, phys: nat, flags: nat, x: nat, k: nat)
    requires Inv(s) && Walkable(s, root, virt) && IsRoot(s, x) && k < ENTRIES
    ensures
      var before, after := Entry(s.mem, x, k), Entry(VmmMap(s, root, virt, phys, flags).0.mem, x, k);
      after == before || (x == root && !Present(before) && !Large(after) && Target(after) in s.free)
  {
    hide Inv, Clean, Or, MapFrom;
    WalkableIsMappable(s, root, virt, flags);
    if x == root {
      OwnRootEntry(s, root, PageNumber(virt), Or(phys, flags), TableFlags(flags), k);
    } else {
      TableSize(s, x);
      MapTouchesDownwards(s, root, 4, PageNumber(virt), Or(phys, flags), TableFlags(flags), x);
    }
  }

  lemma {:induction false} OwnRootEntry(s: State, root: nat, page: nat, w: nat, flags: nat, k: nat)
    requires Mappable(s, root, 4, page, flags) && k < ENTRIES
    ensures
      var before, after := Entry(s.mem, root, k), Entry(MapFrom(s, root, 4, page, w, flags).0.mem, root, k);
      after == before || (!Present(before) && !Large(after) && Target(after) in s.free)
  {
    hide Inv, Clean, Or, GetOrCreate;
    TableSize(s, root);
    var (s1, c) := GetOrCreate(s, root, Index(page, 4), flags);
    MapStep(s, root, 4, page, flags);
    LinkEntry(s, root, Index(page, 4), flags, k);
    LinkKeepsTree(s, root, Index(page, 4), flags);
    if c.Some? {
      MapTouchesDownwards(s1, c.value, 3, page, w, flags, root);
    }
  }

  lemma {:induction false} LinkEntry(s: State, t: nat, i: nat, flags: nat, k: nat)
    requires Linkable(s, t, i, flags)
    ensures
      var before, after := Entry(s.mem, t, k), Entry(GetOrCreate(s, t, i, flags).0.mem, t, k);
      after == before || (!Present(before) && !Large(after) && Target(after) in s.free)
  {
    hide Or;
    if s.free != {} { LinkWord(Lowest(s.free), flags); }
  }

  /** `vmm_unmap` and `vmm_new_pagemap` change no entry of an existing root. */
  lemma {:induction false} OtherOpsKeepRoots(s: State, op: Op, x: nat, k: nat)
    requires Inv(s) && Allowed(s, op) && !op.Map? && IsRoot(s, x)
    ensures Entry(Apply(s, op).mem, x, k) == Entry(s.mem, x, k)
  {
    match op
    case Unmap(r, v) =>
      RootOnPath(s, r, PageNumber(v));
      if LastTable(s.mem, r, 4, PageNumber(v)).Some? { LastTablePlace(s, r, 4, PageNumber(v)); }
    case NewPagemap(c) =>
  }

  lemma {:induction false} LinkInPlace(s: State, x: nat, k: nat)
    requires Inv(s) && IsRoot(s, x) && k < ENTRIES && Present(Entry(s.mem, x, k)) && !Large(Entry(s.mem, x, k))
    ensures Target(Entry(s.mem, x, k)) !in s.free
  {
    assert LinksOk(s, x);
  }

  /** Two roots that do not share a slot do not come to share it in one step. */
  lemma {:induction false} UnsharedStep(s: State, op: Op, a: nat, b: nat, slot: nat)
    requires Inv(s) && Allowed(s, op) && IsRoot(s, a) && IsRoot(s, b) && a != b && slot < ENTRIES
    requires !ShareSlot(s, a, b, slot)
    ensures !ShareSlot(Apply(s, op), a, b, slot)
  {
    hide Inv, VmmMap, Walkable;
    match op
    case Map(r, v, p, fl) =>
      MapRootEntry(s, r, v, p, fl, a, slot);
      MapRootEntry(s, r, v, p, fl, b, slot);
      var other := if r == a then b else a;
      if Present(Entry(s.mem, other, slot)) && !Large(Entry(s.mem, other, slot)) { LinkInPlace(s, other, slot); }
    case _ =>
      OtherOpsKeepRoots(s, op, a, slot);
      OtherOpsKeepRoots(s, op, b, slot);
  }

  lemma {:induction false} NeverShared(s: State, ops: seq<Op>, a: nat, b: nat, slot: nat)
    requires Inv(s) && IsRun(s, ops) && IsRoot(s, a) && IsRoot(s, b) && a != b && slot < ENTRIES
    requires !ShareSlot(s, a, b, slot)
    ensures !ShareSlot(RunAll(s, ops), a, b, slot)
    decreases ops
  {
    hide Inv, Apply, ShareSlot, IsRoot;
    if ops != [] {
      ApplyKeepsTree(s, ops[0]);
      UnsharedStep(s, ops[0], a, b, slot);
      RootKept(s, Apply(s, ops[0]), a);
      RootKept(s, Apply(s, ops[0]), b);
      NeverShared(Apply(s, ops[0]), ops[1..], a, b, slot);
    }
  }

  /** After every run that starts with the copy, the new map and the one it was copied from share a slot if and only if
      it is an upper-half slot that was present at copy time. */
  lemma {:induction false} SharedExactlyIfPresent(s: State, current: nat, ops: seq<Op>, slot: nat)
    requires Inv(s) && IsRoot(s, current) && s.free != {} && slot < ENTRIES
    requires Inv(VmmNewPagemap(s, current).0) && IsRun(VmmNewPagemap(s, current).0, ops)
    ensures
      var (s1, r) := VmmNewPagemap(s, current);
      ShareSlot(RunAll(s1, ops), r, current, slot) <==> slot >= 256 && Present(Entry(s.mem, current, slot))
  {
    hide RunAll, Inv;
    NewPagemapKeepsTree(s, current);
    var (s1, r) := VmmNewPagemap(s, current);
    RootKept(s, s1, current);
    assert Entry(s1.mem, current, slot) == Entry(s.mem, current, slot);
    assert Entry(s1.mem, r, slot) == if slot >= 256 then Entry(s.mem, current, slot) else 0;
    if ShareSlot(s1, r, current, slot) {
      StaysShared(s1, ops, r, current, slot);
    } else {
      NeverShared(s1, ops, r, current, slot);
    }
  }

  lemma {:induction false} StaysShared(s: State, ops: seq<Op>, a: nat, b: nat, slot: nat)
    requires Inv(s) && IsRun(s, ops) && ShareSlot(s, a, b, slot)
    ensures ShareSlot(RunAll(s, ops), a, b, slot)
  {
    RunExtends(s, ops);
    PresentEntryKept(s, RunAll(s, ops), a, slot);
    PresentEntryKept(s, RunAll(s, ops), b, slot);
  }
}
