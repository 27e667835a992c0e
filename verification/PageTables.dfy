/** Four-level page tables stored in physical frames (kernel/src/mm/vmm.c), as a value.

    The page-table tree is described by a ghost map `place`: it gives each table frame its level and the
    page-number prefix it serves. A table can have only one place, so tables reached by different prefixes are
    different frames; this is the whole tree invariant.
 */
module PageTables {
  import opened Common
  import opened Words
  import opened FrameAllocator

  /** Physical memory: the 512 words of each frame. */
  type Mem = map<nat, seq<nat>>

  const PRESENT: nat := 1
  const WRITE: nat := 2
  const USER: nat := 4
  const ENTRIES: nat := 512

  function Entry(mem: Mem, t: nat, i: nat): nat {
    if t in mem && i < |mem[t]| then mem[t][i] else 0
  }

  predicate Present(e: nat) {
    e % 2 == 1
  }

  /** Bit 7 of a present entry above the last level: a large page, which the code does not recognise. */
  predicate Large(e: nat) {
    e / 128 % 2 == 1
  }

  /** The frame `phys_to_virt(e & ~0xFFF)` gives access to. */
  function Target(e: nat): nat {
    e / PAGE_SIZE
  }

  /* ---------- page numbers and indices ---------- */

  const PAGE_COUNT: nat := 0x10_0000_0000

  /** Bits 12..47 of an address. */
  function PageNumber(virt: nat): (p: nat)
    ensures p < PAGE_COUNT
  {
    virt / PAGE_SIZE % PAGE_COUNT
  }

  /** The part of a page number that selects the table at `level`; the root serves prefix 0. */
  function Prefix(page: nat, level: nat): nat {
    if level == 0 then page else Prefix(page, level - 1) / ENTRIES
  }

  function Index(page: nat, level: nat): (i: nat)
    requires level >= 1
    ensures i < ENTRIES
  {
    Prefix(page, level - 1) % ENTRIES
  }

  lemma {:induction false} RootPrefix(page: nat)
    requires page < PAGE_COUNT
    ensures Prefix(page, 4) == 0
  {
    assert Prefix(page, 1) == page / 512;
    assert Prefix(page, 2) == page / 512 / 512;
    assert Prefix(page, 3) == Prefix(page, 2) / 512;
    assert Prefix(page, 4) == Prefix(page, 2) / 512 / 512;
  }

  /** The four 9-bit fields the code extracts by shifting are the indices of the page number. */
  lemma {:induction false} IndexIsField(virt: nat)
    ensures virt / 0x80_0000_0000 % 512 == Index(PageNumber(virt), 4)
    ensures virt / 0x4000_0000 % 512 == Index(PageNumber(virt), 3)
    ensures virt / 0x20_0000 % 512 == Index(PageNumber(virt), 2)
    ensures virt / 0x1000 % 512 == Index(PageNumber(virt), 1)
  {
    var q := virt / 0x1000;
    var p := PageNumber(virt);
    assert Prefix(p, 1) == p / 512 && Prefix(p, 2) == p / 512 / 512 == p / 0x4_0000;
    assert Prefix(p, 3) == Prefix(p, 2) / 512 == p / 0x800_0000;
    assert virt / 0x20_0000 == q / 512 && virt / 0x4000_0000 == q / 0x4_0000 && virt / 0x80_0000_0000 == q / 0x800_0000;
    FieldsOfRemainder(q);
  }

  lemma {:induction false} FieldsOfRemainder(q: nat)
    ensures q % PAGE_COUNT % 512 == q % 512
    ensures q % PAGE_COUNT / 512 % 512 == q / 512 % 512
    ensures q % PAGE_COUNT / 0x4_0000 % 512 == q / 0x4_0000 % 512
    ensures q % PAGE_COUNT / 0x800_0000 % 512 == q / 0x800_0000 % 512
  {
    var k, r := q / PAGE_COUNT, q % PAGE_COUNT;
    FieldOfSum(r, 0x800_0000 * k);
    assert q == 512 * (0x800_0000 * k) + r;
    FieldOfSum(r / 512, 0x4_0000 * k);
    assert q / 512 == 512 * (0x4_0000 * k) + r / 512;
    FieldOfSum(r / 0x4_0000, 512 * k);
    assert q / 0x4_0000 == 512 * (512 * k) + r / 0x4_0000;
    FieldOfSum(r / 0x800_0000, k);
    assert q / 0x800_0000 == 512 * k + r / 0x800_0000;
  }

  lemma {:induction false} FieldOfSum(r: nat, k: nat)
    ensures (512 * k + r) % 512 == r % 512
  {
  }

  /** The four indices together determine the page: the split is injective. */
  lemma {:induction false} IndicesDeterminePage(p: nat, q: nat)
    requires p < PAGE_COUNT && q < PAGE_COUNT
    requires forall l :: 1 <= l <= 4 ==> Index(p, l) == Index(q, l)
    ensures p == q
  {
    RootPrefix(p);
    RootPrefix(q);
    assert Index(p, 4) == Index(q, 4) && Index(p, 3) == Index(q, 3);
    assert Index(p, 2) == Index(q, 2) && Index(p, 1) == Index(q, 1);
    assert Prefix(p, 3) == Prefix(q, 3);
    assert Prefix(p, 2) == Prefix(q, 2);
    assert Prefix(p, 1) == Prefix(q, 1);
  }

  /* ---------- walking ---------- */

  /** The leaf word that the walk from a table at `level` ends at, whole; 0 when an entry above is not present. */
  function Lookup(mem: Mem, t: nat, level: nat, page: nat): nat
    requires level >= 1
    decreases level
  {
    var e := Entry(mem, t, Index(page, level));
    if level == 1 then e
    else if !Present(e) then 0
    else Lookup(mem, Target(e), level - 1, page)
  }

  /** No entry on the walk is a large page. */
  predicate Clean(mem: Mem, t: nat, level: nat, page: nat)
    requires level >= 1
    decreases level
  {
    var e := Entry(mem, t, Index(page, level));
    level == 1 || !Present(e) || (!Large(e) && Clean(mem, Target(e), level - 1, page))
  }

  /** The last-level table the walk ends in. */
  function LastTable(mem: Mem, t: nat, level: nat, page: nat): Option<nat>
    requires level >= 1
    decreases level
  {
    var e := Entry(mem, t, Index(page, level));
    if level == 1 then Some(t)
    else if !Present(e) then None
    else LastTable(mem, Target(e), level - 1, page)
  }

  /** How many tables a mapping of `page` would have to create. */
  function Missing(mem: Mem, t: nat, level: nat, page: nat): nat
    requires level >= 1
    decreases level
  {
    var e := Entry(mem, t, Index(page, level));
    if level == 1 then 0
    else if !Present(e) then level - 1
    else Missing(mem, Target(e), level - 1, page)
  }

  /* ---------- the tree invariant ---------- */

  datatype Owner = Private(root: nat) | Shared
  datatype Place = Place(owner: Owner, level: nat, prefix: nat)

  function RootPlace(root: nat): Place {
    Place(Private(root), 4, 0)
  }

  /** Lower-half tables belong to one root; tables below PML4 slots 256..511 may be shared between roots. */
  function ChildPlace(p: Place, i: nat): Place
    requires p.level >= 1
  {
    Place(if p.level == 4 && i >= 256 then Shared else p.owner, p.level - 1, p.prefix * ENTRIES + i)
  }

  /** Memory, the allocator's free frames, and the place of every table frame. */
  datatype State = State(mem: Mem, free: set<nat>, place: map<nat, Place>)

  ghost predicate LinksOk(s: State, t: nat)
    requires t in s.place
  {
    s.place[t].level > 1 ==>
      forall i: nat :: i < ENTRIES && Present(Entry(s.mem, t, i)) && !Large(Entry(s.mem, t, i)) ==>
        Target(Entry(s.mem, t, i)) in s.place
        && s.place[Target(Entry(s.mem, t, i))] == ChildPlace(s.place[t], i)
  }

  ghost predicate Inv(s: State) {
    && 0 !in s.free
    && (forall f :: f in s.free ==> f in s.mem && |s.mem[f]| == ENTRIES && f !in s.place)
    && (forall t :: t in s.place ==>
          && t in s.mem && |s.mem[t]| == ENTRIES
          && 1 <= s.place[t].level <= 4
          && (s.place[t].level == 4 ==> s.place[t] == RootPlace(t))
          && LinksOk(s, t))
  }

  ghost predicate IsRoot(s: State, r: nat) {
    r in s.place && s.place[r].level == 4
  }

  /** Table `t` sits at `level` on the walk of `page`. */
  ghost predicate OnPath(s: State, t: nat, level: nat, page: nat) {
    t in s.place && s.place[t].level == level && s.place[t].prefix == Prefix(page, level)
  }

  lemma {:induction false} ChildOnPath(s: State, t: nat, level: nat, page: nat)
    requires Inv(s) && level > 1 && OnPath(s, t, level, page)
    requires Present(Entry(s.mem, t, Index(page, level))) && !Large(Entry(s.mem, t, Index(page, level)))
    ensures
      var c := Target(Entry(s.mem, t, Index(page, level)));
      OnPath(s, c, level - 1, page) && s.place[c] == ChildPlace(s.place[t], Index(page, level))
  {
    assert LinksOk(s, t);
  }

  lemma {:induction false} RootOnPath(s: State, r: nat, page: nat)
    requires Inv(s) && IsRoot(s, r) && page < PAGE_COUNT
    ensures OnPath(s, r, 4, page)
  {
    RootPrefix(page);
  }

  /* ---------- operations ---------- */

  function Zeroes(): seq<nat> {
    seq(ENTRIES, _ => 0)
  }

  function WriteEntry(mem: Mem, t: nat, i: nat, w: nat): Mem
    requires t in mem && i < |mem[t]|
  {
    var row: seq<nat> := mem[t][i := w];
    mem[t := row]
  }

  /** `get_or_create`: follow a present entry, else link a zeroed fresh frame, else fail. */
  ghost function GetOrCreate(s: State, t: nat, i: nat, flags: nat): (State, Option<nat>)
    requires t in s.place && t in s.mem && |s.mem[t]| == ENTRIES && s.place[t].level >= 1 && i < ENTRIES
  {
    if Present(s.mem[t][i]) then (s, Some(Target(s.mem[t][i])))
    else if s.free == {} then (s, None)
    else
      var f := Lowest(s.free);
      var mem := s.mem[f := Zeroes()];
      (State(WriteEntry(mem, t, i, Or(f * PAGE_SIZE, flags)), s.free - {f}, s.place[f := ChildPlace(s.place[t], i)]),
       Some(f))
  }

  /** `vmm_map` from a table at `level`: `w` is the leaf word, `flags` the flags of new table entries. The first
      case is never taken on a walk from a root; it makes the function total. */
  ghost function MapFrom(s: State, t: nat, level: nat, page: nat, w: nat, flags: nat): (State, bool)
    requires level >= 1
    decreases level
  {
    if t !in s.place || t !in s.mem || |s.mem[t]| != ENTRIES || s.place[t].level != level then (s, false)
    else if level == 1 then (s.(mem := WriteEntry(s.mem, t, Index(page, 1), w)), true)
    else
      match GetOrCreate(s, t, Index(page, level), flags)
      case (s1, None) => (s1, false)
      case (s1, Some(c)) => MapFrom(s1, c, level - 1, page, w, flags)
  }

  function TableFlags(flags: nat): nat {
    if flags / USER % 2 == 1 then PRESENT + WRITE + USER else PRESENT + WRITE
  }

  /* ---------- linking a table ---------- */

  lemma {:induction false} ZeroTable(mem: Mem, t: nat, level: nat, page: nat)
    requires level >= 1 && t in mem && mem[t] == Zeroes()
    ensures Lookup(mem, t, level, page) == 0 && Clean(mem, t, level, page)
    ensures Missing(mem, t, level, page) == level - 1
    ensures level > 1 ==> LastTable(mem, t, level, page) == None
  {
  }

  ghost predicate Linkable(s: State, t: nat, i: nat, flags: nat) {
    && Inv(s) && t in s.place && s.place[t].level > 1 && i < ENTRIES
    && (Present(Entry(s.mem, t, i)) ==> !Large(Entry(s.mem, t, i)))
    && flags in {PRESENT + WRITE, PRESENT + WRITE + USER}
  }

  lemma {:induction false} LinkWord(f: nat, flags: nat)
    requires flags in {PRESENT + WRITE, PRESENT + WRITE + USER}
    ensures Present(Or(f * PAGE_SIZE, flags)) && !Large(Or(f * PAGE_SIZE, flags))
    ensures Target(Or(f * PAGE_SIZE, flags)) == f
  {
    hide Or;
    OrAligned(f * PAGE_SIZE, flags);
    LinkWordFields(f, flags);
  }

  lemma {:induction false} LinkWordFields(f: nat, flags: nat)
    requires flags == 3 || flags == 7
    ensures Present(f * PAGE_SIZE + flags) && !Large(f * PAGE_SIZE + flags) && Target(f * PAGE_SIZE + flags) == f
  {
    var e := f * PAGE_SIZE + flags;
    assert e / 128 == 32 * f;
    assert e == 2 * (2048 * f + flags / 2) + 1;
  }

  /** `get_or_create` keeps the tree, changes only the one absent entry, and costs one frame exactly when it
      creates. */
  lemma {:induction false} LinkKeepsTree(s: State, t: nat, i: nat, flags: nat)
    requires Linkable(s, t, i, flags)
    ensures
      var (s1, c) := GetOrCreate(s, t, i, flags);
      && Inv(s1) && s.place.Keys <= s1.place.Keys
      && (forall x :: x in s.place ==> s1.place[x] == s.place[x])
      && (c.Some? ==> c.value in s1.place && s1.place[c.value] == ChildPlace(s.place[t], i)
                      && Present(Entry(s1.mem, t, i)) && Target(Entry(s1.mem, t, i)) == c.value)
      && (c == None <==> !Present(Entry(s.mem, t, i)) && s.free == {})
      && (c == None ==> s1 == s)
  {
    if !Present(s.mem[t][i]) && s.free != {} {
      var f := Lowest(s.free);
      LinkWord(f, flags);
      var (s1, c) := GetOrCreate(s, t, i, flags);
      assert s1.mem[f] == Zeroes();
      forall x | x in s1.place
        ensures LinksOk(s1, x)
      {
        if x != f {
          assert LinksOk(s, x);
          assert forall k: nat :: k < ENTRIES && !(x == t && k == i) ==> Entry(s1.mem, x, k) == Entry(s.mem, x, k);
        }
      }
    }
  }

  /** Linking a fresh zeroed table changes no translation of any page from any table. */
  lemma {:induction false} LinkKeepsLookups(s: State, t: nat, i: nat, flags: nat, x: nat, level: nat, page: nat)
    requires Linkable(s, t, i, flags)
    requires 1 <= level && OnPath(s, x, level, page) && Clean(s.mem, x, level, page)
    ensures
      var s1 := GetOrCreate(s, t, i, flags).0;
      && Clean(s1.mem, x, level, page)
      && Lookup(s1.mem, x, level, page) == Lookup(s.mem, x, level, page)
      && (LastTable(s.mem, x, level, page).Some? ==>
          LastTable(s1.mem, x, level, page) == LastTable(s.mem, x, level, page))
    decreases level
  {
    var (s1, c) := GetOrCreate(s, t, i, flags);
    var e := Entry(s.mem, x, Index(page, level));
    if s1 == s {
    } else if x == t && Index(page, level) == i {
      LinkWord(c.value, flags);
      assert s1.mem[c.value] == Zeroes();
      ZeroTable(s1.mem, c.value, level - 1, page);
    } else {
      assert Entry(s1.mem, x, Index(page, level)) == e;
      if level > 1 && Present(e) {
        ChildOnPath(s, x, level, page);
        LinkKeepsLookups(s, t, i, flags, Target(e), level - 1, page);
      }
    }
  }

  /** What every page-table operation keeps: frames taken from the allocator become tables, no table moves,
      frames that are not tables keep their words, and a present entry above the last level is never changed. */
  ghost predicate Extends(s: State, s1: State) {
    && s1.free <= s.free && s1.mem.Keys == s.mem.Keys
    && s1.place.Keys == s.place.Keys + (s.free - s1.free)
    && (forall x :: x in s.place ==> s1.place[x] == s.place[x])
    && (forall x :: x in s.mem && x !in s1.place ==> s1.mem[x] == s.mem[x])
    && (forall x, k: nat :: x in s.place && s.place[x].level > 1 && Present(Entry(s.mem, x, k)) ==>
          Entry(s1.mem, x, k) == Entry(s.mem, x, k))
  }

  lemma {:induction false} ExtendsTransitive(a: State, b: State, c: State)
    requires Extends(a, b) && Extends(b, c)
    ensures Extends(a, c)
  {
  }

  lemma {:induction false} LinkCost(s: State, t: nat, i: nat, flags: nat)
    requires Linkable(s, t, i, flags)
    ensures
      var (s1, c) := GetOrCreate(s, t, i, flags);
      && Extends(s, s1)
      && (!Present(Entry(s.mem, t, i)) && c.Some? ==>
            |s1.free| == |s.free| - 1 && c.value in s.free && s1.mem[c.value] == Zeroes())
  {
    if !Present(s.mem[t][i]) && s.free != {} {
      var (s1, c) := GetOrCreate(s, t, i, flags);
      assert s1.free == s.free - {c.value};
      assert forall x, k: nat :: x in s.place && !(x == t && k == i) ==> Entry(s1.mem, x, k) == Entry(s.mem, x, k);
    }
  }

  /* ---------- writing a leaf ---------- */

  lemma {:induction false} LeafKeepsTree(s: State, pt: nat, i: nat, w: nat)
    requires Inv(s) && pt in s.place && s.place[pt].level == 1 && i < ENTRIES
    ensures Inv(s.(mem := WriteEntry(s.mem, pt, i, w)))
    ensures Extends(s, s.(mem := WriteEntry(s.mem, pt, i, w)))
  {
    var s1 := s.(mem := WriteEntry(s.mem, pt, i, w));
    assert forall x, k: nat :: x != pt ==> Entry(s1.mem, x, k) == Entry(s.mem, x, k);
    forall x | x in s1.place
      ensures LinksOk(s1, x)
    {
      assert LinksOk(s, x);
    }
  }

  /** A leaf write is seen by exactly the walks that end in that word, and by nothing else. */
  lemma {:induction false} LeafLookups(s: State, pt: nat, i: nat, w: nat, x: nat, level: nat, page: nat)
    requires Inv(s) && pt in s.place && s.place[pt].level == 1 && i < ENTRIES
    requires 1 <= level && OnPath(s, x, level, page) && Clean(s.mem, x, level, page)
    ensures
      var mem := WriteEntry(s.mem, pt, i, w);
      && Clean(mem, x, level, page)
      && LastTable(mem, x, level, page) == LastTable(s.mem, x, level, page)
      && Lookup(mem, x, level, page)
         == if LastTable(s.mem, x, level, page) == Some(pt) && Index(page, 1) == i then w
            else Lookup(s.mem, x, level, page)
    decreases level
  {
    var mem := WriteEntry(s.mem, pt, i, w);
    var e := Entry(s.mem, x, Index(page, level));
    if level > 1 {
      assert Entry(mem, x, Index(page, level)) == e;
      if Present(e) {
        ChildOnPath(s, x, level, page);
        LeafLookups(s, pt, i, w, Target(e), level - 1, page);
      }
    }
  }

  lemma {:induction false} LastTablePlace(s: State, x: nat, level: nat, page: nat)
    requires Inv(s) && 1 <= level && OnPath(s, x, level, page) && Clean(s.mem, x, level, page)
    requires LastTable(s.mem, x, level, page).Some?
    ensures OnPath(s, LastTable(s.mem, x, level, page).value, 1, page)
    decreases level
  {
    if level > 1 {
      ChildOnPath(s, x, level, page);
      LastTablePlace(s, Target(Entry(s.mem, x, Index(page, level))), level - 1, page);
    }
  }

  /* ---------- mapping ---------- */

  ghost predicate Mappable(s: State, t: nat, level: nat, page: nat, flags: nat) {
    && Inv(s) && 1 <= level <= 4 && OnPath(s, t, level, page) && Clean(s.mem, t, level, page)
    && flags in {PRESENT + WRITE, PRESENT + WRITE + USER}
  }

  /** One level of `vmm_map`: the entry is present or created, and mapping can go on from the child. */
  lemma {:induction false} MapStep(s: State, t: nat, level: nat, page: nat, flags: nat)
    requires Mappable(s, t, level, page, flags) && level > 1
    ensures
      var (s1, c) := GetOrCreate(s, t, Index(page, level), flags);
      && Linkable(s, t, Index(page, level), flags)
      && Inv(s1) && Extends(s, s1)
      && |s1.free| == |s.free| - (if c.Some? && !Present(Entry(s.mem, t, Index(page, level))) then 1 else 0)
      && (c == None ==> |s.free| == 0 && Missing(s.mem, t, level, page) > 0)
      && (c.Some? ==> Mappable(s1, c.value, level - 1, page, flags))
      && (c.Some? ==> Missing(s1.mem, c.value, level - 1, page)
                      == Missing(s.mem, t, level, page)
                         - (if Present(Entry(s.mem, t, Index(page, level))) then 0 else 1))
  {
    var i := Index(page, level);
    var (s1, c) := GetOrCreate(s, t, i, flags);
    LinkKeepsTree(s, t, i, flags);
    LinkCost(s, t, i, flags);
    LinkKeepsLookups(s, t, i, flags, t, level, page);
    if c.Some? {
      if !Present(Entry(s.mem, t, i)) {
        ZeroTable(s1.mem, c.value, level - 1, page);
      }
    }
  }

  /** The tree is kept. The mapping is written exactly when the allocator has the missing tables, at the cost
      of exactly those; otherwise the frames that were left are linked as tables and the allocator is empty. */
  lemma {:induction false} MapCost(s: State, t: nat, level: nat, page: nat, w: nat, flags: nat)
    requires Mappable(s, t, level, page, flags)
    ensures
      var (s1, ok) := MapFrom(s, t, level, page, w, flags);
      var missing := Missing(s.mem, t, level, page);
      && Inv(s1) && Extends(s, s1)
      && (ok <==> missing <= |s.free|)
      && |s1.free| == (if ok then |s.free| - missing else 0)
    decreases level
  {
    TableSize(s, t);
    hide Inv, Extends, Clean, GetOrCreate;
    if level == 1 {
      LeafKeepsTree(s, t, Index(page, 1), w);
    } else {
      var i := Index(page, level);
      var (s1, c) := GetOrCreate(s, t, i, flags);
      MapStep(s, t, level, page, flags);
      if c.Some? {
        MapCost(s1, c.value, level - 1, page, w, flags);
        ExtendsTransitive(s, s1, MapFrom(s1, c.value, level - 1, page, w, flags).0);
      }
    }
  }

  lemma {:induction false} TableSize(s: State, t: nat)
    requires Inv(s) && t in s.place
    ensures t in s.mem && |s.mem[t]| == ENTRIES
  {
  }
}
