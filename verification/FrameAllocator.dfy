/** The physical frame allocator (kernel/src/mm/pmm.c): a bitmap with a redundant free counter. */
module FrameAllocator {
  import opened Words

  /* ---------- the bitmap macros ---------- */

  function Mask(k: nat): (m: bv8)
    requires k < 8
    ensures m == 1 << k
  {
    if k == 0 then 1 else if k == 1 then 2 else if k == 2 then 4 else if k == 3 then 8
    else if k == 4 then 16 else if k == 5 then 32 else if k == 6 then 64 else 128
  }

  predicate Test(bm: seq<bv8>, bit: nat)
    requires bit < 8 * |bm|
  {
    bm[bit / 8] & Mask(bit % 8) != 0
  }

  function SetBit(bm: seq<bv8>, bit: nat): (r: seq<bv8>)
    requires bit < 8 * |bm|
  {
    bm[bit / 8 := bm[bit / 8] | Mask(bit % 8)]
  }

  function ClearBit(bm: seq<bv8>, bit: nat): (r: seq<bv8>)
    requires bit < 8 * |bm|
  {
    bm[bit / 8 := bm[bit / 8] & !Mask(bit % 8)]
  }

  lemma {:induction false} ByteBits(b: bv8, k: nat, j: nat)
    requires k < 8 && j < 8
    ensures (b | Mask(k)) & Mask(j) != 0 <==> k == j || b & Mask(j) != 0
    ensures (b & !Mask(k)) & Mask(j) != 0 <==> k != j && b & Mask(j) != 0
  {
    assert k in [0, 1, 2, 3, 4, 5, 6, 7] && j in [0, 1, 2, 3, 4, 5, 6, 7];
  }

  /** Setting one bit changes that bit and no other. */
  lemma {:induction false} SetTest(bm: seq<bv8>, bit: nat, other: nat)
    requires bit < 8 * |bm| && other < 8 * |bm|
    ensures Test(SetBit(bm, bit), other) <==> bit == other || Test(bm, other)
  {
    hide Mask;
    if bit / 8 == other / 8 {
      ByteBits(bm[bit / 8], bit % 8, other % 8);
      assert SetBit(bm, bit)[other / 8] == bm[bit / 8] | Mask(bit % 8);
      assert bit % 8 == other % 8 <==> bit == other;
    }
  }

  /** Clearing one bit changes that bit and no other. */
  lemma {:induction false} ClearTest(bm: seq<bv8>, bit: nat, other: nat)
    requires bit < 8 * |bm| && other < 8 * |bm|
    ensures Test(ClearBit(bm, bit), other) <==> bit != other && Test(bm, other)
  {
    hide Mask;
    if bit / 8 == other / 8 {
      ByteBits(bm[bit / 8], bit % 8, other % 8);
      assert ClearBit(bm, bit)[other / 8] == bm[bit / 8] & !Mask(bit % 8);
      assert bit % 8 == other % 8 <==> bit == other;
    }
  }

  /** The frames whose bit is clear: the abstract value of the bitmap. */
  ghost function FreeFrames(bm: seq<bv8>, total: nat): set<nat>
    requires total <= 8 * |bm|
  {
    set i: nat | i < total && !Test(bm, i)
  }

  lemma {:induction false} FreeFramesUpdate(bm: seq<bv8>, total: nat, bit: nat)
    requires bit < total <= 8 * |bm|
    ensures FreeFrames(SetBit(bm, bit), total) == FreeFrames(bm, total) - {bit}
    ensures FreeFrames(ClearBit(bm, bit), total) == FreeFrames(bm, total) + {bit}
  {
    forall i: nat | i < total
      ensures i in FreeFrames(SetBit(bm, bit), total) <==> i in FreeFrames(bm, total) - {bit}
      ensures i in FreeFrames(ClearBit(bm, bit), total) <==> i in FreeFrames(bm, total) + {bit}
    {
      SetTest(bm, bit, i);
      ClearTest(bm, bit, i);
    }
  }

  lemma {:induction false} ClearedAny(bm: seq<bv8>, total: nat, bit: nat)
    requires total <= 8 * |bm| && bit < 8 * |bm|
    ensures FreeFrames(ClearBit(bm, bit), total) == FreeFrames(bm, total) + (if bit < total then {bit} else {})
  {
    forall i: nat | i < total
      ensures Test(ClearBit(bm, bit), i) <==> i != bit && Test(bm, i)
    {
      ClearTest(bm, bit, i);
    }
  }

  /* ---------- the abstract allocator ---------- */

  ghost predicate IsLowest(s: set<nat>, m: nat) {
    m in s && forall x :: x in s ==> m <= x
  }

  lemma {:induction false} MinExists(s: set<nat>) returns (m: nat)
    requires s != {}
    ensures IsLowest(s, m)
    decreases |s|
  {
    m :| m in s;
    var rest := s - {m};
    if rest != {} {
      var r := MinExists(rest);
      assert forall x :: x in s ==> x == m || x in rest;
      m := if m < r then m else r;
    } else {
      assert s == {m};
    }
  }

  /** The frame `pmm_alloc` picks. */
  ghost function Lowest(s: set<nat>): (m: nat)
    requires s != {}
    ensures IsLowest(s, m)
  {
    assert exists m :: IsLowest(s, m) by {
      var w := MinExists(s);
    }
    var m :| IsLowest(s, m);
    m
  }

  lemma {:induction false} LowestIs(s: set<nat>, m: nat)
    requires IsLowest(s, m)
    ensures Lowest(s) == m
  {
  }

  /* ---------- the memory map ---------- */

  datatype MapEntry = MapEntry(base: nat, length: nat, usable: bool)

  ghost predicate FrameOf(e: MapEntry, f: nat) {
    e.usable && e.base / PAGE_SIZE <= f < e.base / PAGE_SIZE + e.length / PAGE_SIZE
  }

  ghost predicate UsableFrame(memmap: seq<MapEntry>, f: nat) {
    exists i :: 0 <= i < |memmap| && FrameOf(memmap[i], f)
  }

  /** What the boot protocol promises of usable entries: page aligned and not overlapping. */
  ghost predicate WellFormed(memmap: seq<MapEntry>) {
    && (forall i :: 0 <= i < |memmap| && memmap[i].usable ==>
          memmap[i].base % PAGE_SIZE == 0 && memmap[i].length % PAGE_SIZE == 0)
    && (forall i, j :: 0 <= i < j < |memmap| && memmap[i].usable && memmap[j].usable ==>
          memmap[i].base + memmap[i].length <= memmap[j].base
          || memmap[j].base + memmap[j].length <= memmap[i].base)
  }

  lemma {:induction false} EntriesDisjoint(memmap: seq<MapEntry>, i: nat, j: nat, f: nat)
    requires WellFormed(memmap) && i < |memmap| && j < |memmap|
    requires FrameOf(memmap[i], f) && FrameOf(memmap[j], f)
    ensures i == j
  {
  }

  /** One past the last byte of usable memory. */
  function Highest(memmap: seq<MapEntry>): nat {
    if memmap == [] then 0
    else
      var e, before := memmap[|memmap| - 1], Highest(memmap[..|memmap| - 1]);
      if e.usable && e.base + e.length > before then e.base + e.length else before
  }

  lemma {:induction false} HighestBounds(memmap: seq<MapEntry>, i: nat)
    requires i < |memmap| && memmap[i].usable
    ensures memmap[i].base + memmap[i].length <= Highest(memmap)
  {
    if i < |memmap| - 1 {
      HighestBounds(memmap[..|memmap| - 1], i);
    }
  }

  /** It is the end of some usable entry, or 0 when there is no usable memory. */
  lemma {:induction false} HighestAttained(memmap: seq<MapEntry>)
    ensures Highest(memmap) > 0 ==>
      exists k :: 0 <= k < |memmap| && memmap[k].usable && memmap[k].base + memmap[k].length == Highest(memmap)
  {
    if memmap != [] {
      var last := |memmap| - 1;
      HighestAttained(memmap[..last]);
      if Highest(memmap) == Highest(memmap[..last]) > 0 {
        var k :| 0 <= k < last && memmap[..last][k].usable
          && memmap[..last][k].base + memmap[..last][k].length == Highest(memmap);
        assert memmap[k] == memmap[..last][k];
      }
    }
  }

  /** In whole pages, when the entries are page aligned. */
  lemma {:induction false} HighestInPages(memmap: seq<MapEntry>)
    requires WellFormed(memmap)
    ensures Highest(memmap) % PAGE_SIZE == 0
    ensures forall k :: 0 <= k < |memmap| && memmap[k].usable ==> memmap[k].base + memmap[k].length <= Highest(memmap)
  {
    HighestAttained(memmap);
    forall k | 0 <= k < |memmap| && memmap[k].usable
      ensures memmap[k].base + memmap[k].length <= Highest(memmap)
    {
      HighestBounds(memmap, k);
    }
  }

  predicate Fits(e: MapEntry, size: nat) {
    e.usable && e.length >= size
  }

  ghost function UsableFrames(memmap: seq<MapEntry>, total: nat): set<nat> {
    set f: nat | f < total && UsableFrame(memmap, f)
  }

  ghost predicate InRange(first: nat, count: nat, f: nat) {
    first <= f < first + count
  }

  ghost function Range(first: nat, count: nat): set<nat> {
    set f: nat | f < first + count && InRange(first, count, f)
  }

  lemma {:induction false} RangeStep(s: set<nat>, first: nat, count: nat)
    ensures first + count !in Range(first, count)
    ensures s + Range(first, count + 1) == s + Range(first, count) + {first + count}
    ensures s - Range(first, count + 1) == s - Range(first, count) - {first + count}
  {
    assert Range(first, count + 1) == Range(first, count) + {first + count};
  }

  lemma {:induction false} RangeEmpty(first: nat)
    ensures Range(first, 0) == {}
  {
  }

  lemma {:induction false} RangeHas(first: nat, count: nat, f: nat)
    ensures f in Range(first, count) <==> first <= f < first + count
  {
  }

  lemma {:induction false} NoEntries(total: nat)
    ensures forall memmap: seq<MapEntry> :: UsableFrames(memmap[..0], total) == {}
  {
  }

  lemma {:induction false} UsableFramesStep(memmap: seq<MapEntry>, i: nat, total: nat)
    requires i < |memmap|
    requires memmap[i].usable ==> memmap[i].base / PAGE_SIZE + memmap[i].length / PAGE_SIZE <= total
    ensures UsableFrames(memmap[..i + 1], total)
         == UsableFrames(memmap[..i], total)
            + (if memmap[i].usable then Range(memmap[i].base / PAGE_SIZE, memmap[i].length / PAGE_SIZE) else {})
  {
    assert memmap[..i + 1][i] == memmap[i];
    forall f: nat | f < total
      ensures UsableFrame(memmap[..i + 1], f) <==> UsableFrame(memmap[..i], f) || FrameOf(memmap[i], f)
    {
      if UsableFrame(memmap[..i], f) {
        var k :| 0 <= k < i && FrameOf(memmap[..i][k], f);
        assert FrameOf(memmap[..i + 1][k], f);
      }
      if UsableFrame(memmap[..i + 1], f) {
        var k :| 0 <= k < i + 1 && FrameOf(memmap[..i + 1][k], f);
        assert k < i ==> FrameOf(memmap[..i][k], f);
      }
    }
  }

  lemma {:induction false} FrameNotYetUsable(memmap: seq<MapEntry>, i: nat, f: nat)
    requires WellFormed(memmap) && i < |memmap| && FrameOf(memmap[i], f)
    ensures !UsableFrame(memmap[..i], f)
  {
    forall k | 0 <= k < i
      ensures !FrameOf(memmap[..i][k], f)
    {
      if FrameOf(memmap[k], f) {
        EntriesDisjoint(memmap, i, k, f);
      }
    }
  }

  /** A bitmap of `size` bytes at the start of an entry that fits it lies inside that entry's frames. */
  lemma {:induction false} EntryFramesNew(memmap: seq<MapEntry>, i: nat, total: nat)
    requires WellFormed(memmap) && i < |memmap| && memmap[i].usable
    ensures forall f :: f in Range(memmap[i].base / PAGE_SIZE, memmap[i].length / PAGE_SIZE) ==>
      f !in UsableFrames(memmap[..i], total)
  {
    forall f | f in Range(memmap[i].base / PAGE_SIZE, memmap[i].length / PAGE_SIZE)
      ensures f !in UsableFrames(memmap[..i], total)
    {
      FrameNotYetUsable(memmap, i, f);
    }
  }

  lemma {:induction false} BitmapFits(memmap: seq<MapEntry>, slot: nat, size: nat)
    requires WellFormed(memmap) && slot < |memmap| && Fits(memmap[slot], size)
    ensures
      var first, count := memmap[slot].base / PAGE_SIZE, (size + PAGE_SIZE - 1) / PAGE_SIZE;
      && first + count <= Highest(memmap) / PAGE_SIZE
      && Range(first, count) <= UsableFrames(memmap, Highest(memmap) / PAGE_SIZE)
  {
    HighestBounds(memmap, slot);
    var first, count := memmap[slot].base / PAGE_SIZE, (size + PAGE_SIZE - 1) / PAGE_SIZE;
    assert count <= memmap[slot].length / PAGE_SIZE;
    forall f | f in Range(first, count)
      ensures f in UsableFrames(memmap, Highest(memmap) / PAGE_SIZE)
    {
      assert FrameOf(memmap[slot], f);
    }
  }

  /** Some usable entry holds the whole page. */
  ghost predicate HoldsPage(memmap: seq<MapEntry>, f: nat) {
    exists k :: 0 <= k < |memmap| && memmap[k].usable
      && memmap[k].base <= f * 4096 && f * 4096 + 4096 <= memmap[k].base + memmap[k].length
  }

  /** The usable frames outside the bitmap, in bytes. */
  lemma {:induction false} FreeInBytes(memmap: seq<MapEntry>, phys: nat, size: nat, f: nat)
    requires WellFormed(memmap) && phys % PAGE_SIZE == 0
    ensures
      var held := Range(phys / PAGE_SIZE, (size + PAGE_SIZE - 1) / PAGE_SIZE);
      f in UsableFrames(memmap, Highest(memmap) / PAGE_SIZE) - held
      <==> HoldsPage(memmap, f) && (f * 4096 + 4096 <= phys || phys + size <= f * 4096)
  {
    HighestInPages(memmap);
    hide Highest, WellFormed;
    assert UsableFrame(memmap, f) <==> HoldsPage(memmap, f) by {
      forall k | 0 <= k < |memmap| && memmap[k].usable
        ensures FrameOf(memmap[k], f)
           <==> memmap[k].base <= f * 4096 && f * 4096 + 4096 <= memmap[k].base + memmap[k].length
      {
        PageInside(memmap, k, f);
      }
    }
    RangeHas(phys / PAGE_SIZE, (size + PAGE_SIZE - 1) / PAGE_SIZE, f);
  }

  lemma {:induction false} EntryAligned(memmap: seq<MapEntry>, k: nat)
    requires WellFormed(memmap) && k < |memmap| && memmap[k].usable
    ensures memmap[k].base % PAGE_SIZE == 0
  {
  }

  lemma {:induction false} PageInside(memmap: seq<MapEntry>, k: nat, f: nat)
    requires WellFormed(memmap) && k < |memmap| && memmap[k].usable
    ensures FrameOf(memmap[k], f)
       <==> memmap[k].base <= f * 4096 && f * 4096 + 4096 <= memmap[k].base + memmap[k].length
  {
  }

  class Pmm {
    var bitmap: array?<bv8>
    var bitmapPhys: nat
    var totalPages: nat
    var freePages: nat

    /** Initialised: one bit per page, and the counter counts the clear bits. */
    ghost predicate Valid()
      reads this, bitmap
    {
      && bitmap != null
      && bitmap.Length == (totalPages + 7) / 8
      && freePages == |Free()|
    }

    /** The abstract value of the allocator: the frames it can hand out. */
    ghost function Free(): set<nat>
      reads this`bitmap, this`totalPages, bitmap
    {
      if bitmap == null || totalPages > 8 * bitmap.Length then {} else FreeFrames(bitmap[..], totalPages)
    }

    /** The bits of the last byte past `total_pages` are set, as if their pages were in use. */
    ghost predicate TailSet()
      reads this`bitmap, this`totalPages, bitmap
    {
      bitmap != null && forall i: nat :: totalPages <= i < 8 * bitmap.Length ==> Test(bitmap[..], i)
    }

    /** The globals before `pmm_init`. */
    constructor ()
      ensures bitmap == null && bitmapPhys == 0 && totalPages == 0 && freePages == 0
    {
      bitmap := null;
      bitmapPhys := 0;
      totalPages := 0;
      freePages := 0;
    }

    /** The frames that hold the bitmap itself. */
    ghost function BitmapFrames(): set<nat>
      requires bitmap != null
      reads this
    {
      Range(bitmapPhys / PAGE_SIZE, (bitmap.Length + PAGE_SIZE - 1) / PAGE_SIZE)
    }

    /** `pmm_init`. The pages counted end where the last usable entry ends. Either no usable entry can hold the bitmap
        and nothing is handed out, or the bitmap goes at the start of the first entry that can, and exactly the pages
        of usable entries outside it are free. */
    method Init(memmap: seq<MapEntry>)
      requires bitmap == null && freePages == 0
      requires WellFormed(memmap)
      modifies this
      ensures forall k :: 0 <= k < |memmap| && memmap[k].usable ==>
                memmap[k].base + memmap[k].length <= totalPages * 4096
      ensures totalPages > 0 ==>
                exists k :: 0 <= k < |memmap| && memmap[k].usable
                            && memmap[k].base + memmap[k].length == totalPages * 4096
      ensures bitmap == null <==>
                forall k :: 0 <= k < |memmap| && memmap[k].usable ==> memmap[k].length < (totalPages + 7) / 8
      ensures bitmap != null ==> fresh(bitmap) && Valid() && TailSet()
      ensures bitmap != null ==>
                exists s :: 0 <= s < |memmap| && memmap[s].usable && memmap[s].length >= bitmap.Length
                            && bitmapPhys == memmap[s].base
                            && forall k :: 0 <= k < s && memmap[k].usable ==> memmap[k].length < bitmap.Length
      ensures bitmap != null ==>
                forall f: nat :: f in Free() <==>
                  HoldsPage(memmap, f)
                  && (f * 4096 + 4096 <= bitmapPhys || bitmapPhys + bitmap.Length <= f * 4096)
      ensures totalPages == Highest(memmap) / PAGE_SIZE
      ensures bitmap != null ==>
                BitmapFrames() <= UsableFrames(memmap, totalPages)
                && Free() == UsableFrames(memmap, totalPages) - BitmapFrames()
    {
      hide UsableFrames, Range, Highest, WellFormed, FreeFrames, HoldsPage;
      var highest := FindHighest(memmap);
      HighestInPages(memmap);
      totalPages := highest / PAGE_SIZE;
      var bitmapSize := (totalPages + 7) / 8;
      var slot := FindSlot(memmap, bitmapSize);
      if slot == |memmap| {
        return;
      }
      bitmapPhys := memmap[slot].base;
      bitmap := new bv8[bitmapSize];
      Fill(memmap, slot);
      EntryAligned(memmap, slot);
      FreePages(memmap);
    }

    /** The bits, once the bitmap has its place. */
    method Fill(memmap: seq<MapEntry>, ghost slot: nat)
      requires bitmap != null && freePages == 0 && WellFormed(memmap) && totalPages == Highest(memmap) / PAGE_SIZE
      requires bitmap.Length == (totalPages + 7) / 8
      requires slot < |memmap| && Fits(memmap[slot], bitmap.Length) && bitmapPhys == memmap[slot].base
      modifies this`freePages, bitmap
      ensures Valid() && TailSet() && BitmapFrames() <= UsableFrames(memmap, totalPages)
      ensures Free() == UsableFrames(memmap, totalPages) - BitmapFrames()
    {
      hide UsableFrames, Range, Highest, WellFormed, FreeFrames;
      BitmapFits(memmap, slot, bitmap.Length);
      FillOnes();
      FreeUsable(memmap);
      SetRange(bitmapPhys / PAGE_SIZE, (bitmap.Length + PAGE_SIZE - 1) / PAGE_SIZE);
    }

    lemma {:induction false} FreePages(memmap: seq<MapEntry>)
      requires WellFormed(memmap) && bitmap != null && bitmapPhys % PAGE_SIZE == 0
      requires totalPages == Highest(memmap) / PAGE_SIZE && Free() == UsableFrames(memmap, totalPages) - BitmapFrames()
      ensures forall f: nat :: f in Free() <==>
        HoldsPage(memmap, f) && (f * 4096 + 4096 <= bitmapPhys || bitmapPhys + bitmap.Length <= f * 4096)
    {
      hide Highest, WellFormed, Free, UsableFrames, HoldsPage, Range;
      forall f: nat
        ensures f in Free() <==>
          HoldsPage(memmap, f) && (f * 4096 + 4096 <= bitmapPhys || bitmapPhys + bitmap.Length <= f * 4096)
      {
        FreeInBytes(memmap, bitmapPhys, bitmap.Length, f);
      }
    }

    /** The scan for the end of usable memory. */
    static method FindHighest(memmap: seq<MapEntry>) returns (highest: nat)
      ensures highest == Highest(memmap)
      ensures forall k :: 0 <= k < |memmap| && memmap[k].usable ==> memmap[k].base + memmap[k].length <= highest
      ensures highest > 0 ==>
                exists k :: 0 <= k < |memmap| && memmap[k].usable && memmap[k].base + memmap[k].length == highest
    {
      highest := 0;
      for i := 0 to |memmap|
        invariant highest == Highest(memmap[..i])
        invariant forall k :: 0 <= k < i && memmap[k].usable ==> memmap[k].base + memmap[k].length <= highest
        invariant highest > 0 ==>
                    exists k :: 0 <= k < i && memmap[k].usable && memmap[k].base + memmap[k].length == highest
      {
        assert memmap[..i + 1][..i] == memmap[..i];
        if memmap[i].usable && memmap[i].base + memmap[i].length > highest {
          highest := memmap[i].base + memmap[i].length;
        }
      }
      assert memmap[..|memmap|] == memmap;
    }

    /** The first usable entry with room for the bitmap, or the number of entries. */
    static method FindSlot(memmap: seq<MapEntry>, size: nat) returns (slot: nat)
      ensures slot <= |memmap|
      ensures slot < |memmap| ==> memmap[slot].usable && memmap[slot].length >= size
      ensures forall k :: 0 <= k < slot && memmap[k].usable ==> memmap[k].length < size
    {
      slot := 0;
      while slot < |memmap| && !Fits(memmap[slot], size)
        invariant slot <= |memmap|
        invariant forall k :: 0 <= k < slot ==> !Fits(memmap[k], size)
      {
        slot := slot + 1;
      }
    }

    method FillOnes()
      requires bitmap != null && totalPages <= 8 * bitmap.Length
      modifies bitmap
      ensures Free() == {} && TailSet()
    {
      for i := 0 to bitmap.Length
        invariant forall k :: 0 <= k < i ==> bitmap[k] == 0xFF
      {
        bitmap[i] := 0xFF;
      }
      assert forall i: nat :: i < 8 * bitmap.Length ==> Test(bitmap[..], i);
    }

    method FreeUsable(memmap: seq<MapEntry>)
      requires bitmap != null && totalPages <= 8 * bitmap.Length
      requires WellFormed(memmap) && totalPages == Highest(memmap) / PAGE_SIZE
      requires Free() == {} && freePages == 0
      modifies this`freePages, bitmap
      ensures Free() == UsableFrames(memmap, totalPages) && freePages == |Free()|
      ensures old(TailSet()) ==> TailSet()
    {
      NoEntries(totalPages);
      hide Free, UsableFrames, Range, Highest, WellFormed, FreeFrames;
      for i := 0 to |memmap|
        invariant Free() == UsableFrames(memmap[..i], totalPages) && freePages == |Free()|
        invariant old(TailSet()) ==> TailSet()
      {
        FreeEntry(memmap, i);
      }
      assert memmap[..|memmap|] == memmap;
    }

    /** The frames of one entry. */
    method FreeEntry(memmap: seq<MapEntry>, i: nat)
      requires bitmap != null && totalPages <= 8 * bitmap.Length && i < |memmap|
      requires WellFormed(memmap) && totalPages == Highest(memmap) / PAGE_SIZE
      requires Free() == UsableFrames(memmap[..i], totalPages) && freePages == |Free()|
      modifies this`freePages, bitmap
      ensures Free() == UsableFrames(memmap[..i + 1], totalPages) && freePages == |Free()|
      ensures old(TailSet()) ==> TailSet()
    {
      hide Free, UsableFrames, Range, Highest, WellFormed, FreeFrames;
      if memmap[i].usable { HighestBounds(memmap, i); }
      UsableFramesStep(memmap, i, totalPages);
      if memmap[i].usable {
        var base := memmap[i].base / PAGE_SIZE;
        var pages := memmap[i].length / PAGE_SIZE;
        EntryFramesNew(memmap, i, totalPages);
        ClearRange(base, pages);
      }
      assert memmap[..|memmap|] == memmap;
    }

    method ClearRange(base: nat, pages: nat)
      requires bitmap != null && base + pages <= totalPages <= 8 * bitmap.Length
      requires Free() !! Range(base, pages) && freePages == |Free()|
      modifies this`freePages, bitmap
      ensures Free() == old(Free()) + Range(base, pages) && freePages == |Free()|
      ensures old(TailSet()) ==> TailSet()
    {
      hide *;
      ghost var was := Free();
      RangeEmpty(base);
      for j := 0 to pages
        invariant Free() == was + Range(base, j) && freePages == |Free()|
        invariant old(TailSet()) ==> TailSet()
      {
        RangeStep(was, base, j);
        RangeHas(base, pages, base + j);
        assert base + j !in was;
        Give(base + j);
      }
    }

    method SetRange(base: nat, pages: nat)
      requires bitmap != null && base + pages <= totalPages <= 8 * bitmap.Length
      requires Range(base, pages) <= Free() && freePages == |Free()|
      modifies this`freePages, bitmap
      ensures Free() == old(Free()) - Range(base, pages) && freePages == |Free()|
      ensures old(TailSet()) ==> TailSet()
    {
      hide *;
      ghost var was := Free();
      RangeEmpty(base);
      for i := 0 to pages
        invariant Free() == was - Range(base, i) && freePages == |Free()|
        invariant old(TailSet()) ==> TailSet()
      {
        RangeStep(was, base, i);
        RangeHas(base, pages, base + i);
        Take(base + i);
      }
    }

    lemma {:induction false} FreeBelow()
      requires bitmap != null && totalPages <= 8 * bitmap.Length
      ensures forall f :: f in Free() ==> f < totalPages
    {
    }

    method TestBit(bit: nat) returns (set_: bool)
      requires bitmap != null && bit < totalPages <= 8 * bitmap.Length
      ensures set_ <==> bit !in Free()
    {
      set_ := bitmap[bit / 8] & Mask(bit % 8) != 0;
    }

    lemma {:induction false} TailKept(bit: nat)
      requires bitmap != null && bit < totalPages <= 8 * bitmap.Length
      ensures forall i: nat :: totalPages <= i < 8 * bitmap.Length ==>
        && (Test(SetBit(bitmap[..], bit), i) <==> Test(bitmap[..], i))
        && (Test(ClearBit(bitmap[..], bit), i) <==> Test(bitmap[..], i))
    {
      forall i: nat | totalPages <= i < 8 * bitmap.Length
        ensures Test(SetBit(bitmap[..], bit), i) <==> Test(bitmap[..], i)
        ensures Test(ClearBit(bitmap[..], bit), i) <==> Test(bitmap[..], i)
      {
        SetTest(bitmap[..], bit, i);
        ClearTest(bitmap[..], bit, i);
      }
    }

    method Set(bit: nat)
      requires bitmap != null && bit < totalPages <= 8 * bitmap.Length
      modifies bitmap
      ensures Free() == old(Free()) - {bit}
      ensures old(TailSet()) ==> TailSet()
    {
      TailKept(bit);
      FreeFramesUpdate(bitmap[..], totalPages, bit);
      ghost var before := bitmap[..];
      bitmap[bit / 8] := bitmap[bit / 8] | Mask(bit % 8);
      assert bitmap[..] == SetBit(before, bit);
    }

    method Clear(bit: nat)
      requires bitmap != null && bit < totalPages <= 8 * bitmap.Length
      modifies bitmap
      ensures Free() == old(Free()) + {bit}
      ensures old(TailSet()) ==> TailSet()
    {
      TailKept(bit);
      FreeFramesUpdate(bitmap[..], totalPages, bit);
      ghost var before := bitmap[..];
      bitmap[bit / 8] := bitmap[bit / 8] & !Mask(bit % 8);
      assert bitmap[..] == ClearBit(before, bit);
    }

    /** A bit is set and the counter lowered: the pair of updates `pmm_alloc` and `pmm_init` make. */
    method Take(bit: nat)
      requires bitmap != null && bit < totalPages <= 8 * bitmap.Length
      requires bit in Free() && freePages == |Free()|
      modifies this`freePages, bitmap
      ensures Free() == old(Free()) - {bit} && freePages == |Free()|
      ensures old(TailSet()) ==> TailSet()
    {
      ghost var was := Free();
      hide *;
      Set(bit);
      ghost var now := Free();
      freePages := freePages - 1;
      assert Free() == now == was - {bit};
    }

    /** A bit is cleared and the counter raised: the pair of updates `pmm_free` and `pmm_init` make. */
    method Give(bit: nat)
      requires bitmap != null && bit < totalPages <= 8 * bitmap.Length
      requires bit !in Free() && freePages == |Free()|
      modifies this`freePages, bitmap
      ensures Free() == old(Free()) + {bit} && freePages == |Free()|
      ensures old(TailSet()) ==> TailSet()
    {
      ghost var was := Free();
      hide *;
      Clear(bit);
      ghost var now := Free();
      freePages := freePages + 1;
      assert Free() == now == was + {bit};
    }

    /** The lowest clear bit below `total_pages` is set and its address returned; 0 when there is none. */
    method Alloc() returns (addr: nat)
      requires Valid()
      modifies this`freePages, bitmap
      ensures Valid()
      ensures old(Free()) == {} ==> addr == 0 && Free() == {}
      ensures old(Free()) != {} ==>
                addr == Lowest(old(Free())) * PAGE_SIZE && Free() == old(Free()) - {Lowest(old(Free()))}
      ensures old(Free()) != {} ==>
                addr % 4096 == 0 && addr / 4096 in old(Free()) && Free() == old(Free()) - {addr / 4096}
                && forall f :: f in old(Free()) ==> addr / 4096 <= f
      ensures old(TailSet()) ==> TailSet()
    {
      ghost var was := Free();
      hide Free;
      var i := 0;
      while i < totalPages
        invariant 0 <= i <= totalPages
        invariant Valid() && Free() == was
        invariant forall k :: k in was ==> k >= i
        invariant old(TailSet()) ==> TailSet()
      {
        var taken := TestBit(i);
        if !taken {
          LowestIs(was, i);
          Take(i);
          return i * PAGE_SIZE;
        }
        i := i + 1;
      }
      FreeBelow();
      assert was == {};
      return 0;
    }

    /** Gives a frame back. Freeing a frame that is already free changes nothing. The bitmap's last byte can have bits
        past `total_pages`: freeing such a page raises the counter although no frame becomes free, so the counter stays
        right if and only if the page is below `total_pages` or its bit is clear. */
    method FreeFrame(addr: nat)
      requires Valid() && addr / PAGE_SIZE < 8 * bitmap.Length
      modifies this`freePages, bitmap
      ensures Free() == old(Free()) + (if addr / PAGE_SIZE < totalPages then {addr / PAGE_SIZE} else {})
      ensures Valid() <==> addr / PAGE_SIZE < totalPages || !old(Test(bitmap[..], addr / PAGE_SIZE))
      ensures !Valid() ==> freePages == |Free()| + 1
    {
      hide Free, FreeFrames, Mask, Test;
      var page := addr / PAGE_SIZE;
      var taken := TestAny(page);
      if taken {
        GiveAny(page);
      }
    }

    /** After `pmm_init`, freeing the page at `total_pages` makes the counter wrong whenever the bitmap has a bit for
        it. */
    method FreePastTheEnd(memmap: seq<MapEntry>)
      requires bitmap == null && freePages == 0 && WellFormed(memmap)
      modifies this
      ensures bitmap != null && totalPages % 8 != 0 ==> !Valid() && freePages == |Free()| + 1
    {
      hide UsableFrames, Range, Highest, WellFormed, FreeFrames, Free, Mask, Test, TailSet, Fits;
      Init(memmap);
      if bitmap != null && totalPages % 8 != 0 {
        FreeFirstPast();
      }
    }

    method FreeFirstPast()
      requires Valid() && TailSet() && totalPages % 8 != 0
      modifies this`freePages, bitmap
      ensures !Valid() && freePages == |Free()| + 1
    {
      hide FreeFrames, Free, Mask, Test;
      assert totalPages * PAGE_SIZE / PAGE_SIZE == totalPages;
      FreeFrame(totalPages * PAGE_SIZE);
    }

    method TestAny(bit: nat) returns (set_: bool)
      requires bitmap != null && totalPages <= 8 * bitmap.Length && bit < 8 * bitmap.Length
      ensures set_ <==> Test(bitmap[..], bit)
      ensures bit < totalPages ==> (set_ <==> bit !in Free())
    {
      set_ := bitmap[bit / 8] & Mask(bit % 8) != 0;
    }

    method GiveAny(bit: nat)
      requires bitmap != null && totalPages <= 8 * bitmap.Length && bit < 8 * bitmap.Length
      requires bit < totalPages ==> bit !in Free()
      modifies this`freePages, bitmap
      ensures Free() == old(Free()) + (if bit < totalPages then {bit} else {})
      ensures |Free()| == |old(Free())| + (if bit < totalPages then 1 else 0) && freePages == old(freePages) + 1
    {
      ghost var was := Free();
      hide *;
      ClearAny(bit);
      ghost var now := Free();
      freePages := freePages + 1;
      assert Free() == now == was + (if bit < totalPages then {bit} else {});
    }

    /** Clearing a bit of the last byte past `total_pages` frees nothing. */
    method ClearAny(bit: nat)
      requires bitmap != null && totalPages <= 8 * bitmap.Length && bit < 8 * bitmap.Length
      modifies bitmap
      ensures Free() == old(Free()) + (if bit < totalPages then {bit} else {})
    {
      ghost var before := bitmap[..];
      ClearedAny(before, totalPages, bit);
      bitmap[bit / 8] := bitmap[bit / 8] & !Mask(bit % 8);
      assert bitmap[..] == ClearBit(before, bit);
    }
  }
}
