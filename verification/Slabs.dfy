/** One slab page (kernel/src/mm/heap.c): a 24-byte header, then equally sized objects, the free ones chained
    through their first word. A slab is a row of 512 words at a page-aligned address `base`. */
module Slabs {
  import opened Common

  const MAGIC_SLAB: nat := 0x800051AB
  const MAGIC_PAGE: nat := 0x80007A63
  const HALF: nat := 0x1_0000_0000
  const ROW: nat := 512
  const CLASSES: nat := 6
  const HEADER_WORDS: nat := 3  // both struct slab_header and struct alloc_header take 24 bytes

  /** Words per object: the classes hold 32, 64, 128, 256, 512 and 1024 bytes. */
  function ObjWords(cls: nat): (n: nat)
    requires cls < CLASSES
    ensures n >= 4
  {
    if cls == 0 then 4 else if cls == 1 then 8 else if cls == 2 then 16
    else if cls == 3 then 32 else if cls == 4 then 64 else 128
  }

  function ObjSize(cls: nat): nat
    requires cls < CLASSES
  {
    8 * ObjWords(cls)
  }

  /** `(4096 - sizeof(struct slab_header)) / obj_size`. */
  function Count(cls: nat): (n: nat)
    requires cls < CLASSES
  {
    4072 / ObjSize(cls)
  }

  /** The first word of object `k`: the objects follow the header, `ObjWords(cls)` words each. */
  function ObjWord(cls: nat, k: nat): nat
    requires cls < CLASSES
  {
    HEADER_WORDS + if cls == 0 then 4 * k else if cls == 1 then 8 * k else if cls == 2 then 16 * k
                   else if cls == 3 then 32 * k else if cls == 4 then 64 * k else 128 * k
  }

  lemma {:induction false} CountValues()
    ensures Count(0) == 127 && Count(1) == 63 && Count(2) == 31 && Count(3) == 15 && Count(4) == 7 && Count(5) == 3
  {
  }

  /** Objects lie inside the page, after the header, and do not overlap. */
  lemma {:induction false} ObjectLayout(cls: nat, k: nat, m: nat)
    requires cls < CLASSES && k < Count(cls) && m < Count(cls)
    ensures HEADER_WORDS <= ObjWord(cls, k) && ObjWord(cls, k) + ObjWords(cls) <= ROW
    ensures k < m ==> ObjWord(cls, k) + ObjWords(cls) <= ObjWord(cls, m)
  {
    CountValues();
    assert cls in {0, 1, 2, 3, 4, 5};
  }

  /** `objects` of the slab, free ones in list order, live ones with the size asked for. */
  datatype Slab = Slab(cls: nat, free: seq<nat>, live: map<nat, nat>)

  /** The free list is duplicate-free and, with the live objects, partitions the objects of the slab. */
  ghost predicate Partition(s: Slab) {
    && s.cls < CLASSES
    && Distinct(s.free)
    && (forall j :: 0 <= j < |s.free| ==> s.free[j] < Count(s.cls))
    && (forall k :: k in s.live ==> k < Count(s.cls))
    && (forall k: nat :: k < Count(s.cls) ==> (k in s.free <==> k !in s.live))
  }

  function ObjAddr(base: nat, cls: nat, k: nat): nat
    requires cls < CLASSES
  {
    base + 8 * ObjWord(cls, k)
  }

  /** The pointer to the `j`-th free object, NULL past the end. */
  function FreePtr(base: nat, s: Slab, j: nat): nat
    requires s.cls < CLASSES
  {
    if j < |s.free| then ObjAddr(base, s.cls, s.free[j]) else 0
  }

  /** The words of the page represent the slab. */
  ghost predicate Represents(row: seq<nat>, base: nat, s: Slab) {
    && Partition(s)
    && |row| == ROW
    && row[0] == ObjSize(s.cls)
    && row[1] == FreePtr(base, s, 0)
    && (forall j: nat :: j < |s.free| ==> Linked(row, base, s, j))
    && (forall k: nat :: k in s.live ==> Tagged(WordOf(row, s.cls, k)) && SizeOf(row, s.cls, k) == s.live[k])
  }

  /** The `j`-th free object points to the next one. */
  ghost predicate Linked(row: seq<nat>, base: nat, s: Slab, j: nat)
    requires s.cls < CLASSES && j < |s.free|
  {
    WordOf(row, s.cls, s.free[j]) == FreePtr(base, s, j + 1)
  }

  /** The word's low half, where `alloc_header.magic` lies, holds MAGIC_SLAB. */
  predicate Tagged(w: nat) {
    w % HALF == MAGIC_SLAB
  }

  function WordOf(row: seq<nat>, cls: nat, k: nat): nat
    requires cls < CLASSES
  {
    if ObjWord(cls, k) < |row| then row[ObjWord(cls, k)] else 0
  }

  function SizeOf(row: seq<nat>, cls: nat, k: nat): nat
    requires cls < CLASSES
  {
    if ObjWord(cls, k) + 2 < |row| then row[ObjWord(cls, k) + 2] else 0
  }

  /** A 32-bit store to the low half of a word. */
  function SetLow(w: nat, low: nat): nat
    requires low < HALF
  {
    w / HALF * HALF + low
  }

  /** Words of other objects are untouched by writes to the header's list pointer and inside object `k`. */
  lemma {:induction false} OtherObject(row: seq<nat>, out: seq<nat>, cls: nat, k: nat, m: nat)
    requires cls < CLASSES && |row| == |out| == ROW && k < Count(cls) && m < Count(cls) && m != k
    requires forall w :: 0 <= w < ROW && w != 1 && !(ObjWord(cls, k) <= w < ObjWord(cls, k) + ObjWords(cls)) ==>
      out[w] == row[w]
    ensures WordOf(out, cls, m) == WordOf(row, cls, m) && SizeOf(out, cls, m) == SizeOf(row, cls, m)
  {
    ObjectLayout(cls, k, m);
    ObjectLayout(cls, m, k);
    hide ObjWord, ObjWords;
    assert out[ObjWord(cls, m)] == row[ObjWord(cls, m)];
  }

  /* ---------- kmalloc takes the head of the free list ---------- */

  function Pop(s: Slab, size: nat): Slab
    requires s.free != []
  {
    s.(free := s.free[1..], live := s.live[s.free[0] := size])
  }

  function PopRow(row: seq<nat>, cls: nat, k: nat, size: nat): seq<nat>
    requires cls < CLASSES && |row| == ROW && k < Count(cls)
  {
    ObjectLayout(cls, k, k);
    var w := ObjWord(cls, k);
    row[1 := row[w]][w := SetLow(row[w], MAGIC_SLAB)][w + 2 := size]
  }

  lemma {:induction false} LowIsTag(w: nat)
    ensures Tagged(SetLow(w, MAGIC_SLAB))
  {
  }

  lemma {:induction false} PopKeepsPartition(s: Slab, size: nat)
    requires Partition(s) && s.free != []
    ensures Partition(Pop(s, size))
  {
    var t := Pop(s, size);
    assert forall j :: 0 <= j < |t.free| ==> t.free[j] == s.free[j + 1];
    forall k: nat | k < Count(s.cls)
      ensures k in t.free <==> k !in t.live
    {
      if k in s.free && k != s.free[0] {
        var j :| 0 <= j < |s.free| && s.free[j] == k;
        assert t.free[j - 1] == k;
      }
    }
  }

  lemma {:induction false} PopWords(row: seq<nat>, base: nat, s: Slab, size: nat)
    requires Represents(row, base, s) && s.free != []
    ensures
      var out := PopRow(row, s.cls, s.free[0], size);
      && |out| == ROW && out[0] == row[0] && out[1] == WordOf(row, s.cls, s.free[0])
      && Tagged(WordOf(out, s.cls, s.free[0])) && SizeOf(out, s.cls, s.free[0]) == size
      && forall m: nat :: m < Count(s.cls) && m != s.free[0] ==>
           WordOf(out, s.cls, m) == WordOf(row, s.cls, m) && SizeOf(out, s.cls, m) == SizeOf(row, s.cls, m)
  {
    var k := s.free[0];
    var out := PopRow(row, s.cls, k, size);
    ObjectLayout(s.cls, k, k);
    LowIsTag(WordOf(row, s.cls, k));
    hide ObjWord, ObjWords, Count, Tagged, SetLow, Partition;
    forall m: nat | m < Count(s.cls) && m != k
      ensures WordOf(out, s.cls, m) == WordOf(row, s.cls, m) && SizeOf(out, s.cls, m) == SizeOf(row, s.cls, m)
    {
      OtherObject(row, out, s.cls, k, m);
    }
  }

  lemma {:induction false} PopRepresents(row: seq<nat>, base: nat, s: Slab, size: nat)
    requires Represents(row, base, s) && s.free != []
    ensures Represents(PopRow(row, s.cls, s.free[0], size), base, Pop(s, size))
  {
    var t, k := Pop(s, size), s.free[0];
    PopKeepsPartition(s, size);
    PartitionBounds(s);
    PopWords(row, base, s, size);
    hide PopRow, WordOf, SizeOf, Count, ObjAddr, Tagged, Partition;
    assert Linked(row, base, s, 0);
    var out := PopRow(row, s.cls, k, size);
    forall j: nat | j < |t.free|
      ensures Linked(out, base, t, j)
    {
      assert t.free[j] == s.free[j + 1] != k;
      assert Linked(row, base, s, j + 1);
    }
  }

  /* ---------- kfree puts the object back at the head ---------- */

  function Push(s: Slab, k: nat): Slab {
    s.(free := [k] + s.free, live := s.live - {k})
  }

  function PushRow(row: seq<nat>, base: nat, cls: nat, k: nat): seq<nat>
    requires cls < CLASSES && |row| == ROW && k < Count(cls)
  {
    ObjectLayout(cls, k, k);
    row[ObjWord(cls, k) := row[1]][1 := ObjAddr(base, cls, k)]
  }

  lemma {:induction false} PushKeepsPartition(s: Slab, k: nat)
    requires Partition(s) && k in s.live
    ensures Partition(Push(s, k)) && k !in s.free
  {
    var t := Push(s, k);
    hide Count;
    assert t.free[0] == k && forall j :: 0 <= j < |s.free| ==> t.free[j + 1] == s.free[j];
    forall m: nat | m < Count(s.cls)
      ensures m in t.free <==> m !in t.live
    {
      if m in s.free {
        var j :| 0 <= j < |s.free| && s.free[j] == m;
        assert t.free[j + 1] == m;
      }
    }
  }

  lemma {:induction false} PushWords(row: seq<nat>, base: nat, s: Slab, k: nat)
    requires Represents(row, base, s) && k in s.live
    ensures
      var out := PushRow(row, base, s.cls, k);
      && |out| == ROW && out[0] == row[0] && out[1] == ObjAddr(base, s.cls, k)
      && WordOf(out, s.cls, k) == row[1]
      && forall m: nat :: m < Count(s.cls) && m != k ==>
           WordOf(out, s.cls, m) == WordOf(row, s.cls, m) && SizeOf(out, s.cls, m) == SizeOf(row, s.cls, m)
  {
    var out := PushRow(row, base, s.cls, k);
    ObjectLayout(s.cls, k, k);
    hide ObjWord, ObjWords, Count, Partition;
    forall m: nat | m < Count(s.cls) && m != k
      ensures WordOf(out, s.cls, m) == WordOf(row, s.cls, m) && SizeOf(out, s.cls, m) == SizeOf(row, s.cls, m)
    {
      OtherObject(row, out, s.cls, k, m);
    }
  }

  lemma {:induction false} PushRepresents(row: seq<nat>, base: nat, s: Slab, k: nat)
    requires Represents(row, base, s) && k in s.live
    ensures Represents(PushRow(row, base, s.cls, k), base, Push(s, k))
  {
    var t := Push(s, k);
    PushKeepsPartition(s, k);
    PartitionBounds(s);
    PushWords(row, base, s, k);
    hide PushRow, WordOf, SizeOf, Count, ObjAddr, Tagged, Partition;
    var out := PushRow(row, base, s.cls, k);
    forall j: nat | j < |t.free|
      ensures Linked(out, base, t, j)
    {
      if j > 0 {
        assert t.free[j] == s.free[j - 1] != k;
        assert Linked(row, base, s, j - 1);
      }
    }
  }

  lemma {:induction false} PartitionBounds(s: Slab)
    requires Partition(s)
    ensures s.cls < CLASSES
    ensures forall j :: 0 <= j < |s.free| ==> s.free[j] < Count(s.cls)
    ensures forall k :: k in s.live ==> k < Count(s.cls) && k !in s.free
    ensures forall i, j :: 0 <= i < j < |s.free| ==> s.free[i] != s.free[j]
  {
  }

  /* ---------- the owner of a live object writes inside it ---------- */

  /** Word `w` of the page is payload of live object `k`: past its allocation header and inside its size. */
  ghost predicate PayloadWord(s: Slab, k: nat, w: nat) {
    && s.cls < CLASSES && k in s.live
    && ObjWord(s.cls, k) + HEADER_WORDS <= w < ObjWord(s.cls, k) + HEADER_WORDS + (s.live[k] + 7) / 8
  }

  lemma {:induction false} StoreRepresents(row: seq<nat>, base: nat, s: Slab, k: nat, w: nat, v: nat)
    requires Represents(row, base, s) && PayloadWord(s, k, w) && s.live[k] + 24 <= ObjSize(s.cls)
    ensures w < ROW && Represents(row[w := v], base, s)
  {
    ObjectLayout(s.cls, k, k);
    assert w < ObjWord(s.cls, k) + ObjWords(s.cls);
    var out := row[w := v];
    PartitionBounds(s);
    hide ObjWord, ObjWords, Count, ObjAddr, Tagged, Partition;
    forall m: nat | m < Count(s.cls)
      ensures WordOf(out, s.cls, m) == WordOf(row, s.cls, m)
      ensures SizeOf(out, s.cls, m) == SizeOf(row, s.cls, m)
    {
      if m != k {
        OtherObject(row, out, s.cls, k, m);
      }
    }
    forall j: nat | j < |s.free|
      ensures Linked(out, base, s, j)
    {
      assert Linked(row, base, s, j);
    }
  }

  /* ---------- the tag of a free object ---------- */

  /** The 32-bit tag that overlays a free object's `next` pointer is never one of the magics: object addresses
      are multiples of 8 and both magics are odd. */
  lemma {:induction false} FreeTag(row: seq<nat>, base: nat, s: Slab, k: nat)
    requires Represents(row, base, s) && base % 8 == 0 && k in s.free
    ensures WordOf(row, s.cls, k) % HALF != MAGIC_SLAB && WordOf(row, s.cls, k) % HALF != MAGIC_PAGE
  {
    var j :| 0 <= j < |s.free| && s.free[j] == k;
    FreePtrTag(base, s, j + 1);
    hide ObjWord, ObjWords, Count, FreePtr, Tagged;
    assert Linked(row, base, s, j);
  }

  lemma {:induction false} FreePtrTag(base: nat, s: Slab, j: nat)
    requires base % 8 == 0 && s.cls < CLASSES
    ensures FreePtr(base, s, j) % HALF != MAGIC_SLAB && FreePtr(base, s, j) % HALF != MAGIC_PAGE
  {
    hide ObjWord;
    LowHalfOfAligned(0);
    if j < |s.free| {
      var w := ObjWord(s.cls, s.free[j]);
      assert (base + 8 * w) % 8 == 0;
      LowHalfOfAligned(base + 8 * w);
    }
  }

  lemma {:induction false} LowHalfOfAligned(p: nat)
    requires p % 8 == 0
    ensures p % HALF != MAGIC_SLAB && p % HALF != MAGIC_PAGE
  {
    assert p % HALF == p - HALF * (p / HALF);
    assert p % HALF % 8 == 0;
  }

  /* ---------- create_slab ---------- */

  function Upto(n: nat): (s: seq<nat>)
    ensures |s| == n && forall i :: 0 <= i < n ==> s[i] == i
  {
    seq(n, i => i)
  }

  function FreshSlab(cls: nat): Slab
    requires cls < CLASSES
  {
    Slab(cls, Upto(Count(cls)), map[])
  }

  /** The loop of `create_slab` after `n` objects: each written object points to the next, the last to NULL. */
  function LinkObjects(row: seq<nat>, base: nat, cls: nat, n: nat): (out: seq<nat>)
    requires cls < CLASSES && |row| == ROW && n <= Count(cls)
    ensures |out| == ROW
  {
    if n == 0 then row
    else
      ObjectLayout(cls, n - 1, n - 1);
      LinkObjects(row, base, cls, n - 1)[ObjWord(cls, n - 1) := if n < Count(cls) then ObjAddr(base, cls, n) else 0]
  }

  function FreshRow(row: seq<nat>, base: nat, cls: nat): (out: seq<nat>)
    requires cls < CLASSES && |row| == ROW
    ensures |out| == ROW
  {
    LinkObjects(row[0 := ObjSize(cls)][2 := 0][1 := ObjAddr(base, cls, 0)], base, cls, Count(cls))
  }

  lemma {:induction false} LinkedObjects(row: seq<nat>, base: nat, cls: nat, n: nat)
    requires cls < CLASSES && |row| == ROW && n <= Count(cls)
    ensures
      var out := LinkObjects(row, base, cls, n);
      && out[0] == row[0] && out[1] == row[1] && out[2] == row[2]
      && forall k: nat :: k < n ==> WordOf(out, cls, k) == if k + 1 < Count(cls) then ObjAddr(base, cls, k + 1) else 0
    decreases n
  {
    if n > 0 {
      LinkedObjects(row, base, cls, n - 1);
      var before, out := LinkObjects(row, base, cls, n - 1), LinkObjects(row, base, cls, n);
      ObjectLayout(cls, n - 1, n - 1);
      assert out == before[ObjWord(cls, n - 1) := if n < Count(cls) then ObjAddr(base, cls, n) else 0];
      hide LinkObjects, ObjAddr, ObjWord, ObjWords, Count;
      forall k: nat | k < n
        ensures WordOf(out, cls, k) == if k + 1 < Count(cls) then ObjAddr(base, cls, k + 1) else 0
      {
        if k < n - 1 {
          ObjectLayout(cls, k, n - 1);
          assert out[ObjWord(cls, k)] == before[ObjWord(cls, k)] == WordOf(before, cls, k);
        } else {
          assert out[ObjWord(cls, k)] == if n < Count(cls) then ObjAddr(base, cls, n) else 0;
        }
      }
    }
  }

  lemma {:induction false} FreshRepresents(row: seq<nat>, base: nat, cls: nat)
    requires cls < CLASSES && |row| == ROW
    ensures Represents(FreshRow(row, base, cls), base, FreshSlab(cls))
    ensures FreshRow(row, base, cls)[2] == 0
  {
    var start := row[0 := ObjSize(cls)][2 := 0][1 := ObjAddr(base, cls, 0)];
    LinkedObjects(start, base, cls, Count(cls));
    CountValues();
    var s, out := FreshSlab(cls), FreshRow(row, base, cls);
    hide ObjWord, LinkObjects;
    forall j: nat | j < |s.free|
      ensures Linked(out, base, s, j)
    {
      assert s.free[j] == j;
    }
    forall k: nat | k < Count(cls)
      ensures k in s.free
    {
      assert s.free[k] == k;
    }
    assert out[0] == ObjSize(cls);
    assert out[1] == ObjAddr(base, cls, 0) == FreePtr(base, s, 0) by {
      assert s.free[0] == 0 && |s.free| > 0;
    }
  }
}
