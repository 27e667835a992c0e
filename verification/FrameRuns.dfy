/** Whole runs of the frame allocator: every interleaving of `pmm_alloc` and `pmm_free` after `pmm_init`. */
module FrameRuns {
  import opened Words
  import opened FrameAllocator

  datatype Event =
    | Got(frame: nat)    // pmm_alloc returned this frame
    | Exhausted          // pmm_alloc returned 0
    | Freed(frame: nat)  // pmm_free of a frame that was in use

  /** The events `Pmm.Alloc` and `Pmm.FreeFrame` can produce when the free set is `free` and the allocator
      manages the frames `managed`. */
  ghost predicate Possible(free: set<nat>, managed: set<nat>, e: Event) {
    match e
    case Got(f) => free != {} && f == Lowest(free)
    case Exhausted => free == {}
    case Freed(f) => f in managed - free
  }

  ghost function After(free: set<nat>, e: Event): set<nat> {
    match e
    case Got(f) => free - {f}
    case Exhausted => free
    case Freed(f) => free + {f}
  }

  /** `pmm_alloc` produces one of these events. */
  method Allocate(p: Pmm, ghost managed: set<nat>) returns (addr: nat, ghost e: Event)
    requires p.Valid()
    modifies p`freePages, p.bitmap
    ensures p.Valid() && Possible(old(p.Free()), managed, e) && p.Free() == After(old(p.Free()), e)
    ensures addr == if e.Got? then e.frame * PAGE_SIZE else 0
  {
    ghost var free := p.Free();
    addr := p.Alloc();
    e := if free == {} then Exhausted else Got(Lowest(free));
  }

  /** `pmm_free` of a managed frame in use produces one of these events. */
  method Release(p: Pmm, addr: nat, ghost managed: set<nat>) returns (ghost e: Event)
    requires p.Valid() && addr / PAGE_SIZE < p.totalPages && addr / PAGE_SIZE in managed - p.Free()
    modifies p`freePages, p.bitmap
    ensures p.Valid() && Possible(old(p.Free()), managed, e) && p.Free() == After(old(p.Free()), e)
  {
    p.FreeFrame(addr);
    e := Freed(addr / PAGE_SIZE);
  }

  ghost predicate IsRun(free: set<nat>, managed: set<nat>, run: seq<Event>)
    decreases run
  {
    run == [] || (Possible(free, managed, run[0]) && IsRun(After(free, run[0]), managed, run[1..]))
  }

  ghost function FreeAfter(free: set<nat>, run: seq<Event>): set<nat>
    decreases run
  {
    if run == [] then free else FreeAfter(After(free, run[0]), run[1..])
  }

  function Allocations(run: seq<Event>): nat {
    if run == [] then 0 else (if run[0].Got? then 1 else 0) + Allocations(run[1..])
  }

  function Releases(run: seq<Event>): nat {
    if run == [] then 0 else (if run[0].Freed? then 1 else 0) + Releases(run[1..])
  }

  /** In every run, a frame that is in use is not handed out again before it is freed. */
  lemma {:induction false} HandedOutAgainOnlyAfterFree(
    free: set<nat>, managed: set<nat>, run: seq<Event>, f: nat, j: nat)
    requires IsRun(free, managed, run)
    requires f !in free && j < |run| && run[j] == Got(f)
    ensures exists k :: 0 <= k < j && run[k] == Freed(f)
    decreases run
  {
    if run[0] != Freed(f) {
      assert run[j] == run[1..][j - 1];
      HandedOutAgainOnlyAfterFree(After(free, run[0]), managed, run[1..], f, j - 1);
      var k :| 0 <= k < j - 1 && run[1..][k] == Freed(f);
      assert run[k + 1] == Freed(f);
    }
  }

  lemma {:induction false} NoDoubleHandout(free: set<nat>, managed: set<nat>, run: seq<Event>, i: nat, j: nat)
    requires IsRun(free, managed, run)
    requires i < j < |run| && run[i].Got? && run[j] == run[i]
    ensures exists k :: i < k < j && run[k] == Freed(run[i].frame)
    decreases run
  {
    var f := run[i].frame;
    if i == 0 {
      assert run[1..][j - 1] == run[j];
      HandedOutAgainOnlyAfterFree(After(free, run[0]), managed, run[1..], f, j - 1);
      var k :| 0 <= k < j - 1 && run[1..][k] == Freed(f);
      assert run[k + 1] == Freed(f);
    } else {
      assert run[1..][i - 1] == run[i] && run[1..][j - 1] == run[j];
      NoDoubleHandout(After(free, run[0]), managed, run[1..], i - 1, j - 1);
      var k :| i - 1 < k < j - 1 && run[1..][k] == Freed(f);
      assert run[k + 1] == Freed(f);
    }
  }

  /** Starting from the frames `pmm_init` freed, only managed frames are ever handed out: never a frame the
      memory map does not call usable, never a frame of the bitmap. The free count moves by one per event. */
  lemma {:induction false} OnlyManagedFrames(free: set<nat>, managed: set<nat>, run: seq<Event>)
    requires IsRun(free, managed, run) && free <= managed
    ensures forall i :: 0 <= i < |run| && run[i].Got? ==> run[i].frame in managed
    ensures FreeAfter(free, run) <= managed
    ensures |FreeAfter(free, run)| + Allocations(run) == |free| + Releases(run)
    decreases run
  {
    if run != [] {
      OnlyManagedFrames(After(free, run[0]), managed, run[1..]);
      forall i | 0 <= i < |run| && run[i].Got?
        ensures run[i].frame in managed
      {
        if i > 0 {
          assert run[1..][i - 1] == run[i];
        }
      }
    }
  }
}
