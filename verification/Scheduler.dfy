/** The scheduler as it runs (kernel/src/scheduler/scheduler.c, thread.c): thread objects chained through `next`. */
module Scheduler {
  import opened Common
  import opened Scheduling
  import Lists = UnlockedAddition

  class Tcb {
    const id: nat
    var state: ThreadState
    var context: Registers
    var wakeTick: nat
    var quantum: nat
    var next: Tcb?

    ghost function Snapshot(): Thread
      reads this
    {
      Thread(state, context, wakeTick, quantum)
    }

    /** A thread as `thread_create` leaves it. */
    constructor (id: nat, context: Registers)
      ensures this.id == id && Snapshot() == NewThread(context) && next == null
    {
      this.id := id;
      state := Ready;
      this.context := context;
      wakeTick := 0;
      quantum := QUANTUM;
      next := null;
    }
  }

  /** The interrupt frame, a `registers_t` the handler works on in place. */
  class Frame {
    var regs: Registers

    constructor (regs: Registers)
      ensures this.regs == regs
    {
      this.regs := regs;
    }
  }

  /** A `next` pointer, as the number of the thread it leads to. */
  ghost function LinkOf(t: Tcb?): Option<nat> {
    if t == null then None else Some(t.id)
  }

  /** Node `k` of the list, NULL past its end. */
  ghost function Node(q: seq<Tcb>, k: nat): Tcb? {
    if k < |q| then q[k] else null
  }

  ghost predicate NextOk(q: seq<Tcb>, i: nat)
    requires i < |q|
    reads q`next
  {
    q[i].next == Node(q, i + 1)
  }

  /** The objects of `q`, in order, form the list that starts at `head`. */
  ghost predicate IsList(q: seq<Tcb>, head: Tcb?)
    reads q`next
  {
    && head == Node(q, 0)
    && (forall i: nat :: i < |q| ==> NextOk(q, i))
    && (forall i, j :: 0 <= i < j < |q| ==> q[i] != q[j])
  }

  ghost function Ids(q: seq<Tcb>): (s: seq<nat>)
    ensures |s| == |q| && forall i :: 0 <= i < |q| ==> s[i] == q[i].id
  {
    seq(|q|, i requires 0 <= i < |q| => q[i].id)
  }

  class RunQueue {
    const idle: Tcb
    var head: Tcb?          // run_queue
    var current: Tcb
    var locked: bool
    var ticks: nat          // timer_ticks
    ghost var all: map<nat, Tcb>
    ghost var queue: seq<Tcb>
    ghost var destroyed: set<nat>

    ghost predicate Known(t: Tcb)
      reads this`all
    {
      t.id in all && all[t.id] == t
    }

    /** The `next` pointers in memory. */
    ghost function Pointers(): map<nat, Option<nat>>
      reads this`all, all.Values`next
    {
      map i | i in all :: LinkOf(all[i].next)
    }

    /** The list in memory is the ghost sequence, and every thread is registered under its own number. */
    ghost predicate Valid()
      reads this, queue`next
    {
      && (forall i :: i in all ==> all[i].id == i)
      && Known(idle) && Known(current) && (forall j: nat :: j < |queue| ==> Known(queue[j]))
      && IsList(queue, head)
    }

    ghost function Value(): Sched
      reads this, all.Values
    {
      Sched(Table(), Ids(queue), current.id, idle.id, locked, ticks, destroyed, Nothing)
    }

    ghost function Table(): map<nat, Thread>
      reads this`all, all.Values
    {
      map i | i in all :: all[i].Snapshot()
    }

    /** `scheduler_init`, with the idle function and the boot stack. The idle thread's number is UINT64_MAX. */
    constructor (entry: nat, sp: nat)
      ensures Valid() && Value() == Initial(0xffff_ffff_ffff_ffff, idle.context)
      ensures fresh(idle) && current == idle
      ensures
        idle.context == Registers(
          r15 := 0, r14 := 0, r13 := 0, r12 := 0, r11 := 0, r10 := 0, r9 := 0, r8 := 0,
          rbp := 0, rdi := 0, rsi := 0, rdx := 0, rcx := 0, rbx := 0, rax := 0,
          rip := entry, cs := 0x08, rflags := 0x202, rsp := sp, ss := 0x10)
    {
      var t := new Tcb(0xffff_ffff_ffff_ffff, Registers(
        r15 := 0, r14 := 0, r13 := 0, r12 := 0, r11 := 0, r10 := 0, r9 := 0, r8 := 0,
        rbp := 0, rdi := 0, rsi := 0, rdx := 0, rcx := 0, rbx := 0, rax := 0,
        rip := entry, cs := 0x08, rflags := 0x202, rsp := sp, ss := 0x10));
      idle := t;
      head := null;
      current := t;
      locked := false;
      ticks := 0;
      all := map[0xffff_ffff_ffff_ffff := t];
      queue := [];
      destroyed := {};
    }

    /** The wake pass. */
    method WakeAll(ghost s: Sched)
      requires Valid() && s == Value()
      modifies all.Values`state
      ensures Valid() && Value() == Wake(s)
    {
      hide Wake;
      QueueMembers();
      WakeLoop(s, queue);
      forall i | i in all
        ensures all[i].Snapshot() == if i in s.queue then Woken(s.threads[i], s.ticks) else s.threads[i]
      {
        if i in s.queue {
          var j :| 0 <= j < |queue| && s.queue[j] == i;
          assert Known(queue[j]);
        }
      }
      WakeIs(s, Value().threads);
    }

    /** The loop of the wake pass. */
    method WakeLoop(ghost s: Sched, ghost q: seq<Tcb>)
      requires q == queue && IsList(q, head) && ticks == s.ticks
      requires forall j: nat :: j < |q| ==> Known(q[j]) && q[j].id in s.threads && q[j].Snapshot() == s.threads[q[j].id]
      modifies q`state
      ensures forall j: nat :: j < |q| ==> q[j].state == Woken(s.threads[q[j].id], s.ticks).state
    {
      var t := head;
      ghost var k := 0;
      while t != null
        invariant k <= |q| && t == Node(q, k)
        invariant forall j: nat :: j < |q| ==> q[j].state == PassState(s, q[j].id, j < k)
        decreases |q| - k
      {
        assert NextOk(q, k);
        if t.state == Blocked && ticks >= t.wakeTick {
          t.state := Ready;
        }
        t := t.next;
        k := k + 1;
      }
    }

    lemma {:induction false} NotQueued(t: Tcb)
      requires Valid() && Known(t) && t.id !in Ids(queue)
      ensures t !in queue
    {
      QueueMembers();
    }

    /** A registered thread is queued exactly when its number is. */
    lemma {:induction false} QueueMembers()
      requires Valid()
      ensures forall i :: i in all ==> (all[i] in queue <==> i in Ids(queue))
    {
      forall i | i in all
        ensures all[i] in queue <==> i in Ids(queue)
      {
        if i in Ids(queue) {
          var k :| 0 <= k < |queue| && Ids(queue)[k] == i;
          assert queue[k] in queue && Known(queue[k]);
        }
        if all[i] in queue {
          var k :| 0 <= k < |queue| && queue[k] == all[i];
          assert Ids(queue)[k] == i;
        }
      }
    }

    /** Node `m` leaves the list: its predecessor, or the head, is set to its successor. */
    method UnlinkNode(prev: Tcb?, after: Tcb?, ghost m: nat)
      requires IsList(queue, head) && m < |queue| && after == Node(queue, m + 1)
      requires prev == if m == 0 then null else queue[m - 1]
      modifies this`head, this`queue, Only(prev)`next
      ensures queue == old(queue)[..m] + old(queue)[m + 1..] && IsList(queue, head)
    {
      ghost var q := queue;
      assert forall i: nat :: i < |q| ==> NextOk(q, i);
      if prev != null {
        prev.next := after;
      } else {
        head := after;
      }
      queue := q[..m] + q[m + 1..];
      assert forall i: nat :: i < |queue| ==> queue[i] == if i < m then q[i] else q[i + 1];
      forall i: nat | i < |queue|
        ensures NextOk(queue, i)
      {
        assert old(NextOk(q, if i < m then i else i + 1));
      }
    }

    /** One turn of the reap pass. */
    method ReapNode(prev: Tcb?, t: Tcb, ghost q: seq<Tcb>, ghost done: seq<Tcb>, ghost k: nat)
      returns (prev1: Tcb?, after: Tcb?, ghost done1: seq<Tcb>)
      requires k < |q| && queue == done + q[k..] && IsList(queue, head) && t == q[k] && prev == LastOf(done)
      modifies this`head, this`queue, this`destroyed, Only(prev)`next
      ensures done1 == (if t.state == Dead then done else done + [t])
      ensures queue == done1 + q[k + 1..] && IsList(queue, head)
      ensures after == Node(queue, |done1|) && prev1 == LastOf(done1) && (prev1 == prev || prev1 == t)
      ensures destroyed == old(destroyed) + (if t.state == Dead then {t.id} else {})
    {
      Dropped(done, q, k);
      assert NextOk(queue, |done|);
      after := t.next;
      if t.state == Dead {
        prev1, done1 := prev, done;
        UnlinkNode(prev, after, |done|);
        destroyed := destroyed + {t.id};
      } else {
        prev1, done1 := t, done + [t];
      }
    }

    /** The loop of the reap pass. */
    method ReapLoop(ghost s: Sched, ghost q: seq<Tcb>) returns (ghost done: seq<Tcb>)
      requires q == queue && IsList(q, head) && destroyed == s.destroyed
      requires forall j: nat :: j < |q| ==> Known(q[j]) && (q[j].state == Dead <==> IsDead(s.threads, q[j].id))
      modifies this`head, this`queue, this`destroyed, all.Values`next
      ensures queue == done && IsList(queue, head) && Reaped(s, destroyed, q, done, |q|)
    {
      hide Reaped, Ids, Alive, DeadOnes;
      done := [];
      ghost var k: nat := 0;
      var prev: Tcb?, t := null, head;
      ReapStarts(s, q);
      while t != null
        invariant k <= |q| && queue == done + q[k..] && IsList(queue, head)
        invariant t == Node(queue, |done|) && prev == LastOf(done) && (prev != null ==> Known(prev))
        invariant Reaped(s, destroyed, q, done, k)
        decreases |q| - k
      {
        Dropped(done, q, k);
        assert Known(q[k]);
        ReapedStep(s, destroyed, q, done, k);
        prev, t, done := ReapNode(prev, t, q, done, k);
        k := k + 1;
      }
      assert k == |q| && done + q[k..] == done;
    }

    /** The reap pass: dead threads are unlinked and destroyed, the others keep their order. */
    method ReapAll(ghost s: Sched)
      requires Valid() && s == Value()
      modifies this`head, this`queue, this`destroyed, all.Values`next
      ensures Valid() && Value() == Reap(s)
    {
      hide Reap, Reaped;
      ghost var q := queue;
      ghost var done := ReapLoop(s, q);
      ReapEnds(s, destroyed, q, done, |q|);
      KnownPart(q, done);
    }

    lemma {:induction false} KnownPart(q: seq<Tcb>, part: seq<Tcb>)
      requires forall j: nat :: j < |q| ==> Known(q[j])
      requires forall i: nat :: i < |part| ==> part[i] in q
      ensures forall i: nat :: i < |part| ==> Known(part[i])
    {
    }

    /** The selection loop: the first ready thread is unlinked; idle when there is none. */
    method SelectNext(ghost s: Sched) returns (next: Tcb)
      requires Valid() && s == Value()
      modifies this`head, this`queue, all.Values`next
      ensures Valid() && Known(next)
      ensures Value() == s.(queue := Select(s).0) && next.id == Select(s).1
    {
      hide Ids;
      var prev: Tcb?, candidate := null, head;
      ghost var k: nat := 0;
      while candidate != null
        invariant k <= |queue| && candidate == Node(queue, k) && prev == (if k == 0 then null else queue[k - 1])
        invariant forall i: nat :: i < k ==> !IsReady(s.threads, s.queue[i])
        decreases |queue| - k
      {
        assert Known(queue[k]) && NextOk(queue, k) && s.queue[k] == queue[k].id;
        if candidate.state == Ready {
          FirstReadyIs(s.threads, s.queue, k);
          assert k > 0 ==> Known(queue[k - 1]);
          Taken(candidate, prev, s, k);
          return candidate;
        }
        prev := candidate;
        candidate := candidate.next;
        k := k + 1;
      }
      FirstReadyIs(s.threads, s.queue, k);
      next := idle;
    }

    /** The ready candidate at position `k` leaves the queue. */
    method Taken(candidate: Tcb, prev: Tcb?, ghost s: Sched, ghost k: nat)
      requires Valid() && s == Value() && k < |queue| && candidate == queue[k]
      requires prev == (if k == 0 then null else queue[k - 1])
      modifies this`head, this`queue, all.Values`next
      ensures Valid() && Value() == s.(queue := s.queue[..k] + s.queue[k + 1..])
    {
      ghost var q := queue;
      assert NextOk(q, k) && (k > 0 ==> Known(q[k - 1]));
      UnlinkNode(prev, candidate.next, k);
      IdsWithout(q, k);
      KnownPart(q, queue);
    }

    /** The register by register copy of the frame into the outgoing context. */
    method SaveContext(t: Tcb, frame: Frame)
      modifies t`context
      ensures t.context == frame.regs
    {
      var f := frame.regs;
      t.context := t.context.(rip := f.rip, rsp := f.rsp, rbp := f.rbp, cs := f.cs, ss := f.ss, rflags := f.rflags);
      t.context := t.context.(rax := f.rax, rbx := f.rbx, rcx := f.rcx, rdx := f.rdx, rsi := f.rsi, rdi := f.rdi);
      t.context := t.context.(r8 := f.r8, r9 := f.r9, r10 := f.r10, r11 := f.r11);
      t.context := t.context.(r12 := f.r12, r13 := f.r13, r14 := f.r14, r15 := f.r15);
    }

    /** The copy of the incoming context into the frame. */
    method RestoreContext(t: Tcb, frame: Frame)
      modifies frame
      ensures frame.regs == t.context
    {
      var c := t.context;
      frame.regs := frame.regs.(rip := c.rip, rsp := c.rsp, rbp := c.rbp, rax := c.rax, rbx := c.rbx, rcx := c.rcx);
      frame.regs := frame.regs.(rdx := c.rdx, rsi := c.rsi, rdi := c.rdi, ss := c.ss, cs := c.cs, rflags := c.rflags);
      frame.regs := frame.regs.(r8 := c.r8, r9 := c.r9, r10 := c.r10, r11 := c.r11);
      frame.regs := frame.regs.(r12 := c.r12, r13 := c.r13, r14 := c.r14, r15 := c.r15);
    }

    /** The outgoing thread goes to the head of the queue. */
    method PushCurrent(ghost s: Sched)
      requires Valid() && s == Value() && current !in queue
      modifies this`head, this`queue, current`next
      ensures Valid() && Value() == s.(queue := [s.current] + s.queue)
    {
      ghost var q := queue;
      PushNode(current);
      IdsOfPushed(current, q);
      assert forall i: nat :: 0 < i < |queue| ==> queue[i] == q[i - 1];
    }

    /** What happens to the outgoing thread: requeued unless dead or idle, its registers saved. */
    method Retire(frame: Frame, ghost s: Sched)
      requires Valid() && s == Value() && current !in queue
      modifies this`head, this`queue, current
      ensures Valid()
      ensures Value() == Retired(s, frame.regs)
    {
      if current == idle {
        RetireIdle(s, frame.regs);
        return;
      }
      var dead := current.state == Dead;
      SaveOutgoing(frame, s);
      if !dead {
        PushCurrent(Value());
      }
    }

    method SaveOutgoing(frame: Frame, ghost s: Sched)
      requires Valid() && s == Value()
      modifies current`state, current`quantum, current`context
      ensures Valid() && Value() == s.(threads := s.threads[s.current := Saved(s.threads[s.current], frame.regs)])
    {
      assert s.threads[s.current] == current.Snapshot();
      if current.state == Running {
        current.state := Ready;
        current.quantum := QUANTUM;
      }
      SaveContext(current, frame);
      assert current.Snapshot() == Saved(s.threads[s.current], frame.regs);
      forall i | i in all && i != s.current
        ensures all[i].Snapshot() == s.threads[i]
      {
        assert all[i] != current;
      }
      assert Value().threads == s.threads[s.current := current.Snapshot()];
    }

    lemma {:induction false} RetireIdle(s: Sched, frame: Registers)
      requires Valid() && current == idle && s == Value()
      ensures Retired(s, frame) == s
    {
    }

    /** The next thread becomes current, running, with a full quantum. */
    method Enter(next: Tcb, ghost s: Sched)
      requires Valid() && s == Value() && Known(next)
      modifies this`current, next`state, next`quantum
      ensures Valid() && Value() == Entered(s, next.id)
      ensures current == next && next.id in s.threads && next.context == s.threads[next.id].context
    {
      hide Ids;
      current := next;
      assert Value().threads == s.threads && s.threads[next.id] == next.Snapshot();
      MarkRunning(Value());
    }

    method MarkRunning(ghost s: Sched)
      requires Valid() && s == Value()
      modifies current`state, current`quantum
      ensures Valid() && s.current in s.threads
      ensures Value() == UpdateCurrent(s, s.threads[s.current].(state := Running, quantum := QUANTUM))
    {
      assert s.threads[s.current] == current.Snapshot();
      current.state := Running;
      current.quantum := QUANTUM;
      OthersKept(s);
    }

    /** The switch: select, put the outgoing thread away, let the next one in. */
    method SwitchNow(frame: Frame, ghost s: Sched, ghost f: Registers)
      requires Valid() && s == Value() && Inv(s) && f == frame.regs
      modifies this`head, this`queue, this`current, all.Values, frame
      ensures Valid() && (Value(), frame.regs) == Switch(s, f)
    {
      hide Inv, Switch, Select, Retired, Entered, Ids;
      SelectedIsOut(s);
      SwitchIs(s, f);
      var next := SelectNext(s);
      HandOver(next, frame, Value(), f);
      RestoreContext(current, frame);
    }

    /** The outgoing thread is put away and the next one let in. */
    method HandOver(next: Tcb, frame: Frame, ghost s: Sched, ghost f: Registers)
      requires Valid() && s == Value() && Known(next) && f == frame.regs && s.current !in s.queue
      requires next.id in Retired(s, f).threads
      modifies this`head, this`queue, this`current, all.Values
      ensures Valid() && Value() == Entered(Retired(s, f), next.id)
      ensures current == next && next.context == Retired(s, f).threads[next.id].context
    {
      hide Retired, Entered, Ids;
      NotQueued(current);
      Retire(frame, s);
      Enter(next, Value());
    }

    /** The current thread is charged one tick; tells whether its slice is used up. */
    method Charge(ghost s: Sched) returns (over: bool)
      requires Valid() && s == Value()
      modifies current`quantum
      ensures Valid() && s.current in s.threads
      ensures
        var t := s.threads[s.current];
        var q := if t.quantum > 0 then t.quantum - 1 else 0;
        Value() == UpdateCurrent(s, t.(quantum := q)) && over == (q == 0)
    {
      assert s.threads[s.current] == current.Snapshot();
      if current.quantum > 0 {
        current.quantum := current.quantum - 1;
      }
      over := current.quantum == 0;
      OthersKept(s);
    }

    twostate lemma {:induction false} OthersKept(s: Sched)
      requires old(Valid()) && s == old(Value())
      requires all == old(all) && queue == old(queue) && current == old(current) && locked == old(locked)
      requires ticks == old(ticks) && destroyed == old(destroyed)
      requires forall i :: i in all && all[i] != current ==> unchanged(all[i])
      ensures s.current in s.threads && Value() == UpdateCurrent(s, current.Snapshot())
    {
      forall i | i in all && i != s.current
        ensures all[i].Snapshot() == s.threads[i]
      {
        assert all[i] != current;
      }
      assert Value().threads == UpdateCurrent(s, current.Snapshot()).threads;
    }

    /** `scheduler_tick_irq`. */
    method TickIrq(frame: Frame, ghost s: Sched, ghost f: Registers)
      requires Valid() && s == Value() && Inv(s) && f == frame.regs
      modifies this`head, this`queue, this`current, this`destroyed, all.Values, frame
      ensures Valid() && (Value(), frame.regs) == Tick(s, f)
    {
      if locked {
        return;
      }
      hide Inv, Wake, Reap, Switch, Table;
      TickReady(s);
      WakeAll(s);
      ReapAll(Value());
      var over := Charge(Value());
      if over {
        SwitchNow(frame, Value(), f);
      }
    }

    /** The timer branch of `isr_handler`. */
    method TimerIrq(frame: Frame, ghost s: Sched, ghost f: Registers)
      requires Valid() && s == Value() && Inv(s) && f == frame.regs
      modifies this`head, this`queue, this`current, this`destroyed, this`ticks, all.Values, frame
      ensures Valid() && (Value(), frame.regs) == Interrupt(s, f)
    {
      hide Inv, Tick;
      CurrentKnown(s);
      FlagsIrrelevant(s, s.locked, (s.ticks + 1) % WORD);
      assert s.(locked := s.locked, ticks := (s.ticks + 1) % WORD) == s.(ticks := (s.ticks + 1) % WORD);
      ticks := (ticks + 1) % WORD;
      assert Value().threads == s.threads;
      assert Value() == s.(ticks := (s.ticks + 1) % WORD);
      TickIrq(frame, Value(), f);
    }

    /** The masked part of `thread_sleep`. */
    method ThreadSleep(ms: nat, ghost s: Sched)
      requires Valid() && s == Value()
      modifies current`state, current`wakeTick
      ensures Valid() && Value() == Sleep(s, ms)
    {
      current.state := Blocked;
      current.wakeTick := (ticks + ms) % WORD;
      OthersKept(s);
    }

    /** The masked part of `thread_exit`. */
    method ThreadExit(ghost s: Sched)
      requires Valid() && s == Value()
      modifies current`state
      ensures Valid() && Value() == Exit(s)
    {
      current.state := Dead;
      OthersKept(s);
    }

    /** `scheduler_yield` before its software interrupt. */
    method YieldMark(ghost s: Sched)
      requires Valid() && s == Value()
      modifies current`quantum
      ensures Valid() && Value() == Yield(s)
    {
      current.quantum := 0;
      OthersKept(s);
    }

    /** `scheduler_add_thread`. */
    method AddThread(t: Tcb, ghost s: Sched)
      requires Valid() && s == Value() && t.id !in all && t.Snapshot() == NewThread(t.context)
      modifies this`head, this`queue, this`all, t`next
      ensures Valid() && Value() == Publish(Link(s, t.id, t.context))
    {
      assert forall i: nat :: i < |queue| ==> Known(queue[i]);
      LinkThread(t);
      PublishThread(t, s);
    }

    /** The first store: the new thread points to the head of the list. The scheduler does not see it yet. */
    method LinkThread(t: Tcb)
      requires Valid() && t.id !in all
      modifies t`next
      ensures Valid() && t.next == head && Value() == old(Value())
    {
      ghost var q := queue;
      assert t !in q && forall i: nat :: i < |q| ==> NextOk(q, i);
      t.next := head;
      assert forall i: nat :: i < |q| ==> old(NextOk(q, i)) && NextOk(q, i);
    }

    /** The second store: the new thread becomes the head, and the list goes on wherever its `next` leads. That is the
        queue with the thread in front when the head has not changed since the first store. */
    method PublishThread(t: Tcb, ghost s: Sched)
      requires Valid() && s == Value() && t.id !in all && t.Snapshot() == NewThread(t.context)
      modifies this`head, this`queue, this`all
      ensures head == t && Pointers() == old(Pointers())[t.id := LinkOf(t.next)]
      ensures forall q :: Lists.IsChain(Pointers(), LinkOf(head), q) ==>
        var s1 := s.(threads := s.threads[t.id := NewThread(t.context)], queue := q);
        Lists.Published(s, old(Pointers()), t.id, t.context, LinkOf(t.next), s1)
      ensures t.next == old(head) ==> Valid() && Value() == Publish(Link(s, t.id, t.context))
    {
      hide Ids, IsList, Lists.IsChain, Lists.Published, NextOk, Publish, Link, Pointers, Table;
      ghost var q, before := queue, Pointers();
      NotListed(t);
      if t.next == head { FrontList(t, q); }
      IdsOfPushed(t, q);
      PublishIs(s, t.id, t.context);
      Register(t, s);
      PublishedLists(s, before, Pointers(), t.id, t.context, LinkOf(t.next));
      if t.next == head {
        queue := [t] + q;
        assert forall i: nat :: 0 < i < |queue| ==> queue[i] == q[i - 1];
      }
      head := t;
    }

    /** The new thread is known; nothing in memory changes. */
    ghost method Register(t: Tcb, s: Sched)
      requires s == Value() && t.id !in all && t.Snapshot() == NewThread(t.context)
      modifies this`all
      ensures all == old(all)[t.id := t] && Pointers() == old(Pointers())[t.id := LinkOf(t.next)]
      ensures Value() == s.(threads := s.threads[t.id := NewThread(t.context)])
    {
      all := all[t.id := t];
      assert Value().threads == s.threads[t.id := NewThread(t.context)];
    }

    lemma {:induction false} NotListed(t: Tcb)
      requires Valid() && t.id !in all
      ensures t !in queue && forall j: nat :: j < |queue| ==> queue[j].id != t.id
    {
      assert forall j: nat :: j < |queue| ==> Known(queue[j]);
    }

    /** In a valid state the pointers in memory are those of the run queue. */
    lemma {:induction false} PointersOfQueue()
      requires Valid()
      ensures Lists.IsChain(Pointers(), LinkOf(head), Ids(queue))
    {
      forall i: nat | i < |queue|
        ensures queue[i].id in Pointers() && Pointers()[queue[i].id] == Lists.Nth(Ids(queue), i + 1)
      {
        assert Known(queue[i]) && NextOk(queue, i);
      }
    }

    /** The two stores that put a node at the head of the list. */
    method PushNode(t: Tcb)
      requires IsList(queue, head) && t !in queue
      modifies this`head, this`queue, t`next
      ensures queue == [t] + old(queue) && IsList(queue, head)
    {
      ghost var q := queue;
      assert forall i: nat :: i < |q| ==> NextOk(q, i);
      t.next := head;
      head := t;
      queue := [t] + q;
      assert forall i: nat :: 0 < i < |queue| ==> queue[i] == q[i - 1];
      forall i: nat | i < |queue|
        ensures NextOk(queue, i)
      {
        assert i > 0 ==> old(NextOk(q, i - 1));
      }
    }
  }

  lemma {:induction false} PublishIs(s: Sched, t: nat, context: Registers)
    ensures Publish(Link(s, t, context))
         == s.(threads := s.threads[t := NewThread(context)], queue := [t] + s.queue, adding := Nothing)
  {
  }

  /** Every list the pointers make is what the second store publishes. */
  lemma {:induction false} PublishedLists(
    s: Sched, next: map<nat, Option<nat>>, next1: map<nat, Option<nat>>, t: nat, context: Registers, link: Option<nat>)
    requires next1 == next[t := link]
    ensures forall q :: Lists.IsChain(next1, Some(t), q) ==>
      Lists.Published(s, next, t, context, link, s.(threads := s.threads[t := NewThread(context)], queue := q))
  {
  }

  lemma {:induction false} FrontList(t: Tcb, q: seq<Tcb>)
    requires IsList(q, t.next) && t !in q
    ensures IsList([t] + q, t)
  {
    var p := [t] + q;
    forall i: nat | i < |p|
      ensures NextOk(p, i)
    {
      if i > 0 { assert NextOk(q, i - 1); }
    }
  }

  lemma {:induction false} IdsOfPushed(t: Tcb, q: seq<Tcb>)
    ensures Ids([t] + q) == [t.id] + Ids(q)
  {
  }

  /** After selection the current thread is still not in the queue. */
  lemma {:induction false} SelectedIsOut(s: Sched)
    requires Inv(s)
    ensures s.current !in Select(s).0
  {
    SelectParts(s);
  }

  /** The thread `next` is current, running, with a full quantum. */
  ghost function Entered(s: Sched, next: nat): Sched {
    if next !in s.threads then s
    else s.(threads := s.threads[next := s.threads[next].(state := Running, quantum := QUANTUM)], current := next)
  }

  lemma {:induction false} SwitchIs(s: Sched, frame: Registers)
    requires Inv(s)
    ensures
      var (rest, next) := Select(s);
      var out := Retired(s.(queue := rest), frame);
      next in out.threads && Switch(s, frame) == (Entered(out, next), out.threads[next].context)
  {
    SelectParts(s);
    hide Select, Saved;
  }

  /** The invariant holds at each stage of a tick. */
  lemma {:induction false} TickReady(s: Sched)
    requires Inv(s)
    ensures
      var r := Reap(Wake(s));
      && r.current in r.threads
      && var t := r.threads[r.current];
      Inv(UpdateCurrent(r, t.(quantum := if t.quantum > 0 then t.quantum - 1 else 0)))
  {
    WakeKeeps(s);
    ReapFindsNothing(Wake(s));
    hide Wake, Reap;
    var t := Wake(s).threads[Wake(s).current];
    UpdateCurrentKeeps(Wake(s), t.(quantum := if t.quantum > 0 then t.quantum - 1 else 0));
  }

  /** The scheduler after the outgoing thread has been put away and before the next one enters. */
  ghost function Retired(s: Sched, frame: Registers): Sched {
    if s.current == s.idle || s.current !in s.threads then s
    else
      s.(threads := s.threads[s.current := Saved(s.threads[s.current], frame)],
         queue := if s.threads[s.current].state != Dead then [s.current] + s.queue else s.queue)
  }

  lemma {:induction false} FirstReadyIs(threads: map<nat, Thread>, queue: seq<nat>, k: nat)
    requires k <= |queue| && (forall i: nat :: i < k ==> !IsReady(threads, queue[i]))
    requires (k < |queue| ==> IsReady(threads, queue[k]))
    ensures FirstReady(threads, queue) == k
  {
  }

  lemma {:induction false} IdsWithout(q: seq<Tcb>, k: nat)
    requires k < |q|
    ensures Ids(q[..k] + q[k + 1..]) == Ids(q)[..k] + Ids(q)[k + 1..]
  {
  }

  /** Of the first `k` nodes of `q`, those in `done` are kept, the others destroyed. */
  ghost predicate Reaped(s: Sched, destroyed: set<nat>, q: seq<Tcb>, done: seq<Tcb>, k: nat)
    requires k <= |q|
  {
    && Ids(done) == Alive(s.threads, Ids(q[..k])) && destroyed == s.destroyed + DeadOnes(s.threads, Ids(q[..k]))
    && forall i: nat :: i < |done| ==> done[i] in q
  }

  lemma {:induction false} ReapStarts(s: Sched, q: seq<Tcb>)
    ensures Reaped(s, s.destroyed, q, [], 0) && [] + q[0..] == q
  {
    assert q[..0] == [];
    var none: seq<Tcb> := [];
    assert none + q[0..] == q;
  }

  lemma {:induction false} ReapedStep(s: Sched, destroyed: set<nat>, q: seq<Tcb>, done: seq<Tcb>, k: nat)
    requires k < |q| && Reaped(s, destroyed, q, done, k)
    ensures
      var dead := IsDead(s.threads, q[k].id);
      Reaped(s, destroyed + (if dead then {q[k].id} else {}), q, if dead then done else done + [q[k]], k + 1)
  {
    ReapPrefix(s.threads, q, k);
    assert Ids(done + [q[k]]) == Ids(done) + [q[k].id];
  }

  lemma {:induction false} ReapEnds(s: Sched, destroyed: set<nat>, q: seq<Tcb>, done: seq<Tcb>, k: nat)
    requires k <= |q| && Reaped(s, destroyed, q, done, k) && |done + q[k..]| <= |done| && s.queue == Ids(q)
    ensures done + q[k..] == done && Reap(s) == s.(queue := Ids(done), destroyed := destroyed)
    ensures forall i: nat :: i < |done| ==> done[i] in q
  {
    assert q[..k] == q;
  }

  ghost function Only(t: Tcb?): set<Tcb> {
    if t == null then {} else {t}
  }

  /** The last of the nodes kept so far, NULL when there is none. */
  ghost function LastOf(done: seq<Tcb>): Tcb? {
    if done == [] then null else done[|done| - 1]
  }

  lemma {:induction false} Dropped(done: seq<Tcb>, q: seq<Tcb>, k: nat)
    requires k <= |q|
    ensures
      var all := done + q[k..];
      k < |q| ==>
        && |done| < |all| && all[|done|] == q[k]
        && all[..|done|] + all[|done| + 1..] == done + q[k + 1..]
        && all == (done + [q[k]]) + q[k + 1..]
        && (done != [] ==> all[|done| - 1] == done[|done| - 1])
  {
  }

  /** The reap pass one node further. */
  lemma {:induction false} ReapPrefix(threads: map<nat, Thread>, q: seq<Tcb>, k: nat)
    requires k < |q|
    ensures
      var dead := IsDead(threads, q[k].id);
      && Alive(threads, Ids(q[..k + 1])) == Alive(threads, Ids(q[..k])) + (if dead then [] else [q[k].id])
      && DeadOnes(threads, Ids(q[..k + 1])) == DeadOnes(threads, Ids(q[..k])) + (if dead then {q[k].id} else {})
  {
    assert Ids(q[..k + 1]) == Ids(q[..k]) + [q[k].id];
    AliveAppend(threads, Ids(q[..k]), q[k].id);
  }

  lemma {:induction false} AliveAppend(threads: map<nat, Thread>, q: seq<nat>, t: nat)
    ensures Alive(threads, q + [t]) == Alive(threads, q) + (if IsDead(threads, t) then [] else [t])
  {
    if q == [] {
      assert q + [t] == [t];
    } else {
      assert (q + [t])[1..] == q[1..] + [t];
      AliveAppend(threads, q[1..], t);
    }
  }

  lemma {:induction false} WakeIs(s: Sched, threads: map<nat, Thread>)
    requires threads.Keys == s.threads.Keys
    requires forall i :: i in threads ==>
      threads[i] == if i in s.queue then Woken(s.threads[i], s.ticks) else s.threads[i]
    ensures s.(threads := threads) == Wake(s)
  {
  }

  /** The state of a queued thread before and after the wake pass has reached it. */
  ghost function PassState(s: Sched, i: nat, done: bool): ThreadState {
    if i !in s.threads then Dead else if done then Woken(s.threads[i], s.ticks).state else s.threads[i].state
  }
}
