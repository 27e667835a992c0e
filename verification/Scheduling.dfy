/** The scheduler's state machine (kernel/src/scheduler/scheduler.c, thread.c) on values. */
module Scheduling {
  import opened Common

  const QUANTUM: nat := 10

  datatype ThreadState = Ready | Running | Blocked | Dead

  /** The twenty registers saved in a context and restored from it. */
  datatype Registers = Registers(
    r15: nat, r14: nat, r13: nat, r12: nat, r11: nat, r10: nat, r9: nat, r8: nat,
    rbp: nat, rdi: nat, rsi: nat, rdx: nat, rcx: nat, rbx: nat, rax: nat,
    rip: nat, cs: nat, rflags: nat, rsp: nat, ss: nat)

  datatype Thread = Thread(state: ThreadState, context: Registers, wakeTick: nat, quantum: nat)

  /** An addition in progress: the thread, and the run queue its `next` pointer was set to. */
  datatype Adding = Nothing | Linked(thread: nat, rest: seq<nat>)

  datatype Sched = Sched(
    threads: map<nat, Thread>, queue: seq<nat>, current: nat, idle: nat,
    locked: bool, ticks: nat, destroyed: set<nat>, adding: Adding)

  /* ---------- the passes of scheduler_tick_irq ---------- */

  /** A queued thread whose sleep is over becomes ready. */
  function Woken(t: Thread, ticks: nat): Thread {
    if t.state == Blocked && ticks >= t.wakeTick then t.(state := Ready) else t
  }

  function Wake(s: Sched): Sched {
    s.(threads := map t | t in s.threads :: if t in s.queue then Woken(s.threads[t], s.ticks) else s.threads[t])
  }

  predicate IsDead(threads: map<nat, Thread>, t: nat) {
    t in threads && threads[t].state == Dead
  }

  /** The queue without its dead threads, order kept. */
  function Alive(threads: map<nat, Thread>, queue: seq<nat>): seq<nat> {
    if queue == [] then []
    else (if IsDead(threads, queue[0]) then [] else [queue[0]]) + Alive(threads, queue[1..])
  }

  function DeadOnes(threads: map<nat, Thread>, queue: seq<nat>): set<nat> {
    set t | t in queue && IsDead(threads, t)
  }

  function Reap(s: Sched): Sched {
    s.(queue := Alive(s.threads, s.queue), destroyed := s.destroyed + DeadOnes(s.threads, s.queue))
  }

  predicate IsReady(threads: map<nat, Thread>, t: nat) {
    t in threads && threads[t].state == Ready
  }

  /** The position of the first ready thread; the queue's length when there is none. */
  function FirstReady(threads: map<nat, Thread>, queue: seq<nat>): (j: nat)
    ensures j <= |queue|
    ensures j < |queue| ==> IsReady(threads, queue[j])
    ensures forall i :: 0 <= i < j ==> !IsReady(threads, queue[i])
  {
    if queue == [] || IsReady(threads, queue[0]) then 0 else 1 + FirstReady(threads, queue[1..])
  }

  /** The successor: the first ready queued thread, unlinked; idle when there is none. */
  function Select(s: Sched): (seq<nat>, nat) {
    var j := FirstReady(s.threads, s.queue);
    if j < |s.queue| then (s.queue[..j] + s.queue[j + 1..], s.queue[j]) else (s.queue, s.idle)
  }

  /** The outgoing thread: a running one becomes ready again with a new quantum; the context is what the
      interrupt frame holds. */
  function Saved(t: Thread, frame: Registers): Thread {
    var u := if t.state == Running then t.(state := Ready, quantum := QUANTUM) else t;
    u.(context := frame)
  }

  predicate Requeued(s: Sched) {
    s.current in s.threads && s.current != s.idle && s.threads[s.current].state != Dead
  }

  /** Switch: select, requeue the outgoing thread at the head, save, restore. */
  function Switch(s: Sched, frame: Registers): (Sched, Registers) {
    var (rest, next) := Select(s);
    if s.current !in s.threads || next !in s.threads then (s, frame)
    else
      var saved := if s.current == s.idle then s.threads
                   else s.threads[s.current := Saved(s.threads[s.current], frame)];
      var entering := saved[next].(state := Running, quantum := QUANTUM);
      (s.(threads := saved[next := entering],
          queue := if Requeued(s) then [s.current] + rest else rest,
          current := next),
       saved[next].context)
  }

  /** `scheduler_tick_irq` past the lock test and the wake and reap passes. */
  function Slice(s: Sched, frame: Registers): (Sched, Registers) {
    if s.current !in s.threads then (s, frame)
    else
      var t := s.threads[s.current];
      var q := if t.quantum > 0 then t.quantum - 1 else 0;
      var s1 := s.(threads := s.threads[s.current := t.(quantum := q)]);
      if q > 0 then (s1, frame) else Switch(s1, frame)
  }

  /** `scheduler_tick_irq`. */
  function Tick(s: Sched, frame: Registers): (Sched, Registers) {
    if s.locked then (s, frame) else Slice(Reap(Wake(s)), frame)
  }

  /** The timer branch of `isr_handler`: count, then schedule. */
  function Interrupt(s: Sched, frame: Registers): (Sched, Registers) {
    Tick(s.(ticks := (s.ticks + 1) % WORD), frame)
  }

  /* ---------- what threads do between interrupts ---------- */

  function UpdateCurrent(s: Sched, t: Thread): Sched {
    s.(threads := s.threads[s.current := t])
  }

  /** The masked part of `thread_sleep`. */
  function Sleep(s: Sched, ms: nat): Sched {
    if s.current !in s.threads then s
    else UpdateCurrent(s, s.threads[s.current].(state := Blocked, wakeTick := (s.ticks + ms) % WORD))
  }

  /** The masked part of `thread_exit`. */
  function Exit(s: Sched): Sched {
    if s.current !in s.threads then s else UpdateCurrent(s, s.threads[s.current].(state := Dead))
  }

  /** `scheduler_yield` before its software interrupt. */
  function Yield(s: Sched): Sched {
    if s.current !in s.threads then s else UpdateCurrent(s, s.threads[s.current].(quantum := 0))
  }

  /** A thread as `thread_create` leaves it. */
  function NewThread(context: Registers): Thread {
    Thread(Ready, context, 0, QUANTUM)
  }

  /** The two stores of `scheduler_add_thread`: link the thread, then publish it as the head. */
  function Link(s: Sched, t: nat, context: Registers): Sched {
    s.(threads := s.threads[t := NewThread(context)], adding := Linked(t, s.queue))
  }

  function Publish(s: Sched): Sched {
    match s.adding
    case Nothing => s
    case Linked(t, rest) => s.(queue := [t] + rest, adding := Nothing)
  }

  /* ---------- steps ---------- */

  datatype Event =
    | Irq(frame: Registers)  // timer or software interrupt; the registers at that moment
    | SleepFor(ms: nat)
    | ExitNow
    | YieldNow
    | Lock
    | Unlock
    | AddLink(thread: nat, context: Registers)
    | AddPublish

  function Step(s: Sched, e: Event): Sched {
    match e
    case Irq(frame) => Interrupt(s, frame).0
    case SleepFor(ms) => Sleep(s, ms)
    case ExitNow => Exit(s)
    case YieldNow => Yield(s)
    case Lock => s.(locked := true)
    case Unlock => s.(locked := false)
    case AddLink(t, context) => Link(s, t, context)
    case AddPublish => Publish(s)
  }

  /** The discipline callers keep: a thread is added once, under the lock, one at a time, and the lock is not
      released in the middle. */
  predicate Enabled(s: Sched, e: Event) {
    match e
    case AddLink(t, _) => s.locked && s.adding == Nothing && t !in s.threads
    case AddPublish => s.adding.Linked?
    case Unlock => s.adding == Nothing
    case _ => true
  }

  /* ---------- the invariant ---------- */

  predicate Waiting(t: Thread) {
    t.state == Ready || t.state == Blocked
  }

  predicate BeingAdded(s: Sched, t: nat) {
    s.adding.Linked? && s.adding.thread == t
  }

  /** Every thread is exactly one of: idle, current, queued, being added, or exited. */
  ghost predicate Placed(s: Sched, t: nat)
    requires t in s.threads
  {
    && (t in s.queue ==> Waiting(s.threads[t]))
    && (BeingAdded(s, t) ==> s.threads[t].state == Ready && t !in s.queue && t != s.current && t != s.idle)
    && (t != s.idle && t != s.current && t !in s.queue && !BeingAdded(s, t) ==> s.threads[t].state == Dead)
  }

  ghost predicate Inv(s: Sched) {
    && s.idle in s.threads && s.current in s.threads
    && Distinct(s.queue) && s.current !in s.queue && s.idle !in s.queue
    && (forall t :: t in s.queue ==> t in s.threads)
    && (forall t :: t in s.threads ==> Placed(s, t))
    && s.threads[s.current].quantum <= QUANTUM
    && (s.adding.Linked? ==> s.locked && s.adding.thread in s.threads && s.adding.rest == s.queue)
    && s.destroyed == {}
  }

  /** `scheduler_init`: only the idle thread, and it is current. */
  function Initial(idle: nat, context: Registers): Sched {
    Sched(map[idle := NewThread(context)], [], idle, idle, false, 0, {}, Nothing)
  }

  lemma {:induction false} InitialInv(idle: nat, context: Registers)
    ensures Inv(Initial(idle, context))
  {
  }

  /* ---------- every step keeps it ---------- */

  lemma {:induction false} WakeKeeps(s: Sched)
    requires Inv(s)
    ensures Inv(Wake(s))
  {
    var s1 := Wake(s);
    forall t | t in s1.threads
      ensures Placed(s1, t)
    {
      assert Placed(s, t);
    }
  }

  /** Reaping keeps the order: it works on any two parts of the queue separately. */
  lemma {:induction false} AliveOrder(threads: map<nat, Thread>, a: seq<nat>, b: seq<nat>)
    ensures Alive(threads, a + b) == Alive(threads, a) + Alive(threads, b)
    decreases a
  {
    hide IsDead;
    if a == [] {
      assert a + b == b;
    } else {
      assert (a + b)[0] == a[0] && (a + b)[1..] == a[1..] + b;
      AliveOrder(threads, a[1..], b);
    }
  }

  /** Reaping keeps exactly the threads that are not dead. */
  lemma {:induction false} AliveMembers(threads: map<nat, Thread>, a: seq<nat>, t: nat)
    ensures t in Alive(threads, a) <==> t in a && !IsDead(threads, t)
    decreases a
  {
    hide IsDead;
    if a != [] {
      AliveMembers(threads, a[1..], t);
    }
  }

  lemma {:induction false} NobodyDead(threads: map<nat, Thread>, queue: seq<nat>)
    requires forall t :: t in queue ==> !IsDead(threads, t)
    ensures Alive(threads, queue) == queue && DeadOnes(threads, queue) == {}
  {
    if queue != [] {
      assert queue[0] in queue;
      assert forall t :: t in queue[1..] ==> t in queue;
      NobodyDead(threads, queue[1..]);
    }
  }

  /** The reap pass never finds a dead thread in a reachable state: an exiting thread is not requeued. So
      `thread_destroy` is never called, and what an exited thread holds is never given back. */
  lemma {:induction false} ReapFindsNothing(s: Sched)
    requires Inv(s)
    ensures Reap(s) == s
  {
    forall t | t in s.queue
      ensures !IsDead(s.threads, t)
    {
      assert Placed(s, t);
    }
    NobodyDead(s.threads, s.queue);
  }

  lemma {:induction false} SelectParts(s: Sched)
    requires Inv(s)
    ensures
      var (rest, next) := Select(s);
      && next in s.threads && next !in rest
      && Distinct(rest) && (forall t :: t in rest <==> t in s.queue && t != next)
      && (next != s.idle ==> next in s.queue && s.threads[next].state == Ready && next != s.current)
      && (next == s.idle ==> rest == s.queue)
  {
    var j := FirstReady(s.threads, s.queue);
    if j < |s.queue| {
      assert s.queue[j] in s.queue;
      hide FirstReady;
      WithoutOne(s.queue, j);
    }
  }

  lemma {:induction false} WithoutOne(queue: seq<nat>, j: nat)
    requires Distinct(queue) && j < |queue|
    ensures
      var rest := queue[..j] + queue[j + 1..];
      Distinct(rest) && forall t :: t in rest <==> t in queue && t != queue[j]
  {
    var rest := queue[..j] + queue[j + 1..];
    forall t
      ensures t in rest <==> t in queue && t != queue[j]
    {
      if t in queue && t != queue[j] {
        var i :| 0 <= i < |queue| && queue[i] == t;
        assert rest[if i < j then i else i - 1] == t;
      }
    }
  }

  /** What a switch changes: the queue, the current thread, and the two threads involved. */
  lemma {:induction false} SwitchParts(s: Sched, frame: Registers)
    requires Inv(s)
    ensures
      var (rest, next) := Select(s);
      var (s1, out) := Switch(s, frame);
      var t := s.threads[s.current];
      && next in s.threads && s1.current == next && s1.idle == s.idle && s1.locked == s.locked && s1.ticks == s.ticks
      && s1.destroyed == s.destroyed && s1.adding == s.adding && s1.threads.Keys == s.threads.Keys
      && s1.queue == (if Requeued(s) then [s.current] + rest else rest)
      && s1.threads[next].state == Running && s1.threads[next].quantum == QUANTUM
      && (forall x :: x in s.threads && x != next && x != s.current ==> s1.threads[x] == s.threads[x])
      && (next != s.current ==> s1.threads[s.current] == (if s.current == s.idle then t else Saved(t, frame)))
      && (next != s.current ==> out == s.threads[next].context && s1.threads[next].context == s.threads[next].context)
  {
    SelectParts(s);
    hide Select, Inv, Saved;
  }

  lemma {:induction false} SwitchQueue(s: Sched, frame: Registers)
    requires Inv(s)
    ensures
      var s1 := Switch(s, frame).0;
      && Distinct(s1.queue) && s1.current !in s1.queue && s1.idle !in s1.queue
      && (forall x :: x in s1.queue <==> (x in s.queue && x != s1.current) || (x == s.current && Requeued(s)))
  {
    SelectParts(s);
    SwitchParts(s, frame);
    hide Select, Switch;
  }

  lemma {:induction false} SwitchKeeps(s: Sched, frame: Registers)
    requires Inv(s) && s.adding == Nothing
    ensures Inv(Switch(s, frame).0)
  {
    SelectParts(s);
    SwitchParts(s, frame);
    SwitchQueue(s, frame);
    hide Select, Switch;
    var s1 := Switch(s, frame).0;
    forall t | t in s1.threads
      ensures Placed(s1, t)
    {
      assert Placed(s, t);
    }
  }

  lemma {:induction false} TickKeeps(s: Sched, frame: Registers)
    requires Inv(s)
    ensures Inv(Tick(s, frame).0)
  {
    if !s.locked {
      WakeKeeps(s);
      var s1 := Wake(s);
      ReapFindsNothing(s1);
      var t := s1.threads[s1.current];
      var q := if t.quantum > 0 then t.quantum - 1 else 0;
      var s2 := UpdateCurrent(s1, t.(quantum := q));
      UpdateCurrentKeeps(s1, t.(quantum := q));
      if q == 0 {
        SwitchKeeps(s2, frame);
      }
    }
  }

  lemma {:induction false} UpdateCurrentKeeps(s: Sched, t: Thread)
    requires Inv(s) && t.quantum <= QUANTUM
    ensures Inv(UpdateCurrent(s, t))
  {
    var s1 := UpdateCurrent(s, t);
    forall x | x in s1.threads
      ensures Placed(s1, x)
    {
      assert Placed(s, x);
    }
  }

  /** The invariant does not depend on the tick counter, nor on the lock outside an addition. */
  lemma {:induction false} FlagsIrrelevant(s: Sched, locked: bool, ticks: nat)
    requires Inv(s) && (s.adding.Linked? ==> locked)
    ensures Inv(s.(locked := locked, ticks := ticks))
  {
    var s1 := s.(locked := locked, ticks := ticks);
    forall t | t in s1.threads
      ensures Placed(s1, t)
    {
      assert Placed(s, t);
    }
  }

  /** Every step of every thread and every interrupt keeps the invariant. */
  lemma {:induction false} StepKeeps(s: Sched, e: Event)
    requires Inv(s) && Enabled(s, e)
    ensures Inv(Step(s, e))
  {
    hide Inv, Tick, UpdateCurrent;
    CurrentKnown(s);
    match e
    case Irq(frame) =>
      var ticks := (s.ticks + 1) % WORD;
      FlagsIrrelevant(s, s.locked, ticks);
      TickKeeps(s.(locked := s.locked, ticks := ticks), frame);
    case SleepFor(ms) =>
      UpdateCurrentKeeps(s, s.threads[s.current].(state := Blocked, wakeTick := (s.ticks + ms) % WORD));
    case ExitNow =>
      UpdateCurrentKeeps(s, s.threads[s.current].(state := Dead));
    case YieldNow =>
      UpdateCurrentKeeps(s, s.threads[s.current].(quantum := 0));
    case AddLink(t, context) =>
      LinkKeeps(s, t, context);
    case AddPublish =>
      PublishKeeps(s);
    case Lock =>
      FlagsIrrelevant(s, true, s.ticks);
    case Unlock =>
      FlagsIrrelevant(s, false, s.ticks);
  }

  lemma {:induction false} CurrentKnown(s: Sched)
    requires Inv(s)
    ensures s.current in s.threads && s.threads[s.current].quantum <= QUANTUM && s.idle in s.threads
    ensures s.adding.Linked? ==> s.locked
  {
  }

  lemma {:induction false} LinkKeeps(s: Sched, t: nat, context: Registers)
    requires Inv(s) && Enabled(s, AddLink(t, context))
    ensures Inv(Link(s, t, context))
  {
    var s1 := Link(s, t, context);
    forall x | x in s1.threads
      ensures Placed(s1, x)
    {
      if x != t {
        assert Placed(s, x);
      }
    }
  }

  lemma {:induction false} PublishKeeps(s: Sched)
    requires Inv(s) && s.adding.Linked?
    ensures Inv(Publish(s))
  {
    var s1, t := Publish(s), s.adding.thread;
    assert Placed(s, t);
    assert forall x :: x in s1.queue <==> x == t || x in s.queue;
    forall x | x in s1.threads
      ensures Placed(s1, x)
    {
      assert Placed(s, x);
    }
  }
}
