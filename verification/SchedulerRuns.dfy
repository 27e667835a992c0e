/** Whole runs of the scheduler: every interleaving of interrupts, sleep, exit, yield, lock, unlock and addition. */
module SchedulerRuns {
  import opened Common
  import opened Scheduling

  /** The state after the first `i` events. */
  function At(s: Sched, events: seq<Event>, i: nat): Sched
    requires i <= |events|
  {
    if i == 0 then s else Step(At(s, events, i - 1), events[i - 1])
  }

  ghost predicate IsRun(s: Sched, events: seq<Event>) {
    Inv(s) && forall i :: 0 <= i < |events| ==> Enabled(At(s, events, i), events[i])
  }

  /** In every reachable state the run queue holds no thread twice, neither the current nor the idle thread, and
      every thread ever added is exactly one of queued, current, being added, or exited. */
  lemma {:induction false} RunKeeps(s: Sched, events: seq<Event>, i: nat)
    requires IsRun(s, events) && i <= |events|
    ensures Inv(At(s, events, i)) && At(s, events, i).idle == s.idle
    decreases i
  {
    hide Inv, Step;
    if i > 0 {
      RunKeeps(s, events, i - 1);
      assert Enabled(At(s, events, i - 1), events[i - 1]);
      StepKeeps(At(s, events, i - 1), events[i - 1]);
      IdleFixed(At(s, events, i - 1), events[i - 1]);
    }
  }

  /** The facts about one event of a run. */
  lemma {:induction false} RunStep(s: Sched, events: seq<Event>, i: nat)
    requires IsRun(s, events) && i < |events|
    ensures Inv(At(s, events, i)) && Enabled(At(s, events, i), events[i]) && At(s, events, i).idle == s.idle
    ensures At(s, events, i + 1) == Step(At(s, events, i), events[i])
    ensures Inv(At(s, events, i + 1)) && At(s, events, i + 1).idle == s.idle
  {
    RunKeeps(s, events, i);
    RunKeeps(s, events, i + 1);
  }

  lemma {:induction false} IdleFixed(s: Sched, e: Event)
    ensures Step(s, e).idle == s.idle
  {
  }

  /** In every reachable state at most one thread other than idle is running: the current one. */
  lemma {:induction false} OneRunning(s: Sched, events: seq<Event>, i: nat, t: nat)
    requires IsRun(s, events) && i <= |events| && t != s.idle
    requires t in At(s, events, i).threads && At(s, events, i).threads[t].state == Running
    ensures At(s, events, i).current == t
  {
    RunKeeps(s, events, i);
    assert Placed(At(s, events, i), t);
  }

  /** No thread is ever destroyed, in particular never the current one: exited threads are not in the queue the
      reap pass walks. */
  lemma {:induction false} NothingIsDestroyed(s: Sched, events: seq<Event>, i: nat)
    requires IsRun(s, events) && i <= |events|
    ensures At(s, events, i).destroyed == {}
  {
    RunKeeps(s, events, i);
  }

  /* ---------- one step, seen from one thread ---------- */

  /** The registers the processor has after the event. */
  function Resumed(s: Sched, e: Event): Registers
    requires e.Irq?
  {
    Interrupt(s, e.frame).1
  }

  /** The scheduler state on which an unlocked interrupt selects: ticks counted, sleepers woken, slice used. */
  function Charged(s: Sched): Sched {
    var s1 := Reap(Wake(s.(ticks := (s.ticks + 1) % WORD)));
    if s1.current !in s1.threads then s1
    else
      var t := s1.threads[s1.current];
      UpdateCurrent(s1, t.(quantum := if t.quantum > 0 then t.quantum - 1 else 0))
  }

  /** The interrupt ends the current slice. */
  predicate Selects(s: Sched, e: Event) {
    e.Irq? && !s.locked && s.current in s.threads && s.threads[s.current].quantum <= 1
  }

  /** `Charged` changes states of queued sleepers and the current quantum, and nothing else. */
  lemma {:induction false} ChargedParts(s: Sched)
    requires Inv(s)
    ensures
      var c := Charged(s);
      && Inv(c) && c.queue == s.queue && c.current == s.current && c.idle == s.idle && c.locked == s.locked
      && c.adding == s.adding && c.ticks == (s.ticks + 1) % WORD && c.threads.Keys == s.threads.Keys
      && (forall t :: t in s.threads && t != s.current && t !in s.queue ==> c.threads[t] == s.threads[t])
      && (forall t :: t in s.queue ==> c.threads[t] == Woken(s.threads[t], c.ticks))
      && c.threads[s.current]
         == s.threads[s.current].(
              quantum := if s.threads[s.current].quantum > 0 then s.threads[s.current].quantum - 1 else 0)
  {
    hide Inv, Wake, Reap, Woken;
    AwakeParts(s);
    var w, t := Awake(s), s.threads[s.current];
    UpdateCurrentKeeps(w, t.(quantum := if t.quantum > 0 then t.quantum - 1 else 0));
  }

  /** The state after counting, waking and reaping. */
  function Awake(s: Sched): Sched {
    Reap(Wake(s.(ticks := (s.ticks + 1) % WORD)))
  }

  lemma {:induction false} AwakeParts(s: Sched)
    requires Inv(s)
    ensures
      var w := Awake(s);
      && Inv(w) && w.queue == s.queue && w.current == s.current && w.idle == s.idle && w.locked == s.locked
      && w.adding == s.adding && w.ticks == (s.ticks + 1) % WORD && w.threads.Keys == s.threads.Keys
      && s.current in s.threads && s.current !in s.queue && s.threads[s.current].quantum <= QUANTUM
      && (forall t :: t in s.threads && t !in s.queue ==> w.threads[t] == s.threads[t])
      && (forall t :: t in s.queue ==> t in s.threads && w.threads[t] == Woken(s.threads[t], w.ticks))
  {
    var s0 := s.(locked := s.locked, ticks := (s.ticks + 1) % WORD);
    assert s0 == s.(ticks := (s.ticks + 1) % WORD);
    FlagsIrrelevant(s, s.locked, (s.ticks + 1) % WORD);
    WakeKeeps(s0);
    ReapFindsNothing(Wake(s0));
  }

  lemma {:induction false} InterruptCases(s: Sched, frame: Registers)
    requires Inv(s)
    ensures s.locked ==> Interrupt(s, frame) == (s.(ticks := (s.ticks + 1) % WORD), frame)
    ensures !s.locked && !Selects(s, Irq(frame)) ==> Interrupt(s, frame) == (Charged(s), frame)
    ensures Selects(s, Irq(frame)) ==> Interrupt(s, frame) == Switch(Charged(s), frame)
  {
    hide Inv, Wake, Reap, Switch;
    AwakeParts(s);
  }

  /** A thread that is neither current before nor after keeps its context and its wake tick; it can only go from
      blocked to ready, and only once its wake tick is reached. */
  lemma {:induction false} BystanderStep(s: Sched, e: Event, t: nat)
    requires Inv(s) && Enabled(s, e) && t in s.threads && t != s.current && Step(s, e).current != t
    ensures
      var s1 := Step(s, e);
      && t in s1.threads && s1.threads[t].context == s.threads[t].context
      && s1.threads[t].wakeTick == s.threads[t].wakeTick
      && (s1.threads[t].state != s.threads[t].state ==>
            s.threads[t].state == Blocked && s1.threads[t].state == Ready && s1.ticks >= s.threads[t].wakeTick)
      && (s.threads[t].state == Dead ==> t !in s1.queue)
  {
    assert Placed(s, t);
    match e
    case Irq(frame) =>
      InterruptCases(s, frame);
      ChargedParts(s);
      if Selects(s, e) {
        SwitchParts(Charged(s), frame);
        SwitchQueue(Charged(s), frame);
      }
    case _ =>
  }

  /** A thread that becomes current was queued and ready after the wake pass, and the processor gets its context. */
  lemma {:induction false} EnteringStep(s: Sched, e: Event, t: nat)
    requires Inv(s) && Enabled(s, e) && t != s.current && Step(s, e).current == t && t != s.idle
    ensures Selects(s, e) && t in s.queue
    ensures Resumed(s, e) == s.threads[t].context
    ensures s.threads[t].state == Ready || (s.threads[t].state == Blocked && Step(s, e).ticks >= s.threads[t].wakeTick)
  {
    assert e.Irq?;
    InterruptCases(s, e.frame);
    ChargedParts(s);
    SwitchParts(Charged(s), e.frame);
    SelectParts(Charged(s));
  }

  /** The outgoing thread's context is the interrupt frame; a blocked or dead one stays so, a dead one leaves. */
  lemma {:induction false} LeavingStep(s: Sched, e: Event)
    requires Inv(s) && Enabled(s, e) && s.current != s.idle && Step(s, e).current != s.current
    ensures
      var s1, t := Step(s, e), s.current;
      && e.Irq? && t in s1.threads && s1.threads[t].context == e.frame
      && s1.threads[t].wakeTick == s.threads[t].wakeTick
      && s1.threads[t].state == (if s.threads[t].state == Running then Ready else s.threads[t].state)
      && (s.threads[t].state == Running ==> s1.threads[t].quantum == 10)
      && (t in s1.queue <==> s.threads[t].state != Dead)
  {
    assert e.Irq?;
    InterruptCases(s, e.frame);
    ChargedParts(s);
    SwitchParts(Charged(s), e.frame);
    SwitchQueue(Charged(s), e.frame);
  }

  /** While a thread stays current, only its own sleep and exit change its state and wake tick. */
  lemma {:induction false} StayingStep(s: Sched, e: Event)
    requires Inv(s) && Enabled(s, e) && s.current != s.idle && Step(s, e).current == s.current
    requires !e.SleepFor? && !e.ExitNow?
    ensures
      var s1, t := Step(s, e), s.current;
      t in s1.threads && s1.threads[t].state == s.threads[t].state && s1.threads[t].wakeTick == s.threads[t].wakeTick
  {
    match e
    case Irq(frame) =>
      InterruptCases(s, frame);
      ChargedParts(s);
      if Selects(s, e) {
        SwitchParts(Charged(s), frame);
        SelectParts(Charged(s));
      }
    case _ =>
  }

  ghost predicate NeverCurrent(s: Sched, events: seq<Event>, i: nat, j: nat, t: nat)
    requires j <= |events|
  {
    forall k :: i <= k <= j ==> At(s, events, k).current != t
  }

  ghost predicate AlwaysCurrent(s: Sched, events: seq<Event>, i: nat, j: nat, t: nat)
    requires j <= |events|
  {
    forall k :: i <= k <= j ==> At(s, events, k).current == t
  }

  /* ---------- context integrity ---------- */

  /** Whatever other threads do, a thread that is not current keeps its saved context. */
  lemma {:induction false} ContextKept(s: Sched, events: seq<Event>, i: nat, j: nat, t: nat)
    requires IsRun(s, events) && i <= j <= |events| && NeverCurrent(s, events, i, j, t) && t in At(s, events, i).threads
    ensures t in At(s, events, j).threads && At(s, events, j).threads[t].context == At(s, events, i).threads[t].context
    decreases j
  {
    hide IsRun, At, Step, Inv, Interrupt, Enabled;
    if i < j {
      ContextKept(s, events, i, j - 1, t);
      RunStep(s, events, j - 1);
      BystanderStep(At(s, events, j - 1), events[j - 1], t);
    }
  }

  /** Context integrity: when a thread preempted at event `i` is resumed by event `j`, the processor gets exactly the
      registers it had when it was preempted. */
  lemma {:induction false} ContextIntegrity(s: Sched, events: seq<Event>, i: nat, j: nat, t: nat)
    requires IsRun(s, events) && i < j < |events| && t != s.idle
    requires At(s, events, i).current == t && NeverCurrent(s, events, i + 1, j, t) && At(s, events, j + 1).current == t
    ensures events[i].Irq? && events[j].Irq? && Resumed(At(s, events, j), events[j]) == events[i].frame
  {
    hide IsRun, At, Step, Inv, Interrupt, Enabled;
    RunStep(s, events, i);
    RunStep(s, events, j);
    LeavingStep(At(s, events, i), events[i]);
    ContextKept(s, events, i + 1, j, t);
    EnteringStep(At(s, events, j), events[j], t);
  }

  /** A thread's first run starts from the context it was created with. */
  lemma {:induction false} FirstRun(s: Sched, events: seq<Event>, i: nat, j: nat, t: nat, context: Registers)
    requires IsRun(s, events) && i < j < |events| && events[i] == AddLink(t, context)
    requires NeverCurrent(s, events, i, j, t) && At(s, events, j + 1).current == t
    ensures events[j].Irq? && Resumed(At(s, events, j), events[j]) == context
  {
    hide IsRun, At, Step, Inv, Interrupt, Enabled;
    RunStep(s, events, i);
    RunStep(s, events, j);
    LinkStep(At(s, events, i), t, context);
    ContextKept(s, events, i + 1, j, t);
    EnteringStep(At(s, events, j), events[j], t);
  }

  lemma {:induction false} LinkStep(s: Sched, t: nat, context: Registers)
    requires Inv(s) && Enabled(s, AddLink(t, context))
    ensures
      var s1 := Step(s, AddLink(t, context));
      t != s.idle && t in s1.threads && s1.threads[t] == NewThread(context)
  {
  }

  lemma {:induction false} SleepStep(s: Sched, ms: nat)
    requires Inv(s)
    ensures
      var s1 := Step(s, SleepFor(ms));
      && s.current in s1.threads && s1.threads[s.current].state == Blocked
      && s1.threads[s.current].wakeTick == (s.ticks + ms) % WORD
  {
  }

  lemma {:induction false} ExitStep(s: Sched)
    requires Inv(s)
    ensures s.current in Step(s, ExitNow).threads && Step(s, ExitNow).threads[s.current].state == Dead
  {
  }

  lemma {:induction false} IdleStep(s: Sched, e: Event)
    requires Inv(s) && Enabled(s, e)
    ensures Step(s, e).idle in Step(s, e).threads && Step(s, e).threads[s.idle].context == s.threads[s.idle].context
    ensures Step(s, e).current == s.idle && e.Irq? && !(s.current == s.idle && Resumed(s, e) == e.frame) ==>
              Resumed(s, e) == s.threads[s.idle].context
  {
    match e
    case Irq(frame) =>
      InterruptCases(s, frame);
      ChargedParts(s);
      if Selects(s, e) {
        SwitchParts(Charged(s), frame);
        SelectParts(Charged(s));
      }
    case _ =>
  }

  /** The idle thread's registers are never saved: it always restarts from the context `scheduler_init` gave it. */
  lemma {:induction false} IdleContextFixed(s: Sched, events: seq<Event>, i: nat)
    requires IsRun(s, events) && i <= |events|
    ensures s.idle in At(s, events, i).threads && At(s, events, i).threads[s.idle].context == s.threads[s.idle].context
    decreases i
  {
    hide IsRun, At, Step, Inv, Interrupt, Enabled;
    AtStart(s, events);
    if i > 0 {
      IdleContextFixed(s, events, i - 1);
      RunStep(s, events, i - 1);
      IdleStep(At(s, events, i - 1), events[i - 1]);
    }
  }

  lemma {:induction false} AtStart(s: Sched, events: seq<Event>)
    requires IsRun(s, events)
    ensures At(s, events, 0) == s && s.idle in s.threads
  {
  }

  /* ---------- sleep ---------- */

  function Interrupts(events: seq<Event>, i: nat): nat
    requires i <= |events|
  {
    if i == 0 then 0 else Interrupts(events, i - 1) + (if events[i - 1].Irq? then 1 else 0)
  }

  /** Every interrupt is counted, under the lock too, and nothing else is. */
  lemma {:induction false} TicksCounted(s: Sched, events: seq<Event>, i: nat)
    requires IsRun(s, events) && i <= |events| && s.ticks < WORD
    ensures At(s, events, i).ticks == (s.ticks + Interrupts(events, i)) % WORD
    decreases i
  {
    hide IsRun, At, Step, Inv, Interrupt, Enabled;
    AtStart(s, events);
    if i > 0 {
      TicksCounted(s, events, i - 1);
      RunStep(s, events, i - 1);
      CountStep(At(s, events, i - 1), events[i - 1]);
    }
  }

  lemma {:induction false} CountStep(s: Sched, e: Event)
    ensures Step(s, e).ticks == if e.Irq? then (s.ticks + 1) % WORD else s.ticks
  {
    hide FirstReady, Alive, Saved, Woken;
  }

  ghost predicate NoWrap(s: Sched, events: seq<Event>, i: nat, j: nat)
    requires j <= |events|
  {
    forall k :: i <= k < j ==> At(s, events, k).ticks + 1 < WORD
  }

  lemma {:induction false} TicksStep(s: Sched, e: Event)
    requires s.ticks + 1 < WORD
    ensures s.ticks <= Step(s, e).ticks <= s.ticks + 1
  {
    hide FirstReady, Alive, Saved, Woken;
  }

  /** While it stays current, a thread that marked itself blocked stays blocked with the same wake tick. */
  lemma {:induction false} MarkKept(s: Sched, events: seq<Event>, i: nat, k: nat, t: nat)
    requires IsRun(s, events) && i <= k <= |events| && t != s.idle && AlwaysCurrent(s, events, i, k, t)
    requires t in At(s, events, i).threads
    requires forall m :: i <= m < k ==> !events[m].SleepFor? && !events[m].ExitNow?
    ensures
      var a, b := At(s, events, i), At(s, events, k);
      t in b.threads && b.threads[t].state == a.threads[t].state && b.threads[t].wakeTick == a.threads[t].wakeTick
    decreases k
  {
    hide IsRun, At, Step, Inv, Interrupt, Enabled;
    if i < k {
      MarkKept(s, events, i, k - 1, t);
      RunStep(s, events, k - 1);
      StayingStep(At(s, events, k - 1), events[k - 1]);
    }
  }

  /** A thread switched out asleep is ready only at or after its wake tick. */
  lemma {:induction false} AsleepUntil(s: Sched, events: seq<Event>, k: nat, j: nat, t: nat, wake: nat)
    requires IsRun(s, events) && k <= j <= |events| && NeverCurrent(s, events, k, j, t) && NoWrap(s, events, k, j)
    requires t in At(s, events, k).threads && At(s, events, k).threads[t].state == Blocked
    requires At(s, events, k).threads[t].wakeTick == wake
    ensures
      var b := At(s, events, j);
      t in b.threads && b.threads[t].wakeTick == wake
      && (b.threads[t].state == Blocked || (b.threads[t].state == Ready && b.ticks >= wake))
    decreases j
  {
    hide IsRun, At, Step, Inv, Interrupt, Enabled;
    if k < j {
      AsleepUntil(s, events, k, j - 1, t, wake);
      RunStep(s, events, j - 1);
      BystanderStep(At(s, events, j - 1), events[j - 1], t);
      TicksStep(At(s, events, j - 1), events[j - 1]);
    }
  }

  /** Sleep is never cut short: a thread that sleeps at event `i`, is switched out by event `k` and is resumed by event
      `j` is resumed when at least `ms` ticks have been counted. */
  lemma {:induction false} SleepIsNotCutShort(s: Sched, events: seq<Event>, i: nat, k: nat, j: nat, t: nat, ms: nat)
    requires IsRun(s, events) && i < k < j < |events| && t != s.idle
    requires events[i] == SleepFor(ms) && At(s, events, i).ticks + ms < WORD && NoWrap(s, events, i, j + 1)
    requires AlwaysCurrent(s, events, i, k, t) && NeverCurrent(s, events, k + 1, j, t)
    requires At(s, events, j + 1).current == t
    requires forall m :: i < m < k ==> !events[m].SleepFor? && !events[m].ExitNow?
    ensures At(s, events, j + 1).ticks >= At(s, events, i).ticks + ms
  {
    hide IsRun, At, Step, Inv, Interrupt, Enabled;
    var wake := At(s, events, i).ticks + ms;
    RunStep(s, events, i);
    SleepStep(At(s, events, i), ms);
    MarkKept(s, events, i + 1, k, t);
    RunStep(s, events, k);
    LeavingStep(At(s, events, k), events[k]);
    AsleepUntil(s, events, k + 1, j, t, wake);
    RunStep(s, events, j);
    EnteringStep(At(s, events, j), events[j], t);
    TicksStep(At(s, events, j), events[j]);
  }

  /** The first unlocked interrupt at or past the wake tick that finds the sleeper queued makes it ready, or current. */
  lemma {:induction false} SleeperIsWoken(s: Sched, frame: Registers, t: nat)
    requires Inv(s) && !s.locked && t in s.queue && (s.ticks + 1) % WORD >= s.threads[t].wakeTick
    ensures
      var s1 := Step(s, Irq(frame));
      t in s1.threads && (s1.current == t || (t in s1.queue && s1.threads[t].state == Ready))
  {
    assert Placed(s, t);
    InterruptCases(s, frame);
    ChargedParts(s);
    if Selects(s, Irq(frame)) {
      SwitchParts(Charged(s), frame);
      SwitchQueue(Charged(s), frame);
    }
  }

  /* ---------- exit ---------- */

  /** Exit is final: a thread switched out dead is never current and never queued again. */
  lemma {:induction false} ExitIsFinal(s: Sched, events: seq<Event>, k: nat, j: nat, t: nat)
    requires IsRun(s, events) && k <= j <= |events| && t != s.idle
    requires t in At(s, events, k).threads && At(s, events, k).threads[t].state == Dead && At(s, events, k).current != t
    ensures
      var b := At(s, events, j);
      t in b.threads && b.threads[t].state == Dead && b.current != t && t !in b.queue
    decreases j
  {
    hide IsRun, At, Step, Inv, Interrupt, Enabled;
    if k < j {
      ExitIsFinal(s, events, k, j - 1, t);
      RunStep(s, events, j - 1);
      var a := At(s, events, j - 1);
      if Step(a, events[j - 1]).current == t {
        EnteringStep(a, events[j - 1], t);
      }
      BystanderStep(a, events[j - 1], t);
    } else {
      RunKeeps(s, events, k);
      DeadNotQueued(At(s, events, k), t);
    }
  }

  /** A thread that called `thread_exit` and is then switched out is gone for good. */
  lemma {:induction false} ExitedThreadIsGone(s: Sched, events: seq<Event>, i: nat, k: nat, j: nat, t: nat)
    requires IsRun(s, events) && i < k < j <= |events| && t != s.idle && events[i] == ExitNow
    requires AlwaysCurrent(s, events, i, k, t) && At(s, events, k + 1).current != t
    requires forall m :: i < m < k ==> !events[m].SleepFor?
    ensures At(s, events, j).current != t && t !in At(s, events, j).queue
  {
    hide IsRun, At, Step, Inv, Interrupt, Enabled;
    DeadMarkKept(s, events, i, k, t);
    RunStep(s, events, k);
    LeavingStep(At(s, events, k), events[k]);
    ExitIsFinal(s, events, k + 1, j, t);
  }

  lemma {:induction false} DeadMarkKept(s: Sched, events: seq<Event>, i: nat, k: nat, t: nat)
    requires IsRun(s, events) && i < k <= |events| && t != s.idle && events[i] == ExitNow
    requires AlwaysCurrent(s, events, i, k, t)
    requires forall m :: i < m < k ==> !events[m].SleepFor?
    ensures t in At(s, events, k).threads && At(s, events, k).threads[t].state == Dead
    decreases k
  {
    hide IsRun, At, Step, Inv, Interrupt, Enabled;
    RunStep(s, events, k - 1);
    var a := At(s, events, k - 1);
    if i < k - 1 {
      DeadMarkKept(s, events, i, k - 1, t);
    }
    if events[k - 1].ExitNow? {
      ExitStep(a);
    } else {
      StayingStep(a, events[k - 1]);
    }
  }

  lemma {:induction false} DeadNotQueued(s: Sched, t: nat)
    requires Inv(s) && t in s.threads && s.threads[t].state == Dead
    ensures t !in s.queue
  {
    assert Placed(s, t);
  }

  /* ---------- slices ---------- */

  function UnlockedTicks(s: Sched, events: seq<Event>, i: nat, j: nat): nat
    requires i <= j <= |events|
    decreases j
  {
    if i == j then 0
    else UnlockedTicks(s, events, i, j - 1) + (if events[j - 1].Irq? && !At(s, events, j - 1).locked then 1 else 0)
  }

  ghost function CurrentQuantum(s: Sched): nat
    requires Inv(s)
  {
    s.threads[s.current].quantum
  }

  lemma {:induction false} QuantumStep(s: Sched, e: Event)
    requires Inv(s) && Enabled(s, e) && !Selects(s, e) && Inv(Step(s, e))
    ensures CurrentQuantum(Step(s, e)) <= CurrentQuantum(s) <= QUANTUM
    ensures e.Irq? && !s.locked ==> 1 <= CurrentQuantum(Step(s, e)) == CurrentQuantum(s) - 1
    ensures !e.YieldNow? && (e.Irq? ==> s.locked) ==> CurrentQuantum(Step(s, e)) == CurrentQuantum(s)
  {
    match e
    case Irq(frame) =>
      InterruptCases(s, frame);
      ChargedParts(s);
    case _ =>
  }

  /** Bounded slices: fewer than ten unlocked interrupts pass without a selection. */
  lemma {:induction false} SliceIsBounded(s: Sched, events: seq<Event>, i: nat, j: nat)
    requires IsRun(s, events) && i <= j <= |events|
    requires forall k :: i <= k < j ==> !Selects(At(s, events, k), events[k])
    ensures Inv(At(s, events, i)) && Inv(At(s, events, j))
    ensures CurrentQuantum(At(s, events, i)) <= QUANTUM
    ensures UnlockedTicks(s, events, i, j) + CurrentQuantum(At(s, events, j)) <= CurrentQuantum(At(s, events, i))
    ensures UnlockedTicks(s, events, i, j) < 10
    decreases j
  {
    hide IsRun, At, Step, Inv, Interrupt, Enabled, Selects;
    RunKeeps(s, events, i);
    CurrentKnown(At(s, events, i));
    if i < j {
      SliceIsBounded(s, events, i, j - 1);
      RunStep(s, events, j - 1);
      QuantumStep(At(s, events, j - 1), events[j - 1]);
    }
  }

  /** A slice that is not given up is exactly ten unlocked interrupts: from the selection on, the tenth selects. */
  lemma {:induction false} SliceIsTen(s: Sched, events: seq<Event>, i: nat, j: nat)
    requires IsRun(s, events) && i < j < |events| && Selects(At(s, events, i), events[i])
    requires forall k :: i < k < j ==> !Selects(At(s, events, k), events[k]) && !events[k].YieldNow?
    requires events[j].Irq? && !At(s, events, j).locked
    ensures Selects(At(s, events, j), events[j]) <==> UnlockedTicks(s, events, i + 1, j) == 9
  {
    hide IsRun, At, Step, Inv, Interrupt, Enabled, Selects;
    SliceUsed(s, events, i, j);
    SliceIsBounded(s, events, i + 1, j);
    SelectsIf(At(s, events, j), events[j]);
  }

  lemma {:induction false} SelectsIf(s: Sched, e: Event)
    requires Inv(s) && e.Irq? && !s.locked
    ensures Selects(s, e) <==> CurrentQuantum(s) <= 1
  {
  }

  lemma {:induction false} SliceUsed(s: Sched, events: seq<Event>, i: nat, j: nat)
    requires IsRun(s, events) && i < j <= |events| && Selects(At(s, events, i), events[i])
    requires forall k :: i < k < j ==> !Selects(At(s, events, k), events[k]) && !events[k].YieldNow?
    ensures Inv(At(s, events, j))
    ensures CurrentQuantum(At(s, events, j)) + UnlockedTicks(s, events, i + 1, j) == 10
    decreases j
  {
    hide IsRun, At, Step, Inv, Interrupt, Enabled, Selects;
    RunStep(s, events, j - 1);
    if i < j - 1 {
      SliceUsed(s, events, i, j - 1);
      QuantumStep(At(s, events, j - 1), events[j - 1]);
    } else {
      EnterStep(At(s, events, i), events[i]);
    }
  }

  lemma {:induction false} EnterStep(s: Sched, e: Event)
    requires Inv(s) && Enabled(s, e) && Selects(s, e) && Inv(Step(s, e))
    ensures CurrentQuantum(Step(s, e)) == 10 && Step(s, e).threads[Step(s, e).current].state == Running
  {
    InterruptCases(s, e.frame);
    ChargedParts(s);
    SwitchParts(Charged(s), e.frame);
  }

  /** Yield gives up the slice: after it the first unlocked interrupt selects. */
  lemma {:induction false} YieldSelects(s: Sched, events: seq<Event>, i: nat, j: nat)
    requires IsRun(s, events) && i < j < |events| && events[i] == YieldNow
    requires UnlockedTicks(s, events, i + 1, j) == 0 && events[j].Irq? && !At(s, events, j).locked
    ensures Selects(At(s, events, j), events[j]) && At(s, events, j).current == At(s, events, i).current
  {
    hide IsRun, At, Step, Inv, Interrupt, Enabled, Selects;
    YieldKept(s, events, i, j);
    SelectsIf(At(s, events, j), events[j]);
  }

  lemma {:induction false} YieldKept(s: Sched, events: seq<Event>, i: nat, j: nat)
    requires IsRun(s, events) && i < j <= |events| && events[i] == YieldNow
    requires UnlockedTicks(s, events, i + 1, j) == 0
    ensures Inv(At(s, events, j)) && CurrentQuantum(At(s, events, j)) == 0
    ensures At(s, events, j).current == At(s, events, i).current
    decreases j
  {
    hide IsRun, At, Step, Inv, Interrupt, Enabled;
    RunStep(s, events, j - 1);
    if i < j - 1 {
      YieldKept(s, events, i, j - 1);
      QuantumStep(At(s, events, j - 1), events[j - 1]);
      NoSelectionStays(At(s, events, j - 1), events[j - 1]);
    } else {
      YieldStep(At(s, events, i));
    }
  }

  lemma {:induction false} NoSelectionStays(s: Sched, e: Event)
    requires Inv(s) && Enabled(s, e) && !Selects(s, e)
    ensures Step(s, e).current == s.current
  {
    match e
    case Irq(frame) =>
      InterruptCases(s, frame);
      ChargedParts(s);
    case _ =>
  }

  lemma {:induction false} YieldStep(s: Sched)
    requires Inv(s) && Inv(Step(s, YieldNow))
    ensures CurrentQuantum(Step(s, YieldNow)) == 0 && Step(s, YieldNow).current == s.current
  {
  }

  /** The successor is the first ready thread of the queue after the wake pass, idle if there is none. */
  lemma {:induction false} SuccessorIsFirstReady(s: Sched, frame: Registers)
    requires Inv(s) && Selects(s, Irq(frame))
    ensures
      var c := Charged(s);
      var j := FirstReady(c.threads, s.queue);
      Step(s, Irq(frame)).current == if j < |s.queue| then s.queue[j] else s.idle
  {
    InterruptCases(s, frame);
    ChargedParts(s);
    SwitchParts(Charged(s), frame);
  }

  /* ---------- two runnable threads ---------- */

  /** `a` runs, `b` is ready at the head of the queue, `rest` is behind it. */
  ghost predicate Duo(s: Sched, a: nat, b: nat, rest: seq<nat>) {
    && s.current == a && a != s.idle && s.queue == [b] + rest
    && a in s.threads && s.threads[a].state == Running && b in s.threads && s.threads[b].state == Ready
  }

  /** Events that neither block nor end a thread nor add one. */
  predicate Keeps(e: Event) {
    e.Irq? || e.YieldNow? || e.Lock? || e.Unlock?
  }

  lemma {:induction false} DuoStep(s: Sched, e: Event, a: nat, b: nat, rest: seq<nat>)
    requires Inv(s) && Enabled(s, e) && Keeps(e) && Duo(s, a, b, rest)
    ensures if Selects(s, e) then Duo(Step(s, e), b, a, rest) else Duo(Step(s, e), a, b, rest)
  {
    match e
    case Irq(frame) =>
      InterruptCases(s, frame);
      ChargedParts(s);
      assert b in s.queue;
      var c := Charged(s);
      if Selects(s, e) {
        assert s.queue[0] == b && FirstReady(c.threads, c.queue) == 0;
        assert c.queue[..0] + c.queue[1..] == rest;
        assert Select(c) == (rest, b);
        SwitchParts(c, frame);
      }
    case _ =>
  }

  function Selections(s: Sched, events: seq<Event>, i: nat): nat
    requires i <= |events|
  {
    if i == 0 then 0 else Selections(s, events, i - 1) + (if Selects(At(s, events, i - 1), events[i - 1]) then 1 else 0)
  }

  /** Alternation: while the running thread and a ready queue head stay runnable and nothing is added, every selection
      swaps exactly those two and the rest of the queue keeps its order. */
  lemma {:induction false} Alternation(s: Sched, events: seq<Event>, i: nat, a: nat, b: nat, rest: seq<nat>)
    requires IsRun(s, events) && i <= |events| && Duo(s, a, b, rest)
    requires forall k :: 0 <= k < i ==> Keeps(events[k])
    ensures if Selections(s, events, i) % 2 == 0 then Duo(At(s, events, i), a, b, rest)
      else Duo(At(s, events, i), b, a, rest)
    decreases i
  {
    hide IsRun, At, Step, Inv, Interrupt, Enabled, Selects, Duo, Keeps;
    AtStart(s, events);
    if i > 0 {
      Alternation(s, events, i - 1, a, b, rest);
      RunStep(s, events, i - 1);
      if Selections(s, events, i - 1) % 2 == 0 {
        DuoStep(At(s, events, i - 1), events[i - 1], a, b, rest);
      } else {
        DuoStep(At(s, events, i - 1), events[i - 1], b, a, rest);
      }
    }
  }

  /** The requeue at the head is last in, first out: two such threads starve every other one, ready or not. */
  lemma {:induction false} Starvation(s: Sched, events: seq<Event>, i: nat, a: nat, b: nat, rest: seq<nat>, t: nat)
    requires IsRun(s, events) && i <= |events| && Duo(s, a, b, rest) && t != a && t != b
    requires forall k :: 0 <= k < i ==> Keeps(events[k])
    ensures At(s, events, i).current != t
  {
    hide IsRun, At;
    Alternation(s, events, i, a, b, rest);
  }
}
