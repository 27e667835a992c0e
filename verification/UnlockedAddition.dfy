/** `scheduler_add_thread` (kernel/src/scheduler/scheduler.c) without the lock: its two stores are `thread->next =
    run_queue` and `run_queue = thread`, and interrupts between them change the list that `thread->next` points into. */
module UnlockedAddition {
  import opened Common
  import opened Scheduling
  import opened SchedulerRuns

  type Link = Option<nat>

  /** The thread at position `i` of a list, NULL past its end. */
  function Nth(q: seq<nat>, i: nat): Link {
    if i < |q| then Some(q[i]) else None
  }

  /** `run_queue`. */
  function Head(s: Sched): Link {
    Nth(s.queue, 0)
  }

  /** Following the `next` pointers from `head` runs through exactly the threads of `q`. */
  ghost predicate IsChain(next: map<nat, Link>, head: Link, q: seq<nat>) {
    head == Nth(q, 0) && forall i: nat :: i < |q| ==> q[i] in next && next[q[i]] == Nth(q, i + 1)
  }

  /** A list is determined by its pointers from any of its threads on. */
  lemma {:induction false} ChainTail(next: map<nat, Link>, head: Link, q: seq<nat>, k: nat, r: seq<nat>)
    requires IsChain(next, head, q) && k <= |q| && IsChain(next, Nth(q, k), r)
    ensures r == q[k..]
    decreases |q| - k
  {
    if k < |q| {
      assert r[0] == q[k] && next[r[0]] == Nth(r, 1) == Nth(q, k + 1);
      forall i: nat | i < |r[1..]|
        ensures r[1..][i] in next && next[r[1..][i]] == Nth(r[1..], i + 1)
      {
        assert r[i + 1] in next && next[r[i + 1]] == Nth(r, i + 2);
      }
      ChainTail(next, head, q, k + 1, r[1..]);
    }
  }

  /** The second store: the new thread, whose `next` was set to `link` by the first one, becomes the head, and the list
      is whatever the pointers now in memory make it. */
  ghost predicate Published(s: Sched, next: map<nat, Link>, t: nat, context: Registers, link: Link, s1: Sched) {
    && IsChain(next[t := link], Some(t), s1.queue)
    && s1 == s.(threads := s.threads[t := NewThread(context)], queue := s1.queue)
  }

  /** The list is well formed after the second store and the scheduler's invariant holds. */
  ghost predicate Survives(s: Sched, next: map<nat, Link>, t: nat, context: Registers, link: Link) {
    exists s1 :: Published(s, next, t, context, link, s1) && Inv(s1)
  }

  /** A state in which the adder can execute the second store: the pointers in memory are those of the run queue, and
      `link` is NULL or a thread that is neither current nor idle. */
  ghost predicate CanPublish(s: Sched, next: map<nat, Link>, t: nat, link: Link) {
    && Inv(s) && s.adding == Nothing && t !in s.threads && IsChain(next, Head(s), s.queue)
    && (link.Some? ==> link.value in s.threads && link.value != s.current && link.value != s.idle)
  }

  /** When `link` is a thread of the queue, or NULL, the list is the new thread and the queue from `link` on. */
  lemma {:induction false} ListFrom(s: Sched, next: map<nat, Link>, t: nat, link: Link, k: nat)
    requires CanPublish(s, next, t, link) && k <= |s.queue| && link == Nth(s.queue, k)
    ensures IsChain(next[t := link], Some(t), [t] + s.queue[k..])
  {
    var next1, p := next[t := link], [t] + s.queue[k..];
    forall i: nat | i < |p|
      ensures p[i] in next1 && next1[p[i]] == Nth(p, i + 1)
    {
      if i > 0 {
        var j := k + i - 1;
        assert s.queue[j] in next && next[s.queue[j]] == Nth(s.queue, j + 1);
        assert s.queue[j] in s.queue;
      }
    }
  }

  lemma {:induction false} OnlyList(s: Sched, next: map<nat, Link>, t: nat, link: Link, k: nat, q: seq<nat>)
    requires CanPublish(s, next, t, link) && k <= |s.queue| && link == Nth(s.queue, k)
    requires IsChain(next[t := link], Some(t), q)
    ensures q == [t] + s.queue[k..]
  {
    ListFrom(s, next, t, link, k);
    ChainTail(next[t := link], Some(t), [t] + s.queue[k..], 0, q);
  }

  /** When the head did not change, the addition is the one made under the lock. */
  lemma {:induction false} SameHeadSurvives(s: Sched, next: map<nat, Link>, t: nat, context: Registers)
    requires CanPublish(s, next, t, Head(s))
    ensures
      var s1 := s.(threads := s.threads[t := NewThread(context)], queue := [t] + s.queue);
      Published(s, next, t, context, Head(s), s1) && Inv(s1)
  {
    ListFrom(s, next, t, Head(s), 0);
    assert s.queue[0..] == s.queue;
    AddedKeeps(s, t, context);
  }

  lemma {:induction false} AddedKeeps(s: Sched, t: nat, context: Registers)
    requires Inv(s) && s.adding == Nothing && t !in s.threads
    ensures Inv(s.(threads := s.threads[t := NewThread(context)], queue := [t] + s.queue))
  {
    var s1 := s.(threads := s.threads[t := NewThread(context)], queue := [t] + s.queue);
    assert t != s.current && t != s.idle && t !in s.queue;
    forall x | x in s1.threads
      ensures Placed(s1, x)
    {
      if x != t { assert Placed(s, x); }
    }
  }

  /** When the head changed, either the thread now at the head of the queue is lost, or a thread that has exited is
      queued again. */
  lemma {:induction false} OtherHeadCorrupts(
    s: Sched, next: map<nat, Link>, t: nat, context: Registers, link: Link, s1: Sched)
    requires CanPublish(s, next, t, link) && link != Head(s) && Published(s, next, t, context, link, s1)
    ensures
      || (s.queue != [] && Waiting(s.threads[s.queue[0]]) && s.queue[0] !in s1.queue)
      || (link.Some? && IsDead(s.threads, link.value) && link.value in s1.queue)
    ensures !Inv(s1)
  {
    if link.None? {
      LosesHead(s, next, t, context, link, s1, |s.queue|);
    } else if link.value in s.queue {
      var k :| 0 <= k < |s.queue| && s.queue[k] == link.value;
      LosesHead(s, next, t, context, link, s1, k);
    } else {
      RevivesDead(s, next, t, context, link, s1);
    }
  }

  lemma {:induction false} LosesHead(
    s: Sched, next: map<nat, Link>, t: nat, context: Registers, link: Link, s1: Sched, k: nat)
    requires CanPublish(s, next, t, link) && Published(s, next, t, context, link, s1)
    requires k <= |s.queue| && link == Nth(s.queue, k) && link != Head(s)
    ensures s.queue != [] && Waiting(s.threads[s.queue[0]]) && s.queue[0] !in s1.queue && !Inv(s1)
  {
    OnlyList(s, next, t, link, k, s1.queue);
    hide IsChain;
    var lost := s.queue[0];
    assert lost in s.queue && Placed(s, lost);
    assert lost !in s.queue[k..];
    assert lost in s1.threads && !Placed(s1, lost);
  }

  lemma {:induction false} RevivesDead(
    s: Sched, next: map<nat, Link>, t: nat, context: Registers, link: Link, s1: Sched)
    requires CanPublish(s, next, t, link) && Published(s, next, t, context, link, s1)
    requires link.Some? && link.value !in s.queue
    ensures IsDead(s.threads, link.value) && link.value in s1.queue && !Inv(s1)
  {
    var stale := link.value;
    assert Placed(s, stale);
    assert s1.queue[0] == t && next[t := link][s1.queue[0]] == Nth(s1.queue, 1);
    assert s1.queue[1] == stale && stale in s1.threads && !Placed(s1, stale);
  }

  /** When the old head is still queued, or the queue was empty, a queued thread is lost if and only if the head has
      changed. */
  lemma {:induction false} LosesThreadIf(
    s: Sched, next: map<nat, Link>, t: nat, context: Registers, link: Link, s1: Sched)
    requires CanPublish(s, next, t, link) && Published(s, next, t, context, link, s1)
    requires link.None? || link.value in s.queue
    ensures (exists x :: x in s.queue && x !in s1.queue) <==> link != Head(s)
  {
    hide Inv, IsChain;
    if link == Head(s) {
      OnlyList(s, next, t, link, 0, s1.queue);
    } else {
      var k: nat := |s.queue|;
      if link.Some? { k :| 0 <= k < |s.queue| && s.queue[k] == link.value; }
      LosesHead(s, next, t, context, link, s1, k);
      assert s.queue[0] in s.queue;
    }
  }

  /** When the old head has exited and its stale `next` happens to be the new head, no thread is lost: the list is the
      queue behind the new thread and the exited one, which the next reap pass takes out. */
  lemma {:induction false} StaleLinkKeepsThreads(
    s: Sched, next: map<nat, Link>, t: nat, context: Registers, link: Link, s1: Sched)
    requires CanPublish(s, next, t, link) && Published(s, next, t, context, link, s1)
    requires link.Some? && link.value !in s.queue && link.value in next && next[link.value] == Head(s)
    ensures IsDead(s.threads, link.value) && s1.queue == [t, link.value] + s.queue
    ensures Alive(s1.threads, s1.queue) == [t] + s.queue
  {
    var h, next1 := link.value, next[t := link];
    RevivesDead(s, next, t, context, link, s1);
    var p := [t, h] + s.queue;
    forall i: nat | i < |p|
      ensures p[i] in next1 && next1[p[i]] == Nth(p, i + 1)
    {
      if i >= 2 {
        assert s.queue[i - 2] in next && next[s.queue[i - 2]] == Nth(s.queue, i - 1);
        assert s.queue[i - 2] in s.queue;
      }
    }
    ChainTail(next1, Some(t), p, 0, s1.queue);
    hide IsChain;
    ReapedList(s, t, context, h);
  }

  lemma {:induction false} ReapedList(s: Sched, t: nat, context: Registers, h: nat)
    requires Inv(s) && t !in s.threads && IsDead(s.threads, h)
    ensures Alive(s.threads[t := NewThread(context)], [t, h] + s.queue) == [t] + s.queue
  {
    var threads := s.threads[t := NewThread(context)];
    forall x | x in s.queue
      ensures !IsDead(threads, x)
    {
      assert Placed(s, x);
    }
    hide Inv, Alive;
    NobodyDead(threads, s.queue);
    assert [t, h] + s.queue == [t] + ([h] + s.queue);
    AliveOrder(threads, [t], [h] + s.queue);
    AliveOrder(threads, [h], s.queue);
    AliveAlone(threads, t);
    AliveAlone(threads, h);
  }

  lemma {:induction false} AliveAlone(threads: map<nat, Thread>, x: nat)
    ensures Alive(threads, [x]) == if IsDead(threads, x) then [] else [x]
  {
    assert [x][1..] == [];
  }

  /** Without the lock the addition keeps the scheduler's invariant if and only if the head of the run queue is the same
      at both stores. */
  lemma {:induction false} SurvivesIfSameHead(s: Sched, next: map<nat, Link>, t: nat, context: Registers, link: Link)
    requires CanPublish(s, next, t, link)
    ensures Survives(s, next, t, context, link) <==> link == Head(s)
  {
    hide Inv, IsChain;
    if link == Head(s) {
      SameHeadSurvives(s, next, t, context);
    } else {
      forall s1 | Published(s, next, t, context, link, s1)
        ensures !Inv(s1)
      {
        OtherHeadCorrupts(s, next, t, context, link, s1);
      }
    }
  }

  /* ---------- over whole runs ---------- */

  lemma {:induction false} ThreadsStay(s: Sched, e: Event)
    requires Inv(s) && Enabled(s, e)
    ensures s.threads.Keys <= Step(s, e).threads.Keys
  {
    match e
    case Irq(frame) =>
      InterruptCases(s, frame);
      ChargedParts(s);
      if Selects(s, e) { SwitchParts(Charged(s), frame); }
    case _ =>
      CurrentKnown(s);
  }

  lemma {:induction false} KnownForever(s: Sched, events: seq<Event>, i: nat)
    requires IsRun(s, events) && i <= |events|
    ensures s.threads.Keys <= At(s, events, i).threads.Keys
    decreases i
  {
    hide IsRun, Step, Inv, Enabled;
    if i > 0 {
      KnownForever(s, events, i - 1);
      RunStep(s, events, i - 1);
      ThreadsStay(At(s, events, i - 1), events[i - 1]);
    }
  }

  /** The state the adder finds when it executes the second store, whatever ran since the first: it is current again. */
  ghost predicate Window(s: Sched, events: seq<Event>, t: nat, next: map<nat, Link>) {
    && IsRun(s, events)
    && var s1 := At(s, events, |events|);
    && s1.current == s.current && s1.adding == Nothing && t !in s1.threads && IsChain(next, Head(s1), s1.queue)
  }

  /** Over every run between the two stores: the invariant is kept if and only if the head is the same at both. */
  lemma {:induction false} UnlockedAdditionSurvives(
    s: Sched, events: seq<Event>, t: nat, context: Registers, next: map<nat, Link>)
    requires Window(s, events, t, next)
    ensures
      var s1 := At(s, events, |events|);
      Survives(s1, next, t, context, Head(s)) <==> Head(s1) == Head(s)
  {
    WindowPublishes(s, events, t, next);
    hide Survives, CanPublish;
    SurvivesIfSameHead(At(s, events, |events|), next, t, context, Head(s));
  }

  lemma {:induction false} WindowPublishes(s: Sched, events: seq<Event>, t: nat, next: map<nat, Link>)
    requires Window(s, events, t, next)
    ensures CanPublish(At(s, events, |events|), next, t, Head(s))
  {
    hide At, IsChain;
    RunKeeps(s, events, |events|);
    KnownForever(s, events, |events|);
    if s.queue != [] { assert s.queue[0] in s.queue; }
  }

  /* ---------- preempted once ---------- */

  /** The adder `a` waits at the head of the queue while `c` runs. */
  ghost predicate Away(s: Sched, c: nat, a: nat, rest: seq<nat>) {
    && Inv(s) && s.current == c && s.queue == [a] + rest && s.threads[a].state == Ready
    && (c != s.idle ==> s.threads[c].state == Running)
  }

  lemma {:induction false} AwayStep(s: Sched, e: Event, c: nat, a: nat, rest: seq<nat>)
    requires Away(s, c, a, rest) && Enabled(s, e) && Keeps(e)
    ensures !Selects(s, e) ==> Away(Step(s, e), c, a, rest)
    ensures Selects(s, e) ==> Step(s, e).current == a && Step(s, e).queue == (if c == s.idle then rest else [c] + rest)
  {
    StepKeeps(s, e);
    match e
    case Irq(frame) =>
      InterruptCases(s, frame);
      ChargedParts(s);
      assert a in s.queue;
      var d := Charged(s);
      if Selects(s, e) {
        assert d.queue[0] == a && FirstReady(d.threads, d.queue) == 0;
        assert d.queue[..0] + d.queue[1..] == rest;
        assert Select(d) == (rest, a);
        SwitchParts(d, frame);
      }
    case _ =>
      CurrentKnown(s);
  }

  /** The first switch leaves the adder waiting at the head. */
  lemma {:induction false} SwitchAway(s: Sched, frame: Registers)
    requires Inv(s) && s.current != s.idle && s.threads[s.current].state == Running && Selects(s, Irq(frame))
    requires s.adding == Nothing
    ensures
      var j := FirstReady(Charged(s).threads, s.queue);
      Away(Step(s, Irq(frame)), Next(s, j), s.current, Rest(s, j))
  {
    StepKeeps(s, Irq(frame));
    InterruptCases(s, frame);
    ChargedParts(s);
    SwitchParts(Charged(s), frame);
    SelectParts(Charged(s));
    var j := FirstReady(Charged(s).threads, s.queue);
    if j < |s.queue| { assert s.queue[j] in s.queue; }
  }

  lemma {:induction false} AwayRun(s: Sched, events: seq<Event>, i: nat, j: nat, c: nat, a: nat, rest: seq<nat>)
    requires IsRun(s, events) && i <= j <= |events| && Away(At(s, events, i), c, a, rest)
    requires forall k :: i <= k < j ==> Keeps(events[k]) && !Selects(At(s, events, k), events[k])
    ensures Away(At(s, events, j), c, a, rest)
    decreases j
  {
    hide IsRun, Step, Inv, Enabled, Selects, Away, Keeps;
    if i < j {
      AwayRun(s, events, i, j - 1, c, a, rest);
      RunStep(s, events, j - 1);
      AwayStep(At(s, events, j - 1), events[j - 1], c, a, rest);
    }
  }

  /** The adder is preempted once between the stores: the first event switches away, the last one back, and the thread
      that runs in between keeps running until then. */
  ghost predicate PreemptedOnce(s: Sched, events: seq<Event>) {
    && IsRun(s, events) && |events| >= 2 && s.current != s.idle && s.adding == Nothing
    && s.threads[s.current].state == Running
    && Selects(s, events[0]) && Keeps(events[|events| - 1])
    && Selects(At(s, events, |events| - 1), events[|events| - 1])
    && forall k :: 1 <= k < |events| - 1 ==> Keeps(events[k]) && !Selects(At(s, events, k), events[k])
  }

  /** In that window the head stays the same, and so the queue survives, if and only if the head of the queue at the
      first store is ready or no queued thread is (after the wake pass): it fails exactly when the interrupt has to
      reach past a blocked head for a ready thread. */
  lemma {:induction false} PreemptedOnceSurvives(s: Sched, events: seq<Event>)
    requires PreemptedOnce(s, events)
    ensures
      var s1 := At(s, events, |events|);
      var j := FirstReady(Charged(s).threads, s.queue);
      s1.current == s.current && (Head(s1) == Head(s) <==> !(0 < j < |s.queue|))
  {
    hide Inv, Charged, Selects, Keeps, Enabled, FirstReady, Step, At, Away, IsRun;
    var n, q := |events|, s.queue;
    var j := FirstReady(Charged(s).threads, q);
    var c, rest := Next(s, j), Rest(s, j);
    FirstEvent(s, events);
    RunStep(s, events, n - 1);
    AwayRun(s, events, 1, n - 1, c, s.current, rest);
    AwayStep(At(s, events, n - 1), events[n - 1], c, s.current, rest);
    QueueApart(s);
  }

  /** So without the lock, preempted once, the addition succeeds exactly then. */
  lemma {:induction false} PreemptedOnceAddition(
    s: Sched, events: seq<Event>, t: nat, context: Registers, next: map<nat, Link>)
    requires PreemptedOnce(s, events) && Window(s, events, t, next)
    ensures
      var j := FirstReady(Charged(s).threads, s.queue);
      Survives(At(s, events, |events|), next, t, context, Head(s)) <==> !(0 < j < |s.queue|)
  {
    hide PreemptedOnce, Window, Survives, At, Charged, FirstReady;
    PreemptedOnceSurvives(s, events);
    UnlockedAdditionSurvives(s, events, t, context, next);
  }

  /** The thread switched to when the `j`-th queued thread is the first ready one, and the rest of the queue. */
  function Next(s: Sched, j: nat): nat {
    if j < |s.queue| then s.queue[j] else s.idle
  }

  function Rest(s: Sched, j: nat): seq<nat> {
    if j < |s.queue| then s.queue[..j] + s.queue[j + 1..] else s.queue
  }

  lemma {:induction false} FirstEvent(s: Sched, events: seq<Event>)
    requires PreemptedOnce(s, events)
    ensures
      var j := FirstReady(Charged(s).threads, s.queue);
      Inv(s) && Away(At(s, events, 1), Next(s, j), s.current, Rest(s, j))
  {
    hide Charged, FirstReady, Step, Away, Inv;
    assert At(s, events, 0) == s;
    assert events[0] == Irq(events[0].frame);
    SwitchAway(s, events[0].frame);
  }

  lemma {:induction false} QueueApart(s: Sched)
    requires Inv(s)
    ensures Distinct(s.queue) && s.idle !in s.queue && s.current !in s.queue
  {
  }

  /* ---------- a run that loses a thread ---------- */

  /** `s` is reached from `start` by the run `events`. */
  ghost predicate Reached(start: Sched, events: seq<Event>, s: Sched) {
    IsRun(start, events) && At(start, events, |events|) == s
  }

  lemma {:induction false} AtPrefix(s: Sched, events: seq<Event>, more: seq<Event>, i: nat)
    requires i <= |events|
    ensures At(s, events + more, i) == At(s, events, i)
    decreases i
  {
    hide Step;
    if i > 0 { AtPrefix(s, events, more, i - 1); }
  }

  lemma {:induction false} OneMore(start: Sched, events: seq<Event>, s: Sched, e: Event)
    requires Reached(start, events, s) && Enabled(s, e)
    ensures Reached(start, events + [e], Step(s, e))
  {
    hide Step, Inv, Enabled;
    var all := events + [e];
    forall i | 0 <= i < |all|
      ensures Enabled(At(start, all, i), all[i])
    {
      AtPrefix(start, events, [e], i);
    }
    AtPrefix(start, events, [e], |events|);
  }

  /** What matters of a state in the run below: sleepers wait for tick 1000. */
  datatype View = View(
    current: nat, asleep: bool, queue: seq<nat>, blocked: set<nat>, quantum: nat, ticks: nat, locked: bool)

  ghost predicate Looks(s: Sched, v: View) {
    && Inv(s) && s.idle == 0 && s.adding == Nothing && s.locked == v.locked && s.ticks == v.ticks
    && s.current == v.current && s.queue == v.queue && s.threads[s.current].quantum == v.quantum
    && (v.asleep ==> Sleeper(s.threads[s.current]))
    && (!v.asleep && v.current != 0 ==> s.threads[s.current].state == Running)
    && (forall t :: t in s.queue ==> if t in v.blocked then Sleeper(s.threads[t]) else s.threads[t].state == Ready)
  }

  predicate Sleeper(t: Thread) {
    t.state == Blocked && t.wakeTick == 1000
  }

  lemma {:induction false} LookAdd(s: Sched, v: View, t: nat, context: Registers)
    requires Looks(s, v) && v.locked && t !in s.threads && t !in v.blocked
    ensures Enabled(s, AddLink(t, context)) && Enabled(Step(s, AddLink(t, context)), AddPublish)
    ensures
      var s1 := Step(Step(s, AddLink(t, context)), AddPublish);
      Looks(s1, v.(queue := [t] + v.queue)) && s1.threads.Keys == s.threads.Keys + {t}
  {
    StepKeeps(s, AddLink(t, context));
    StepKeeps(Step(s, AddLink(t, context)), AddPublish);
  }

  function FlagView(v: View, e: Event): View {
    if e.Lock? then v.(locked := true) else if e.Unlock? then v.(locked := false) else v.(quantum := 0)
  }

  lemma {:induction false} LookFlag(s: Sched, v: View, e: Event)
    requires Looks(s, v) && (e.Lock? || e.Unlock? || e.YieldNow?)
    ensures Enabled(s, e) && Step(s, e).threads.Keys == s.threads.Keys
    ensures Looks(Step(s, e), FlagView(v, e))
  {
    StepKeeps(s, e);
  }

  lemma {:induction false} LookSleep(s: Sched, v: View)
    requires Looks(s, v) && v.current != 0 && v.ticks < 1000
    ensures Looks(Step(s, SleepFor(1000 - v.ticks)), v.(asleep := true))
    ensures Step(s, SleepFor(1000 - v.ticks)).threads.Keys == s.threads.Keys
  {
    StepKeeps(s, SleepFor(1000 - v.ticks));
  }

  lemma {:induction false} LookTick(s: Sched, v: View, frame: Registers)
    requires Looks(s, v) && !v.locked && v.quantum > 1 && v.ticks < 900
    ensures Looks(Step(s, Irq(frame)), v.(quantum := v.quantum - 1, ticks := v.ticks + 1))
    ensures Step(s, Irq(frame)).threads.Keys == s.threads.Keys
  {
    StepKeeps(s, Irq(frame));
    InterruptCases(s, frame);
    ChargedParts(s);
  }

  lemma {:induction false} LookCharged(s: Sched, v: View)
    requires Looks(s, v) && v.ticks < 900
    ensures Looks(Charged(s), v.(quantum := if v.quantum > 0 then v.quantum - 1 else 0, ticks := v.ticks + 1))
  {
    ChargedParts(s);
  }

  lemma {:induction false} LookFirst(s: Sched, v: View, j: nat)
    requires Looks(s, v) && j < |v.queue| && v.queue[j] !in v.blocked
    requires forall i :: 0 <= i < j ==> v.queue[i] in v.blocked
    ensures FirstReady(s.threads, s.queue) == j
  {
    assert forall i :: 0 <= i < |s.queue| ==> s.queue[i] in s.queue && s.queue[i] in s.threads;
  }

  lemma {:induction false} LookSwitched(s: Sched, v: View, frame: Registers, j: nat)
    requires Looks(s, v) && !v.locked && (v.asleep ==> v.current != 0) && v.current !in v.blocked
    requires FirstReady(s.threads, s.queue) == j < |v.queue| && v.queue[j] !in v.blocked
    ensures
      var back := if v.current == 0 then [] else [v.current];
      Looks(Switch(s, frame).0, View(v.queue[j], false, back + (v.queue[..j] + v.queue[j + 1..]),
        if v.asleep then v.blocked + {v.current} else v.blocked, QUANTUM, v.ticks, false))
    ensures Switch(s, frame).0.threads.Keys == s.threads.Keys
  {
    hide Inv, Switch, FirstReady, Requeued;
    SwitchKeeps(s, frame);
    SwitchParts(s, frame);
    SelectParts(s);
    SwitchQueue(s, frame);
    CurrentApart(s);
    RequeuedIf(s);
  }

  lemma {:induction false} RequeuedIf(s: Sched)
    requires s.current in s.threads
    ensures Requeued(s) <==> s.current != s.idle && s.threads[s.current].state != Dead
  {
  }

  lemma {:induction false} CurrentApart(s: Sched)
    requires Inv(s)
    ensures s.current in s.threads && s.current !in s.queue && s.idle !in s.queue
    ensures forall t :: t in s.queue ==> t in s.threads
  {
  }

  /** The interrupt switches to the `j`-th queued thread, the first that does not sleep. */
  lemma {:induction false} LookSwitch(s: Sched, v: View, frame: Registers, j: nat)
    requires Looks(s, v) && !v.locked && v.quantum <= 1 && v.ticks < 900 && (v.asleep ==> v.current != 0)
    requires j < |v.queue| && v.queue[j] !in v.blocked && v.current !in v.blocked
    requires forall i :: 0 <= i < j ==> v.queue[i] in v.blocked
    ensures
      var back := if v.current == 0 then [] else [v.current];
      Looks(Step(s, Irq(frame)), View(v.queue[j], false, back + (v.queue[..j] + v.queue[j + 1..]),
        if v.asleep then v.blocked + {v.current} else v.blocked, QUANTUM, v.ticks + 1, false))
    ensures Step(s, Irq(frame)).threads.Keys == s.threads.Keys && Selects(s, Irq(frame))
  {
    var w := v.(quantum := if v.quantum > 0 then v.quantum - 1 else 0, ticks := v.ticks + 1);
    InterruptCases(s, frame);
    ChargedParts(s);
    LookCharged(s, v);
    CurrentApart(s);
    hide Inv, Charged, Switch, Interrupt;
    LookFirst(Charged(s), w, j);
    LookSwitched(Charged(s), w, frame, j);
  }

  /** Burning all but the last tick of a slice. */
  lemma {:induction false} LookTicks(start: Sched, events: seq<Event>, s: Sched, v: View, frame: Registers, n: nat)
    returns (more: seq<Event>, s1: Sched)
    requires Reached(start, events, s) && Looks(s, v) && !v.locked && v.quantum > n && v.ticks + n < 900
    ensures Reached(start, more, s1) && Looks(s1, v.(quantum := v.quantum - n, ticks := v.ticks + n))
    ensures s1.threads.Keys == s.threads.Keys
    decreases n
  {
    hide Looks, Step, Reached;
    more, s1 := events, s;
    if n > 0 {
      LookTick(s, v, frame);
      OneMore(start, events, s, Irq(frame));
      more, s1 := LookTicks(start, events + [Irq(frame)], Step(s, Irq(frame)),
        v.(quantum := v.quantum - 1, ticks := v.ticks + 1), frame, n - 1);
    }
  }

  lemma {:induction false} Adds(start: Sched, events: seq<Event>, s: Sched, v: View, t: nat, r: Registers)
    returns (more: seq<Event>, s1: Sched)
    requires Reached(start, events, s) && Looks(s, v) && v.locked && t !in s.threads && t !in v.blocked
    ensures Reached(start, more, s1) && Looks(s1, v.(queue := [t] + v.queue)) && s1.threads.Keys == s.threads.Keys + {t}
  {
    hide Looks, Step, Reached, Enabled;
    LookAdd(s, v, t, r);
    OneMore(start, events, s, AddLink(t, r));
    s1 := Step(Step(s, AddLink(t, r)), AddPublish);
    OneMore(start, events + [AddLink(t, r)], Step(s, AddLink(t, r)), AddPublish);
    more := events + [AddLink(t, r)] + [AddPublish];
  }

  lemma {:induction false} Flag(start: Sched, events: seq<Event>, s: Sched, v: View, e: Event)
    returns (more: seq<Event>, s1: Sched, v1: View)
    requires Reached(start, events, s) && Looks(s, v) && (e.Lock? || e.Unlock? || e.YieldNow?)
    ensures Reached(start, more, s1) && Looks(s1, v1) && s1.threads.Keys == s.threads.Keys
    ensures v1 == FlagView(v, e)
  {
    hide Looks, Step, Reached, Enabled;
    LookFlag(s, v, e);
    OneMore(start, events, s, e);
    more, s1 := events + [e], Step(s, e);
    v1 := FlagView(v, e);
  }

  lemma {:induction false} Switches(start: Sched, events: seq<Event>, s: Sched, v: View, r: Registers, j: nat)
    returns (more: seq<Event>, s1: Sched, v1: View)
    requires Reached(start, events, s) && Looks(s, v) && !v.locked && v.quantum <= 1 && v.ticks < 900
    requires j < |v.queue| && v.queue[j] !in v.blocked && v.current !in v.blocked && (v.asleep ==> v.current != 0)
    requires forall i :: 0 <= i < j ==> v.queue[i] in v.blocked
    ensures Reached(start, more, s1) && Looks(s1, v1) && s1.threads.Keys == s.threads.Keys
    ensures v1 == View(v.queue[j], false,
      (if v.current == 0 then [] else [v.current]) + (v.queue[..j] + v.queue[j + 1..]),
      if v.asleep then v.blocked + {v.current} else v.blocked, QUANTUM, v.ticks + 1, false)
  {
    hide Looks, Step, Reached;
    LookSwitch(s, v, r, j);
    OneMore(start, events, s, Irq(r));
    more, s1 := events + [Irq(r)], Step(s, Irq(r));
    v1 := View(v.queue[j], false, (if v.current == 0 then [] else [v.current]) + (v.queue[..j] + v.queue[j + 1..]),
      if v.asleep then v.blocked + {v.current} else v.blocked, QUANTUM, v.ticks + 1, false);
  }

  /** Four threads are added, thread 2 goes to sleep, and thread 1 has one tick of its slice left. */
  lemma {:induction false} BusyMachine(r: Registers) returns (events: seq<Event>, s: Sched)
    ensures Reached(Initial(0, r), events, s) && s.threads.Keys == {0, 1, 2, 3, 4}
    ensures Looks(s, View(1, false, [2, 3, 4], {2}, 1, 12, false))
  {
    hide Looks, Step, Reached;
    var start, v := Initial(0, r), View(0, false, [1, 2, 3, 4], {}, QUANTUM, 0, false);
    events, s := FourAdded(r);
    events, s, v := Flag(start, events, s, v, YieldNow);
    events, s, v := Switches(start, events, s, v, r, 0);
    assert v == View(1, false, [2, 3, 4], {}, QUANTUM, 1, false);
    events, s, v := Flag(start, events, s, v, YieldNow);
    events, s, v := Switches(start, events, s, v, r, 0);
    assert v == View(2, false, [1, 3, 4], {}, QUANTUM, 2, false);
    events, s := Sleeps(start, events, s, v);
    events, s, v := Flag(start, events, s, v.(asleep := true), YieldNow);
    events, s, v := Switches(start, events, s, v, r, 0);
    assert v == View(1, false, [2, 3, 4], {2}, QUANTUM, 3, false);
    events, s := LookTicks(start, events, s, v, r, 9);
  }

  lemma {:induction false} FourAdded(r: Registers) returns (events: seq<Event>, s: Sched)
    ensures Reached(Initial(0, r), events, s) && s.threads.Keys == {0, 1, 2, 3, 4}
    ensures Looks(s, View(0, false, [1, 2, 3, 4], {}, QUANTUM, 0, false))
  {
    hide Looks, Step, Reached;
    var start, v := Initial(0, r), View(0, false, [], {}, QUANTUM, 0, false);
    Boots(r);
    events, s, v := Flag(start, [], start, v, Lock);
    events, s := Adds(start, events, s, v, 4, r);
    v := v.(queue := [4] + v.queue);
    events, s := Adds(start, events, s, v, 3, r);
    v := v.(queue := [3] + v.queue);
    events, s := Adds(start, events, s, v, 2, r);
    v := v.(queue := [2] + v.queue);
    events, s := Adds(start, events, s, v, 1, r);
    v := v.(queue := [1] + v.queue);
    assert v.queue == [1, 2, 3, 4];
    events, s, v := Flag(start, events, s, v, Unlock);
  }

  lemma {:induction false} Boots(r: Registers)
    ensures Reached(Initial(0, r), [], Initial(0, r))
    ensures Looks(Initial(0, r), View(0, false, [], {}, QUANTUM, 0, false)) && Initial(0, r).threads.Keys == {0}
  {
    InitialInv(0, r);
  }

  lemma {:induction false} Sleeps(start: Sched, events: seq<Event>, s: Sched, v: View)
    returns (more: seq<Event>, s1: Sched)
    requires Reached(start, events, s) && Looks(s, v) && v.current != 0 && v.ticks < 1000
    ensures Reached(start, more, s1) && Looks(s1, v.(asleep := true)) && s1.threads.Keys == s.threads.Keys
  {
    hide Looks, Step, Reached;
    var e := SleepFor(1000 - v.ticks);
    LookSleep(s, v);
    OneMore(start, events, s, e);
    more, s1 := events + [e], Step(s, e);
  }

  /** A run of the whole scheduler from its start in which an addition without the lock loses a thread. Thread 1 has
      set the new thread's `next` to thread 2, the blocked head. The interrupt that follows reaches past it to thread 3;
      when thread 1 is current again, thread 3 is the head. The second store makes the list 5, 2, 4: thread 3 is ready,
      but neither queued nor current. */
  lemma {:induction false} LostThread(
    r: Registers) returns (before: seq<Event>, s: Sched, window: seq<Event>, s1: Sched)
    ensures Reached(Initial(0, r), before, s) && Reached(s, window, s1) && s.current == s1.current == 1
    ensures 5 !in s1.threads
    ensures Head(s) == Some(2) && s1.queue == [3, 2, 4]
    ensures forall next :: IsChain(next, Head(s1), s1.queue) ==>
      var s2 := s1.(threads := s1.threads[5 := NewThread(r)], queue := [5, 2, 4]);
      && Published(s1, next, 5, r, Head(s), s2) && IsReady(s2.threads, 3)
      && !Survives(s1, next, 5, r, Head(s))
  {
    hide Step, Inv, Reached, Looks, IsChain, Published, Survives;
    before, s := BusyMachine(r);
    Shown(s, View(1, false, [2, 3, 4], {2}, 1, 12, false));
    var v;
    window, s1, v := Switches(s, [], s, View(1, false, [2, 3, 4], {2}, 1, 12, false), r, 1);
    assert v == View(3, false, [1, 2, 4], {2}, QUANTUM, 13, false);
    window, s1, v := Flag(s, window, s1, v, YieldNow);
    window, s1, v := Switches(s, window, s1, v, r, 0);
    assert v == View(1, false, [3, 2, 4], {2}, QUANTUM, 14, false);
    Shown(s1, v);
    forall next | IsChain(next, Head(s1), s1.queue)
      ensures
        var s2 := s1.(threads := s1.threads[5 := NewThread(r)], queue := [5, 2, 4]);
        && Published(s1, next, 5, r, Head(s), s2) && IsReady(s2.threads, 3) && !Survives(s1, next, 5, r, Head(s))
    {
      ThirdIsLost(s1, v, next, r);
    }
  }

  lemma {:induction false} ThirdIsLost(s: Sched, v: View, next: map<nat, Link>, r: Registers)
    requires Looks(s, v) && v.queue == [3, 2, 4] && v.blocked == {2} && v.current == 1 && 5 !in s.threads
    requires IsChain(next, Head(s), s.queue)
    ensures
      var s2 := s.(threads := s.threads[5 := NewThread(r)], queue := [5, 2, 4]);
      && Published(s, next, 5, r, Some(2), s2) && IsReady(s2.threads, 3) && !Survives(s, next, 5, r, Some(2))
  {
    assert 3 in s.queue && 2 in s.queue;
    assert CanPublish(s, next, 5, Some(2));
    ListFrom(s, next, 5, Some(2), 1);
    assert [5] + s.queue[1..] == [5, 2, 4];
    SurvivesIfSameHead(s, next, 5, r, Some(2));
  }

  lemma {:induction false} Shown(s: Sched, v: View)
    requires Looks(s, v)
    ensures Inv(s) && Reached(s, [], s) && s.current == v.current && s.queue == v.queue
  {
  }
}
