/** Which ready threads ever run (kernel/src/scheduler/scheduler.c): the requeue is at the head of the list. */
module Fairness {
  import opened Common
  import opened Scheduling
  import opened SchedulerRuns
  import opened UnlockedAddition

  /** A run seen from its second state on. */
  lemma {:induction false} Later(s: Sched, events: seq<Event>, i: nat)
    requires events != [] && i < |events|
    ensures At(At(s, events, 1), events[1..], i) == At(s, events, i + 1)
    decreases i
  {
    hide Step;
    if i > 0 { Later(s, events, i - 1); }
  }

  lemma {:induction false} LaterRun(s: Sched, events: seq<Event>)
    requires IsRun(s, events) && events != []
    ensures IsRun(At(s, events, 1), events[1..])
  {
    hide Step, Inv, At, Enabled;
    RunKeeps(s, events, 1);
    forall i | 0 <= i < |events[1..]|
      ensures Enabled(At(At(s, events, 1), events[1..], i), events[1..][i])
    {
      Later(s, events, i);
    }
  }

  /** The run starts by switching away from a running thread, and from then on threads neither block nor end nor are
      added. */
  ghost predicate Preempts(s: Sched, events: seq<Event>) {
    && IsRun(s, events) && events != [] && s.current != s.idle && s.adding == Nothing
    && s.threads[s.current].state == Running && Selects(s, events[0])
    && AllKeep(events)
  }

  predicate AllKeep(events: seq<Event>) {
    forall k :: 0 <= k < |events| ==> Keeps(events[k])
  }

  ghost predicate Runs(s: Sched, events: seq<Event>, t: nat) {
    exists k :: 1 <= k <= |events| && At(s, events, k).current == t
  }

  /** After the first switch the old thread waits behind the new one. */
  lemma {:induction false} BecomesDuo(s: Sched, events: seq<Event>)
    requires Preempts(s, events)
    ensures
      var j := FirstReady(Charged(s).threads, s.queue);
      j < |s.queue| ==> Duo(At(s, events, 1), s.queue[j], s.current, Rest(s, j))
  {
    hide Charged, FirstReady, Step, Inv;
    assert At(s, events, 0) == s && events[0] == Irq(events[0].frame);
    SwitchAway(s, events[0].frame);
    IdleFixed(s, events[0]);
    QueueApart(s);
    var j := FirstReady(Charged(s).threads, s.queue);
    if j < |s.queue| {
      assert s.queue[j] in s.queue;
      DuoFromAway(Step(s, events[0]), s.queue[j], s.current, Rest(s, j));
    }
  }

  lemma {:induction false} DuoFromAway(s: Sched, c: nat, a: nat, rest: seq<nat>)
    requires Away(s, c, a, rest) && c != s.idle
    ensures Duo(s, c, a, rest)
  {
    assert a in s.queue;
  }

  /** Of the threads that are ready when a running thread is switched out, the first one in the queue runs and no other
      ever does, for as long as threads neither block nor end nor are added: a queued ready thread runs if and only if
      it is the first ready one. */
  lemma {:induction false} OnlyFirstReadyRuns(s: Sched, events: seq<Event>, t: nat)
    requires Preempts(s, events) && t in s.queue && IsReady(Charged(s).threads, t)
    ensures
      var j := FirstReady(Charged(s).threads, s.queue);
      j < |s.queue| && (Runs(s, events, t) <==> t == s.queue[j])
  {
    hide Charged, Step, Inv, At, Duo;
    var j := FirstReady(Charged(s).threads, s.queue);
    var i :| 0 <= i < |s.queue| && s.queue[i] == t;
    assert j <= i;
    BecomesDuo(s, events);
    CurrentOfDuo(At(s, events, 1), s.queue[j], s.current, Rest(s, j));
    QueueApart(s);
    if t != s.queue[j] {
      forall k | 1 <= k <= |events|
        ensures At(s, events, k).current != t
      {
        LaterRun(s, events);
        Later(s, events, k - 1);
        Starvation(At(s, events, 1), events[1..], k - 1, s.queue[j], s.current, Rest(s, j), t);
      }
    }
  }

  lemma {:induction false} CurrentOfDuo(s: Sched, a: nat, b: nat, rest: seq<nat>)
    requires Duo(s, a, b, rest)
    ensures s.current == a
  {
  }

  /** The machine after four threads were added and the first of them was switched to. */
  lemma {:induction false} ThreeWait(r: Registers) returns (events: seq<Event>, s: Sched)
    ensures Reached(Initial(0, r), events, s)
    ensures Looks(s, View(1, false, [2, 3, 4], {}, QUANTUM, 1, false))
  {
    hide Looks, Step, Reached;
    var start, v := Initial(0, r), View(0, false, [1, 2, 3, 4], {}, QUANTUM, 0, false);
    events, s := FourAdded(r);
    events, s, v := Flag(start, events, s, v, YieldNow);
    events, s, v := Switches(start, events, s, v, r, 0);
    assert v == View(1, false, [2, 3, 4], {}, QUANTUM, 1, false);
  }

  /** A run from the start of the scheduler after which threads 3 and 4 are ready and never run, whatever comes, for as
      long as threads neither block nor end nor are added. */
  lemma {:induction false} StarvedThreads(r: Registers) returns (before: seq<Event>, s: Sched)
    ensures Reached(Initial(0, r), before, s) && Inv(s) && s.queue == [2, 3, 4]
    ensures IsReady(s.threads, 3) && IsReady(s.threads, 4)
    ensures forall events, t :: IsRun(s, events) && t in {3, 4} && AllKeep(events) ==> !Runs(s, events, t)
  {
    hide Step, Reached;
    before, s := ThreeWait(r);
    assert 2 in s.queue && 3 in s.queue && 4 in s.queue;
    assert s.queue == [2] + [3, 4];
    assert Duo(s, 1, 2, [3, 4]);
    hide Duo, At, Inv, IsRun;
    forall events, t | IsRun(s, events) && t in {3, 4} && AllKeep(events)
      ensures !Runs(s, events, t)
    {
      forall k | 1 <= k <= |events|
        ensures At(s, events, k).current != t
      {
        Starvation(s, events, k, 1, 2, [3, 4], t);
      }
    }
  }
}
