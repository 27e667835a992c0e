/** Making threads (kernel/src/scheduler/thread.c): the first context, the return address on the new stack, and the
    thread's first run. */
module Threads {
  import opened Common
  import opened Scheduling
  import opened SchedulerRuns
  import opened InterruptStub
  import opened Scheduler

  const STACK_SIZE: nat := 4096

  /** Where the stack pointer starts: one word below the stack's top rounded down to 16 bytes. */
  function EntryStack(stack: nat): nat {
    (stack + STACK_SIZE) / 16 * 16 - 8
  }

  /** The return address lies inside the stack, and the pointer has the alignment of a function just called. */
  lemma {:induction false} EntryStackInside(stack: nat)
    ensures stack <= EntryStack(stack) && EntryStack(stack) + 8 <= stack + STACK_SIZE
    ensures EntryStack(stack) % 16 == 8
  {
    var k := (stack + STACK_SIZE) / 16;
    assert (16 * (k - 1) + 8) % 16 == 8;
  }

  /** The context of a new kernel thread: every register not named here is zero from the `memset`. */
  function FirstContext(entry: nat, sp: nat): Registers {
    Registers(r15 := 0, r14 := 0, r13 := 0, r12 := 0, r11 := 0, r10 := 0, r9 := 0, r8 := 0,
              rbp := 0, rdi := 0, rsi := 0, rdx := 0, rcx := 0, rbx := 0, rax := 0,
              rip := entry, cs := 0x08, rflags := 0x202, rsp := sp, ss := 0x10)
  }

  /** Memory after the return address is stored on the new stack. */
  function WithReturn(memory: map<nat, nat>, stack: nat, exit: nat): map<nat, nat> {
    memory[EntryStack(stack) := exit]
  }

  class ThreadMaker {
    var nextTid: nat
    var memory: map<nat, nat>

    constructor ()
      ensures nextTid == 0
    {
      nextTid, memory := 0, map[];
    }

    /** `thread_create`: `block` and `stack` are what the two allocations return, 0 for failure, and `mapped` says
        whether the word that gets the return address is mapped; `freed` is the block given back when there is no stack
        for it, else 0. The store to an unmapped word is a page fault. */
    method Create(entry: nat, exit: nat, block: nat, stack: nat, mapped: bool)
      returns (t: Tcb?, freed: nat, fault: bool)
      modifies this
      ensures fault <==> block != 0 && stack != 0 && !mapped
      ensures t == null <==> block == 0 || stack == 0 || fault
      ensures freed == if stack == 0 then block else 0
      ensures nextTid == if block != 0 && stack != 0 then (old(nextTid) + 1) % WORD else old(nextTid)
      ensures t == null ==> memory == old(memory)
      ensures t != null ==>
        && fresh(t) && t.id == old(nextTid) && t.next == null && t.Snapshot() == NewThread(t.context)
        && t.state == Ready && t.wakeTick == 0 && t.quantum == 10
      ensures t != null ==>
        t.context == Registers(
          r15 := 0, r14 := 0, r13 := 0, r12 := 0, r11 := 0, r10 := 0, r9 := 0, r8 := 0,
          rbp := 0, rdi := 0, rsi := 0, rdx := 0, rcx := 0, rbx := 0, rax := 0,
          rip := entry, cs := 0x08, rflags := 0x202, rsp := (stack + 4096) / 16 * 16 - 8, ss := 0x10)
      ensures t != null ==> memory == old(memory)[(stack + 4096) / 16 * 16 - 8 := exit]
      ensures t != null ==> t.context == FirstContext(entry, EntryStack(stack))
    {
      if block == 0 { return null, 0, false; }
      if stack == 0 { return null, block, false; }
      var id := nextTid;
      nextTid := (nextTid + 1) % WORD;
      if !mapped { return null, 0, true; }
      var sp := (stack + STACK_SIZE) / 16 * 16;
      sp := sp - 8;
      memory := memory[sp := exit];
      t := new Tcb(id, FirstContext(entry, sp));
      freed, fault := 0, false;
    }
  }

  /* ---------- what an interrupt writes ---------- */

  /** Pushes write only the words below the stack pointer they use. */
  lemma {:induction false} PushesOnlyBelow(c: Cpu, program: seq<Instr>, a: nat)
    requires (forall k :: 0 <= k < |program| ==> IsPush(program[k])) && c.rsp >= 8 * |program|
    requires a + 8 * |program| < c.rsp || a >= c.rsp
    ensures Word(Run(c, program).mem, a) == Word(c.mem, a)
    decreases program
  {
    if program != [] {
      assert IsPush(program[0]);
      PushesOnlyBelow(Exec(c, program[0]), program[1..], a);
    }
  }

  lemma {:induction false} DeliverOnlyBelow(c: Cpu, top: nat, a: nat)
    requires top >= 40 && (a + 40 < top || a >= top)
    ensures Word(Deliver(c, top).mem, a) == Word(c.mem, a)
  {
  }

  lemma {:induction false} FrameOnly(m: map<nat, nat>, p: nat, f: Registers, a: nat)
    requires a < p || a >= p + 176
    ensures Word(WriteFrame(m, p, f), a) == Word(m, a)
  {
  }

  /** An interrupt writes only its frame and the part of the stack below it that its handler reaches. */
  lemma {:induction false} StubWritesItsStack(s: Sched, c: Cpu, env: Surroundings, a: nat)
    requires env.top >= 176 && (a >= env.top || a + 8 + env.depth <= env.top - 176)
    ensures Word(TimerInterrupt(s, c, env).1.mem, a) == Word(c.mem, a)
  {
    hide Run, Deliver, Interrupt, ENTRY, RESTORE, WriteFrame, ReadFrame, Word, IsPush, AfterCall;
    EntryCaptures(c, env.top);
    Delivered(c, env.top);
    EntryIs();
    DeliverOnlyBelow(c, env.top, a);
    PushesOnlyBelow(Deliver(c, env.top), ENTRY, a);
    var entered := Run(Deliver(c, env.top), ENTRY);
    var m := Handle(s, entered.mem, entered.rsp).1;
    FrameOnly(entered.mem, entered.rsp, Interrupt(s, ReadFrame(entered.mem, entered.rsp)).1, a);
    CallLeaves(m, entered.rsp, env.depth, env.junk, a);
    RestoreEnds(entered.(gpr := env.left, mem := AfterCall(m, entered.rsp, env.depth, env.junk)));
  }

  /* ---------- a thread's first run ---------- */

  /** The processor when an event happens, and the surroundings if the event is an interrupt. */
  datatype Moment = Moment(cpu: Cpu, env: Surroundings)

  /** The processor after the event. Other events than interrupts only change scheduler data. */
  function After(s: Sched, e: Event, m: Moment): Cpu {
    if e.Irq? then TimerInterrupt(s, m.cpu, m.env).1 else m.cpu
  }

  /** The words of the stack at `stack` are the same in both memories. */
  ghost predicate SameStack(m: map<nat, nat>, m1: map<nat, nat>, stack: nat) {
    forall a: nat :: stack <= a && a + 8 <= stack + STACK_SIZE ==> Word(m1, a) == Word(m, a)
  }

  /** The interrupt uses another stack. */
  predicate Elsewhere(env: Surroundings, stack: nat) {
    env.top >= 176 + env.depth && (env.top <= stack || stack + STACK_SIZE <= env.top - 176 - env.depth)
  }

  /** The processor over events `i` to `j` of a run: interrupts see its registers and use other stacks than `stack`, and
      the code that runs between two events does not write to `stack`. */
  ghost predicate Machine(s: Sched, events: seq<Event>, moments: seq<Moment>, i: nat, j: nat, stack: nat)
    requires j < |events| == |moments|
  {
    && (forall k :: i <= k <= j && events[k].Irq? ==>
          events[k].frame == RegistersOf(moments[k].cpu) && Elsewhere(moments[k].env, stack))
    && (forall k :: i <= k < j ==> QuietBetween(s, events, moments, k, stack))
  }

  ghost predicate QuietBetween(s: Sched, events: seq<Event>, moments: seq<Moment>, k: nat, stack: nat)
    requires k + 1 < |events| == |moments|
  {
    SameStack(After(At(s, events, k), events[k], moments[k]).mem, moments[k + 1].cpu.mem, stack)
  }

  /** The event leaves the words of the stack as they are. */
  lemma {:induction false} EventKeepsStack(s: Sched, e: Event, m: Moment, stack: nat, a: nat)
    requires e.Irq? ==> Elsewhere(m.env, stack)
    requires stack <= a && a + 8 <= stack + STACK_SIZE
    ensures Word(After(s, e, m).mem, a) == Word(m.cpu.mem, a)
  {
    hide TimerInterrupt, Word;
    if e.Irq? { StubWritesItsStack(s, m.cpu, m.env, a); }
  }

  /** From its creation to its first run a thread's stack keeps the return address. */
  lemma {:induction false} ReturnAddressKept(
    s: Sched, events: seq<Event>, moments: seq<Moment>, i: nat, j: nat, stack: nat, a: nat)
    requires i <= j < |events| == |moments| && Machine(s, events, moments, i, j, stack)
    requires stack <= a && a + 8 <= stack + STACK_SIZE
    ensures Word(moments[j].cpu.mem, a) == Word(moments[i].cpu.mem, a)
    decreases j
  {
    hide At, After, Elsewhere, Word;
    if i < j {
      ReturnAddressKept(s, events, moments, i, j - 1, stack, a);
      EventKeepsStack(At(s, events, j - 1), events[j - 1], moments[j - 1], stack, a);
      assert QuietBetween(s, events, moments, j - 1, stack);
    }
  }

  /** A created thread's first run, end to end: `thread_create` wrote the return address, and the interrupt that first
      selects the thread leaves the processor at its entry function with the return address to `thread_exit` under the
      stack pointer. */
  lemma {:induction false} CreatedThreadStarts(
    s: Sched, events: seq<Event>, moments: seq<Moment>, i: nat, j: nat, t: nat, entry: nat, exit: nat, stack: nat,
    memory: map<nat, nat>)
    requires IsRun(s, events) && i < j < |events| == |moments| && Machine(s, events, moments, i, j, stack)
    requires events[i] == AddLink(t, FirstContext(entry, EntryStack(stack)))
    requires SameStack(WithReturn(memory, stack, exit), moments[i].cpu.mem, stack)
    requires NeverCurrent(s, events, i, j, t) && At(s, events, j + 1).current == t
    ensures
      var c := After(At(s, events, j), events[j], moments[j]);
      && events[j].Irq?
      && c.rip == entry && c.cs == 0x08 && c.ss == 0x10 && c.rflags == 0x202
      && c.rsp == (stack + 4096) / 16 * 16 - 8 && Word(c.mem, c.rsp) == exit
      && forall r: Reg :: Get(c, r) == 0
  {
    hide IsRun, At, Inv, TimerInterrupt, Interrupt, RegistersOf, EntryStack;
    var sp := EntryStack(stack);
    EntryStackInside(stack);
    FirstRun(s, events, i, j, t, FirstContext(entry, sp));
    ReturnAddressKept(s, events, moments, i, j, stack, sp);
    EventKeepsStack(At(s, events, j), events[j], moments[j], stack, sp);
    StubIsTransparent(At(s, events, j), moments[j].cpu, moments[j].env);
    AtEntry(After(At(s, events, j), events[j], moments[j]), entry, stack);
  }

  lemma {:induction false} AtEntry(c: Cpu, entry: nat, stack: nat)
    requires RegistersOf(c) == FirstContext(entry, EntryStack(stack))
    ensures c.rip == entry && c.cs == 0x08 && c.ss == 0x10 && c.rflags == 0x202
    ensures c.rsp == EntryStack(stack) == (stack + 4096) / 16 * 16 - 8
    ensures forall r: Reg :: Get(c, r) == 0
  {
    forall r: Reg
      ensures Get(c, r) == 0
    {
      match r
      case Rax => case Rbx => case Rcx => case Rdx => case Rsi => case Rdi => case Rbp =>
      case R8 => case R9 => case R10 => case R11 => case R12 => case R13 => case R14 => case R15 =>
    }
  }
}
