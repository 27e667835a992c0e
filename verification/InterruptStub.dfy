/** The interrupt stub (kernel/src/arch/x86_64/isr.asm) as a push and pop machine, the frame it builds
    (kernel/src/arch/x86_64/regs.h) and the handler that runs on it (kernel/src/arch/x86_64/isr.c). */
module InterruptStub {
  import opened Scheduling
  import opened SchedulerRuns

  datatype Reg = Rax | Rbx | Rcx | Rdx | Rsi | Rdi | Rbp | R8 | R9 | R10 | R11 | R12 | R13 | R14 | R15

  /** Registers and memory; memory is one word per 8-byte address. */
  datatype Cpu = Cpu(gpr: map<Reg, nat>, rip: nat, cs: nat, rflags: nat, rsp: nat, ss: nat, mem: map<nat, nat>)

  datatype Instr = Push(reg: Reg) | PushImm(value: nat) | Pop(reg: Reg) | AddRsp(bytes: nat)

  function Get(c: Cpu, r: Reg): nat {
    if r in c.gpr then c.gpr[r] else 0
  }

  function Word(mem: map<nat, nat>, a: nat): nat {
    if a in mem then mem[a] else 0
  }

  function PushWord(c: Cpu, v: nat): Cpu {
    if c.rsp < 8 then c else c.(rsp := c.rsp - 8, mem := c.mem[c.rsp - 8 := v])
  }

  function Exec(c: Cpu, i: Instr): Cpu {
    match i
    case Push(r) => PushWord(c, Get(c, r))
    case PushImm(v) => PushWord(c, v)
    case Pop(r) => c.(gpr := c.gpr[r := Word(c.mem, c.rsp)], rsp := c.rsp + 8)
    case AddRsp(n) => c.(rsp := c.rsp + n)
  }

  function Run(c: Cpu, program: seq<Instr>): Cpu
    decreases program
  {
    if program == [] then c else Run(Exec(c, program[0]), program[1..])
  }

  /** The stub of IRQ 0 and `isr_common` up to the call. */
  const ENTRY: seq<Instr> := [
    PushImm(0), PushImm(32),
    Push(Rax), Push(Rbx), Push(Rcx), Push(Rdx), Push(Rsi), Push(Rdi), Push(Rbp),
    Push(R8), Push(R9), Push(R10), Push(R11), Push(R12), Push(R13), Push(R14), Push(R15)]

  /** `isr_common` after the call, up to `iretq`. */
  const RESTORE: seq<Instr> := [
    Pop(R15), Pop(R14), Pop(R13), Pop(R12), Pop(R11), Pop(R10), Pop(R9), Pop(R8),
    Pop(Rbp), Pop(Rdi), Pop(Rsi), Pop(Rdx), Pop(Rcx), Pop(Rbx), Pop(Rax)]

  /** What the processor pushes on an interrupt, on the stack whose top it chose. */
  function Deliver(c: Cpu, top: nat): Cpu {
    PushWord(PushWord(PushWord(PushWord(PushWord(c.(rsp := top), c.ss), c.rsp), c.rflags), c.cs), c.rip)
  }

  /** `iretq`. */
  function Iretq(c: Cpu): Cpu {
    c.(rip := Word(c.mem, c.rsp), cs := Word(c.mem, c.rsp + 8), rflags := Word(c.mem, c.rsp + 16),
       rsp := Word(c.mem, c.rsp + 24), ss := Word(c.mem, c.rsp + 32))
  }

  function RegistersOf(c: Cpu): Registers {
    Registers(Get(c, R15), Get(c, R14), Get(c, R13), Get(c, R12), Get(c, R11), Get(c, R10), Get(c, R9), Get(c, R8),
              Get(c, Rbp), Get(c, Rdi), Get(c, Rsi), Get(c, Rdx), Get(c, Rcx), Get(c, Rbx), Get(c, Rax),
              c.rip, c.cs, c.rflags, c.rsp, c.ss)
  }

  /* ---------- the frame as struct registers_t ---------- */

  const VECTOR: nat := 120

  function ReadFrame(m: map<nat, nat>, p: nat): Registers {
    Registers(Word(m, p), Word(m, p + 8), Word(m, p + 16), Word(m, p + 24), Word(m, p + 32), Word(m, p + 40),
              Word(m, p + 48), Word(m, p + 56), Word(m, p + 64), Word(m, p + 72), Word(m, p + 80), Word(m, p + 88),
              Word(m, p + 96), Word(m, p + 104), Word(m, p + 112),
              Word(m, p + 136), Word(m, p + 144), Word(m, p + 152), Word(m, p + 160), Word(m, p + 168))
  }

  /** The fifteen general registers of the frame. */
  function WriteGeneral(m: map<nat, nat>, p: nat, f: Registers): map<nat, nat> {
    m[p := f.r15][p + 8 := f.r14][p + 16 := f.r13][p + 24 := f.r12][p + 32 := f.r11][p + 40 := f.r10]
     [p + 48 := f.r9][p + 56 := f.r8][p + 64 := f.rbp][p + 72 := f.rdi][p + 80 := f.rsi][p + 88 := f.rdx]
     [p + 96 := f.rcx][p + 104 := f.rbx][p + 112 := f.rax]
  }

  function WriteFrame(m: map<nat, nat>, p: nat, f: Registers): map<nat, nat> {
    WriteGeneral(m, p, f)[p + 136 := f.rip][p + 144 := f.cs][p + 152 := f.rflags][p + 160 := f.rsp][p + 168 := f.ss]
  }

  lemma {:induction false} GeneralWords(m: map<nat, nat>, p: nat, f: Registers)
    ensures
      var g := WriteGeneral(m, p, f);
      && Word(g, p) == f.r15 && Word(g, p + 8) == f.r14 && Word(g, p + 16) == f.r13 && Word(g, p + 24) == f.r12
      && Word(g, p + 32) == f.r11 && Word(g, p + 40) == f.r10 && Word(g, p + 48) == f.r9 && Word(g, p + 56) == f.r8
      && Word(g, p + 64) == f.rbp && Word(g, p + 72) == f.rdi && Word(g, p + 80) == f.rsi && Word(g, p + 88) == f.rdx
      && Word(g, p + 96) == f.rcx && Word(g, p + 104) == f.rbx && Word(g, p + 112) == f.rax
  {
  }

  lemma {:induction false} FrameRoundTrip(m: map<nat, nat>, p: nat, f: Registers)
    ensures ReadFrame(WriteFrame(m, p, f), p) == f
  {
    GeneralWords(m, p, f);
    hide WriteGeneral;
  }

  /* ---------- pushes and pops ---------- */

  function Pushed(c: Cpu, i: Instr): nat {
    match i
    case Push(r) => Get(c, r)
    case PushImm(v) => v
    case _ => 0
  }

  predicate IsPush(i: Instr) {
    i.Push? || i.PushImm?
  }

  /** Pushes leave their values in descending words and touch nothing else. */
  lemma {:induction false} RunPushes(c: Cpu, program: seq<Instr>)
    requires forall k :: 0 <= k < |program| ==> IsPush(program[k])
    requires c.rsp >= 8 * |program|
    ensures
      var d := Run(c, program);
      && d == c.(rsp := c.rsp - 8 * |program|, mem := d.mem)
      && (forall k: nat :: k < |program| ==> Word(d.mem, c.rsp - 8 * (k + 1)) == Pushed(c, program[k]))
      && (forall a: nat :: a >= c.rsp ==> Word(d.mem, a) == Word(c.mem, a))
    decreases program
  {
    if program != [] {
      var c1 := Exec(c, program[0]);
      RunPushes(c1, program[1..]);
      forall k: nat | k < |program|
        ensures Word(Run(c, program).mem, c.rsp - 8 * (k + 1)) == Pushed(c, program[k])
      {
        if k > 0 {
          assert program[1..][k - 1] == program[k] && Pushed(c1, program[k]) == Pushed(c, program[k]);
          assert Word(Run(c1, program[1..]).mem, c1.rsp - 8 * k) == Pushed(c1, program[1..][k - 1]);
        }
      }
    }
  }

  ghost predicate PopsDistinct(program: seq<Instr>) {
    && (forall k :: 0 <= k < |program| ==> program[k].Pop?)
    && (forall i, j :: 0 <= i < j < |program| ==> program[i].reg != program[j].reg)
  }

  /** Pops change no register they do not name. */
  lemma {:induction false} PopsLeave(c: Cpu, program: seq<Instr>, r: Reg)
    requires forall k :: 0 <= k < |program| ==> program[k].Pop? && program[k].reg != r
    ensures Get(Run(c, program), r) == Get(c, r)
    decreases program
  {
    if program != [] {
      assert program[0].reg != r;
      PopsLeave(Exec(c, program[0]), program[1..], r);
    }
  }

  /** Pops of different registers load them from ascending words and touch nothing else. */
  lemma {:induction false} RunPops(c: Cpu, program: seq<Instr>)
    requires PopsDistinct(program)
    ensures
      var d := Run(c, program);
      && d == c.(rsp := c.rsp + 8 * |program|, gpr := d.gpr)
      && (forall k: nat :: k < |program| ==> Get(d, program[k].reg) == Word(c.mem, c.rsp + 8 * k))
    decreases program
  {
    if program != [] {
      var c1, rest := Exec(c, program[0]), program[1..];
      assert program[0].Pop? && forall k :: 0 <= k < |rest| ==> rest[k] == program[k + 1];
      RunPops(c1, rest);
      PopsLeave(c1, rest, program[0].reg);
      forall k: nat | k < |program|
        ensures Get(Run(c, program), program[k].reg) == Word(c.mem, c.rsp + 8 * k)
      {
        if k > 0 {
          assert rest[k - 1] == program[k];
        }
      }
    }
  }

  /* ---------- the stub captures and restores all twenty registers ---------- */

  lemma {:induction false} EntryIs()
    ensures |ENTRY| == 17 && ENTRY[1] == PushImm(32) && ENTRY[2] == Push(Rax) && ENTRY[3] == Push(Rbx)
    ensures ENTRY[4] == Push(Rcx)
    ensures ENTRY[5] == Push(Rdx) && ENTRY[6] == Push(Rsi) && ENTRY[7] == Push(Rdi) && ENTRY[8] == Push(Rbp)
    ensures ENTRY[9] == Push(R8) && ENTRY[10] == Push(R9) && ENTRY[11] == Push(R10) && ENTRY[12] == Push(R11)
    ensures ENTRY[13] == Push(R12) && ENTRY[14] == Push(R13) && ENTRY[15] == Push(R14) && ENTRY[16] == Push(R15)
    ensures forall k :: 0 <= k < 17 ==> IsPush(ENTRY[k])
  {
  }

  /** The position of a register in the frame, counted in words from its start. */
  function Position(r: Reg): nat {
    match r
    case R15 => 0 case R14 => 1 case R13 => 2 case R12 => 3 case R11 => 4 case R10 => 5 case R9 => 6 case R8 => 7
    case Rbp => 8 case Rdi => 9 case Rsi => 10 case Rdx => 11 case Rcx => 12 case Rbx => 13 case Rax => 14
  }

  lemma {:induction false} RestoreDistinct()
    ensures PopsDistinct(RESTORE)
  {
    RestoreIs();
    hide RESTORE;
    assert forall k: nat :: k < 15 ==> Position(RESTORE[k].reg) == k;
  }

  lemma {:induction false} RestoreIs()
    ensures |RESTORE| == 15 && forall k :: 0 <= k < 15 ==> RESTORE[k].Pop?
    ensures RESTORE[0].reg == R15 && RESTORE[1].reg == R14 && RESTORE[2].reg == R13 && RESTORE[3].reg == R12
    ensures RESTORE[4].reg == R11 && RESTORE[5].reg == R10 && RESTORE[6].reg == R9 && RESTORE[7].reg == R8
    ensures RESTORE[8].reg == Rbp && RESTORE[9].reg == Rdi && RESTORE[10].reg == Rsi && RESTORE[11].reg == Rdx
    ensures RESTORE[12].reg == Rcx && RESTORE[13].reg == Rbx && RESTORE[14].reg == Rax
  {
  }

  lemma {:induction false} Delivered(c: Cpu, top: nat)
    requires top >= 40
    ensures
      var h := Deliver(c, top);
      && h.rsp == top - 40 && h.gpr == c.gpr
      && Word(h.mem, top - 8) == c.ss && Word(h.mem, top - 16) == c.rsp && Word(h.mem, top - 24) == c.rflags
      && Word(h.mem, top - 32) == c.cs && Word(h.mem, top - 40) == c.rip
  {
  }

  /** Word `k` of the pushes, counted from the first one. */
  lemma {:induction false} PushedAt(c: Cpu, program: seq<Instr>, k: nat)
    requires k < |program| && c.rsp >= 8 * |program| && (forall i :: 0 <= i < |program| ==> IsPush(program[i]))
    ensures Word(Run(c, program).mem, c.rsp - 8 * (k + 1)) == Pushed(c, program[k])
  {
    RunPushes(c, program);
  }

  lemma {:induction false} PoppedAt(c: Cpu, program: seq<Instr>, k: nat)
    requires k < |program| && PopsDistinct(program)
    ensures Get(Run(c, program), program[k].reg) == Word(c.mem, c.rsp + 8 * k)
  {
    RunPops(c, program);
  }

  /** Delivery and the stub's pushes build a frame that holds exactly the interrupted registers, with vector 32. */
  lemma {:induction false} EntryCaptures(c: Cpu, top: nat)
    requires top >= 176
    ensures
      var d := Run(Deliver(c, top), ENTRY);
      && d.rsp == top - 176 && ReadFrame(d.mem, d.rsp) == RegistersOf(c) && Word(d.mem, d.rsp + VECTOR) == 32
  {
    hide Run, Deliver, ENTRY, Word, IsPush;
    EntryIs();
    Delivered(c, top);
    var h := Deliver(c, top);
    var p := top - 176;
    EntryEnds(h);
    PushedAt(h, ENTRY, 16); PushedAt(h, ENTRY, 15); PushedAt(h, ENTRY, 14); PushedAt(h, ENTRY, 13);
    PushedAt(h, ENTRY, 12); PushedAt(h, ENTRY, 11); PushedAt(h, ENTRY, 10); PushedAt(h, ENTRY, 9);
    PushedAt(h, ENTRY, 8); PushedAt(h, ENTRY, 7); PushedAt(h, ENTRY, 6); PushedAt(h, ENTRY, 5);
    PushedAt(h, ENTRY, 4); PushedAt(h, ENTRY, 3); PushedAt(h, ENTRY, 2); PushedAt(h, ENTRY, 1);
  }

  lemma {:induction false} EntryEnds(h: Cpu)
    requires h.rsp >= 136
    ensures
      var d := Run(h, ENTRY);
      d.rsp == h.rsp - 136 && forall a: nat :: a >= h.rsp ==> Word(d.mem, a) == Word(h.mem, a)
  {
    hide ENTRY, IsPush;
    EntryIs();
    RunPushes(h, ENTRY);
  }

  lemma {:induction false} RestoredGeneral(c: Cpu)
    ensures
      var d := Run(c, RESTORE);
      && Get(d, R15) == Word(c.mem, c.rsp) && Get(d, R14) == Word(c.mem, c.rsp + 8)
      && Get(d, R13) == Word(c.mem, c.rsp + 16)
      && Get(d, R12) == Word(c.mem, c.rsp + 24) && Get(d, R11) == Word(c.mem, c.rsp + 32)
      && Get(d, R10) == Word(c.mem, c.rsp + 40)
      && Get(d, R9) == Word(c.mem, c.rsp + 48) && Get(d, R8) == Word(c.mem, c.rsp + 56)
      && Get(d, Rbp) == Word(c.mem, c.rsp + 64)
      && Get(d, Rdi) == Word(c.mem, c.rsp + 72) && Get(d, Rsi) == Word(c.mem, c.rsp + 80)
      && Get(d, Rdx) == Word(c.mem, c.rsp + 88)
      && Get(d, Rcx) == Word(c.mem, c.rsp + 96) && Get(d, Rbx) == Word(c.mem, c.rsp + 104)
      && Get(d, Rax) == Word(c.mem, c.rsp + 112)
  {
    hide Run, RESTORE, Word, Get, PopsDistinct;
    RestoreIs();
    RestoreDistinct();
    PoppedAt(c, RESTORE, 0); PoppedAt(c, RESTORE, 1); PoppedAt(c, RESTORE, 2); PoppedAt(c, RESTORE, 3);
    PoppedAt(c, RESTORE, 4); PoppedAt(c, RESTORE, 5); PoppedAt(c, RESTORE, 6); PoppedAt(c, RESTORE, 7);
    PoppedAt(c, RESTORE, 8); PoppedAt(c, RESTORE, 9); PoppedAt(c, RESTORE, 10); PoppedAt(c, RESTORE, 11);
    PoppedAt(c, RESTORE, 12); PoppedAt(c, RESTORE, 13); PoppedAt(c, RESTORE, 14);
  }

  /** Whatever the call left in the general registers, the pops and `iretq` load exactly the frame. */
  lemma {:induction false} ExitRestores(c: Cpu, f: Registers)
    requires ReadFrame(c.mem, c.rsp) == f
    ensures RegistersOf(Iretq(Exec(Run(c, RESTORE), AddRsp(16)))) == f
  {
    hide Run, RESTORE, Word;
    RestoreEnds(c);
    RestoredGeneral(c);
  }

  lemma {:induction false} RestoreEnds(c: Cpu)
    ensures Run(c, RESTORE).rsp == c.rsp + 120 && Run(c, RESTORE).mem == c.mem
  {
    hide RESTORE, PopsDistinct;
    RestoreIs();
    RestoreDistinct();
    RunPops(c, RESTORE);
  }

  /* ---------- the handler and the whole interrupt ---------- */

  /** The timer branch of `isr_handler`: the scheduler runs on the frame in place. Other vectors do not schedule. */
  function Handle(s: Sched, m: map<nat, nat>, p: nat): (Sched, map<nat, nat>) {
    if Word(m, p + VECTOR) == 32 then
      var (s1, out) := Interrupt(s, ReadFrame(m, p));
      (s1, WriteFrame(m, p, out))
    else (s, m)
  }

  /** What the call of `isr_handler` leaves in memory: its return address and the handler's own frames go to the stack
      below the interrupt frame at `p`. The handler reaches at most `depth` bytes down, and `junk` is what is there
      afterwards; the words of the frame and above it are not touched. */
  function AfterCall(m: map<nat, nat>, p: nat, depth: nat, junk: map<nat, nat>): map<nat, nat> {
    map a | a in m.Keys + junk.Keys :: if a < p < a + 8 + depth then Word(junk, a) else Word(m, a)
  }

  lemma {:induction false} CallLeaves(m: map<nat, nat>, p: nat, depth: nat, junk: map<nat, nat>, a: nat)
    requires a >= p || a + 8 + depth <= p
    ensures Word(AfterCall(m, p, depth, junk), a) == Word(m, a)
  {
  }

  lemma {:induction false} CallKeepsFrame(m: map<nat, nat>, p: nat, depth: nat, junk: map<nat, nat>)
    ensures ReadFrame(AfterCall(m, p, depth, junk), p) == ReadFrame(m, p)
  {
    hide AfterCall, Word;
    forall a: nat | a >= p
      ensures Word(AfterCall(m, p, depth, junk), a) == Word(m, a)
    {
      CallLeaves(m, p, depth, junk, a);
    }
  }

  /** What the surroundings of an interrupt decide: the stack the processor uses, how far below its frame the handler
      goes and what it leaves there, and what the call leaves in the general registers. */
  datatype Surroundings = Surroundings(top: nat, depth: nat, junk: map<nat, nat>, left: map<Reg, nat>)

  /** A whole timer interrupt. */
  function TimerInterrupt(s: Sched, c: Cpu, env: Surroundings): (Sched, Cpu) {
    var entered := Run(Deliver(c, env.top), ENTRY);
    var (s1, m) := Handle(s, entered.mem, entered.rsp);
    var m1 := AfterCall(m, entered.rsp, env.depth, env.junk);
    (s1, Iretq(Exec(Run(entered.(gpr := env.left, mem := m1), RESTORE), AddRsp(16))))
  }

  /** End to end, the stub is invisible: the scheduler sees the interrupted registers and the processor continues with
      the registers the scheduler chose. */
  lemma {:induction false} StubIsTransparent(s: Sched, c: Cpu, env: Surroundings)
    requires env.top >= 176
    ensures
      var (s1, c1) := TimerInterrupt(s, c, env);
      (s1, RegistersOf(c1)) == Interrupt(s, RegistersOf(c))
  {
    hide Run, Deliver, Interrupt, ReadFrame, WriteFrame, RegistersOf, AfterCall;
    EntryCaptures(c, env.top);
    var entered := Run(Deliver(c, env.top), ENTRY);
    var p := entered.rsp;
    var (s1, out) := Interrupt(s, RegistersOf(c));
    var m := WriteFrame(entered.mem, p, out);
    FrameRoundTrip(entered.mem, p, out);
    CallKeepsFrame(m, p, env.depth, env.junk);
    ExitRestores(entered.(gpr := env.left, mem := AfterCall(m, p, env.depth, env.junk)), out);
  }

  /** Context integrity, end to end: a thread interrupted with processor state `before` and resumed by a later interrupt
      continues with exactly the twenty registers it had, whatever ran in between, whatever stack the stub and the
      handler use and whatever they leave below the frame and in the registers. */
  lemma {:induction false} ThreadResumesWithItsRegisters(
    s: Sched, events: seq<Event>, i: nat, j: nat, t: nat, before: Cpu, last: Cpu, env: Surroundings)
    requires IsRun(s, events) && i < j < |events| && t != s.idle && env.top >= 176
    requires At(s, events, i).current == t && NeverCurrent(s, events, i + 1, j, t) && At(s, events, j + 1).current == t
    requires events[i] == Irq(RegistersOf(before)) && events[j] == Irq(RegistersOf(last))
    ensures
      var (s1, c1) := TimerInterrupt(At(s, events, j), last, env);
      s1 == At(s, events, j + 1) && RegistersOf(c1) == RegistersOf(before)
  {
    hide IsRun, At, Inv, TimerInterrupt, RegistersOf, Interrupt;
    ContextIntegrity(s, events, i, j, t);
    StubIsTransparent(At(s, events, j), last, env);
    RunStep(s, events, j);
  }
}
