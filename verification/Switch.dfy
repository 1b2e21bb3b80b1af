/** The timer interrupt: registers pushed as a stack frame, the frame exchanged for another task's
    context, and the registers popped again; and the first entry into user mode. */
module Switch {
  import opened Seqs
  import opened Scheduler

  const FRAME_WORDS: nat := 20

  datatype Reg =
    | R15 | R14 | R13 | R12 | R11 | R10 | R9 | R8 | Rbp | Rdi | Rsi | Rdx | Rcx | Rbx | Rax
    | Rip | Cs | Rflags | Rsp | Ss

  function Get(c: TaskContext, r: Reg): nat {
    match r
    case R15 => c.r15 case R14 => c.r14 case R13 => c.r13 case R12 => c.r12 case R11 => c.r11
    case R10 => c.r10 case R9 => c.r9 case R8 => c.r8 case Rbp => c.rbp case Rdi => c.rdi
    case Rsi => c.rsi case Rdx => c.rdx case Rcx => c.rcx case Rbx => c.rbx case Rax => c.rax
    case Rip => c.rip case Cs => c.cs case Rflags => c.rflags case Rsp => c.rsp case Ss => c.ss
  }

  function Put(c: TaskContext, r: Reg, v: nat): (t: TaskContext)
    ensures forall q :: Get(t, q) == if q == r then v else Get(c, q)
  {
    match r
    case R15 => c.(r15 := v) case R14 => c.(r14 := v) case R13 => c.(r13 := v) case R12 => c.(r12 := v)
    case R11 => c.(r11 := v) case R10 => c.(r10 := v) case R9 => c.(r9 := v) case R8 => c.(r8 := v)
    case Rbp => c.(rbp := v) case Rdi => c.(rdi := v) case Rsi => c.(rsi := v) case Rdx => c.(rdx := v)
    case Rcx => c.(rcx := v) case Rbx => c.(rbx := v) case Rax => c.(rax := v)
    case Rip => c.(rip := v) case Cs => c.(cs := v) case Rflags => c.(rflags := v)
    case Rsp => c.(rsp := v) case Ss => c.(ss := v)
  }

  /** What the CPU pushes on an interrupt, what the entry code pushes after that, what it pops at the
      end, and what the interrupt return pops then, each in the order of the code. */
  const CPU_PUSHES: seq<Reg> := [Ss, Rsp, Rflags, Cs, Rip]
  const ENTRY_PUSHES: seq<Reg> := [Rax, Rbx, Rcx, Rdx, Rsi, Rdi, Rbp, R8, R9, R10, R11, R12, R13, R14, R15]
  const EXIT_POPS: seq<Reg> := [R15, R14, R13, R12, R11, R10, R9, R8, Rbp, Rdi, Rsi, Rdx, Rcx, Rbx, Rax]
  const IRET_POPS: seq<Reg> := [Rip, Cs, Rflags, Rsp, Ss]

  // ----- the memory layout of a saved context

  /** Lowest address first. */
  function Layout(c: TaskContext): (f: seq<nat>)
    ensures |f| == FRAME_WORDS
  {
    [c.r15, c.r14, c.r13, c.r12, c.r11, c.r10, c.r9, c.r8, c.rbp, c.rdi, c.rsi, c.rdx, c.rcx, c.rbx, c.rax,
     c.rip, c.cs, c.rflags, c.rsp, c.ss]
  }

  /** The context the handler sees at the low end of a stack. */
  function ContextAt(f: seq<nat>): TaskContext
    requires |f| >= FRAME_WORDS
  {
    TaskContext(f[0], f[1], f[2], f[3], f[4], f[5], f[6], f[7], f[8], f[9], f[10], f[11], f[12], f[13], f[14],
                f[15], f[16], f[17], f[18], f[19])
  }

  /** Reading a laid-out context back gives it unchanged, and conversely. */
  lemma LayoutRoundTrip(c: TaskContext, stack: seq<nat>)
    ensures ContextAt(Layout(c) + stack) == c
    ensures forall f: seq<nat> :: |f| == FRAME_WORDS ==> Layout(ContextAt(f)) == f
  {}

  // ----- pushing and popping

  /** A stack that grows downwards: the last register pushed is at the lowest address. */
  function Pushed(stack: seq<nat>, c: TaskContext, regs: seq<Reg>): seq<nat>
    decreases |regs|
  {
    if regs == [] then stack else Pushed([Get(c, regs[0])] + stack, c, regs[1..])
  }

  /** The registers after popping `regs` off the stack, one after the other. */
  function Popped(c: TaskContext, stack: seq<nat>, regs: seq<Reg>): TaskContext
    requires |stack| >= |regs|
    decreases |regs|
  {
    if regs == [] then c else Popped(Put(c, regs[0], stack[0]), stack[1..], regs[1..])
  }

  /** Each push lands one word below the previous one. */
  lemma {:induction false} PushedAt(stack: seq<nat>, c: TaskContext, regs: seq<Reg>)
    ensures |Pushed(stack, c, regs)| == |regs| + |stack|
    ensures forall k :: 0 <= k < |regs| ==> Pushed(stack, c, regs)[k] == Get(c, regs[|regs| - 1 - k])
    ensures Pushed(stack, c, regs)[|regs|..] == stack
    decreases |regs|
  {
    if regs == [] {
    } else {
      var below := [Get(c, regs[0])] + stack;
      PushedAt(below, c, regs[1..]);
      var after := Pushed(stack, c, regs);
      assert after[|regs| - 1..] == below;
      assert after[|regs| - 1] == below[0] && after[|regs|..] == below[1..] == stack;
    }
  }

  /** Each pop loads the next higher word; registers that are not popped keep their values. */
  lemma {:induction false} PoppedAt(c: TaskContext, stack: seq<nat>, regs: seq<Reg>)
    requires |stack| >= |regs| && NoDup(regs)
    ensures forall k :: 0 <= k < |regs| ==> Get(Popped(c, stack, regs), regs[k]) == stack[k]
    ensures forall r :: r !in regs ==> Get(Popped(c, stack, regs), r) == Get(c, r)
    decreases |regs|
  {
    hide Get;
    if regs == [] {
    } else {
      var t := Popped(c, stack, regs);
      PoppedAt(Put(c, regs[0], stack[0]), stack[1..], regs[1..]);
      assert regs[0] !in regs[1..];
      forall k | 0 <= k < |regs| ensures Get(t, regs[k]) == stack[k] {
        assert k > 0 ==> regs[k] == regs[1..][k - 1] && stack[k] == stack[1..][k - 1];
      }
    }
  }

  /** The pops undo the pushes in reverse order. */
  lemma OrdersMirror()
    ensures forall k :: 0 <= k < 15 ==> ENTRY_PUSHES[14 - k] == EXIT_POPS[k] && EXIT_POPS[k] !in IRET_POPS
    ensures forall k :: 0 <= k < 5 ==> CPU_PUSHES[4 - k] == IRET_POPS[k]
  {}

  /** The layout lists the registers in the order they are popped. */
  lemma LayoutAt(c: TaskContext)
    ensures forall k :: 0 <= k < 15 ==> Layout(c)[k] == Get(c, EXIT_POPS[k])
    ensures forall k :: 0 <= k < 5 ==> Layout(c)[15 + k] == Get(c, IRET_POPS[k])
  {}

  /** The pushes of the CPU and the entry code build exactly the layout of a saved context. */
  lemma PushesMatchLayout(stack: seq<nat>, c: TaskContext)
    ensures Pushed(Pushed(stack, c, CPU_PUSHES), c, ENTRY_PUSHES) == Layout(c) + stack
  {
    hide Pushed, Get, Layout;
    var mid := Pushed(stack, c, CPU_PUSHES);
    var full := Pushed(mid, c, ENTRY_PUSHES);
    PushedAt(stack, c, CPU_PUSHES);
    PushedAt(mid, c, ENTRY_PUSHES);
    OrdersMirror();
    LayoutAt(c);
    forall k | 0 <= k < 15 ensures full[k] == Layout(c)[k] {
      assert full[k] == Get(c, ENTRY_PUSHES[14 - k]) && ENTRY_PUSHES[14 - k] == EXIT_POPS[k];
    }
    forall k | 0 <= k < 5 ensures mid[k] == Layout(c)[15 + k] {
      assert mid[k] == Get(c, CPU_PUSHES[4 - k]) && CPU_PUSHES[4 - k] == IRET_POPS[k];
      assert Layout(c)[15 + k] == Get(c, IRET_POPS[k]);
    }
    assert full[..15] == Layout(c)[..15] && mid[..5] == Layout(c)[15..];
    assert full == full[..15] + full[15..] && mid == mid[..5] + mid[5..];
  }

  /** The pops and the interrupt return load exactly the context at the low end of the stack,
      whatever the registers held before. */
  lemma PopsMatchLayout(c: TaskContext, f: seq<nat>)
    requires |f| >= FRAME_WORDS
    ensures Popped(Popped(c, f, EXIT_POPS), f[15..], IRET_POPS) == ContextAt(f)
  {
    hide Popped, Get, Layout, ContextAt;
    var mid := Popped(c, f, EXIT_POPS);
    var t := Popped(mid, f[15..], IRET_POPS);
    DistinctPops();
    PoppedAt(c, f, EXIT_POPS);
    PoppedAt(mid, f[15..], IRET_POPS);
    OrdersMirror();
    LayoutAt(ContextAt(f));
    LayoutOfFrame(f);
    forall r ensures Get(t, r) == Get(ContextAt(f), r) {
      EveryRegister(r);
      if k :| 0 <= k < 15 && EXIT_POPS[k] == r {
        assert Get(t, EXIT_POPS[k]) == Get(mid, EXIT_POPS[k]) == f[k];
      } else {
        var k :| 0 <= k < 5 && IRET_POPS[k] == r;
        assert Get(t, IRET_POPS[k]) == f[15..][k];
      }
    }
    SameRegisters(t, ContextAt(f));
  }

  lemma DistinctPops()
    ensures NoDup(EXIT_POPS) && NoDup(IRET_POPS)
  {}

  lemma LayoutOfFrame(f: seq<nat>)
    requires |f| >= FRAME_WORDS
    ensures Layout(ContextAt(f)) == f[..FRAME_WORDS]
  {}

  lemma EveryRegister(r: Reg)
    ensures (exists k :: 0 <= k < 15 && EXIT_POPS[k] == r) || (exists k :: 0 <= k < 5 && IRET_POPS[k] == r)
  {
    assert EXIT_POPS[0] == R15 && EXIT_POPS[1] == R14 && EXIT_POPS[2] == R13 && EXIT_POPS[3] == R12 && EXIT_POPS[4] == R11;
    assert EXIT_POPS[5] == R10 && EXIT_POPS[6] == R9 && EXIT_POPS[7] == R8 && EXIT_POPS[8] == Rbp && EXIT_POPS[9] == Rdi;
    assert EXIT_POPS[10] == Rsi && EXIT_POPS[11] == Rdx && EXIT_POPS[12] == Rcx && EXIT_POPS[13] == Rbx && EXIT_POPS[14] == Rax;
    assert IRET_POPS[0] == Rip && IRET_POPS[1] == Cs && IRET_POPS[2] == Rflags && IRET_POPS[3] == Rsp && IRET_POPS[4] == Ss;
  }

  lemma SameRegisters(a: TaskContext, b: TaskContext)
    requires forall r :: Get(a, r) == Get(b, r)
    ensures a == b
  {
    assert Get(a, R15) == Get(b, R15) && Get(a, R14) == Get(b, R14) && Get(a, R13) == Get(b, R13) && Get(a, R12) == Get(b, R12);
    assert Get(a, R11) == Get(b, R11) && Get(a, R10) == Get(b, R10) && Get(a, R9) == Get(b, R9) && Get(a, R8) == Get(b, R8);
    assert Get(a, Rbp) == Get(b, Rbp) && Get(a, Rdi) == Get(b, Rdi) && Get(a, Rsi) == Get(b, Rsi) && Get(a, Rdx) == Get(b, Rdx);
    assert Get(a, Rcx) == Get(b, Rcx) && Get(a, Rbx) == Get(b, Rbx) && Get(a, Rax) == Get(b, Rax) && Get(a, Rip) == Get(b, Rip);
    assert Get(a, Cs) == Get(b, Cs) && Get(a, Rflags) == Get(b, Rflags) && Get(a, Rsp) == Get(b, Rsp) && Get(a, Ss) == Get(b, Ss);
  }

  // ----- the first entry into user mode

  /** The context of a new user task, given the two segment selectors. */
  function NewUser(entry: nat, stackTop: nat, userCode: nat, userData: nat): TaskContext {
    TaskContext(0, 0, 0, 0, 0, 0, 0, 0, 0, 0, 0, 0, 0, 0, 0, entry, WithRing3(userCode), 0x200, stackTop, WithRing3(userData))
  }

  /** `selector | 3` */
  function WithRing3(selector: nat): nat {
    selector - selector % 4 + 3
  }

  /** The fifteen general-purpose registers agree. */
  predicate SameGeneral(a: TaskContext, b: TaskContext) {
    && a.r15 == b.r15 && a.r14 == b.r14 && a.r13 == b.r13 && a.r12 == b.r12 && a.r11 == b.r11
    && a.r10 == b.r10 && a.r9 == b.r9 && a.r8 == b.r8 && a.rbp == b.rbp && a.rdi == b.rdi
    && a.rsi == b.rsi && a.rdx == b.rdx && a.rcx == b.rcx && a.rbx == b.rbx && a.rax == b.rax
  }

  /** Each word of the interrupt-return frame is pushed from a general-purpose register. */
  ghost predicate OperandsLoaded(cpu: TaskContext, c: TaskContext) {
    forall k :: 0 <= k < 5 ==> exists g :: g in EXIT_POPS && Get(cpu, g) == Get(c, IRET_POPS[k])
  }

  /** Push the frame of context `c`, then return from the interrupt with `cpu` in the registers. */
  function Launch(cpu: TaskContext, c: TaskContext): TaskContext {
    PushedAt([], c, CPU_PUSHES);
    Popped(cpu, Pushed([], c, CPU_PUSHES), IRET_POPS)
  }

  /** Launching loads the five words of the interrupt-return frame and no general-purpose register. */
  lemma LaunchLoads(cpu: TaskContext, c: TaskContext)
    ensures forall r :: Get(Launch(cpu, c), r) == if r in IRET_POPS then Get(c, r) else Get(cpu, r)
    ensures SameGeneral(Launch(cpu, c), cpu)
  {
    hide Popped, Pushed, Get;
    var f := Pushed([], c, CPU_PUSHES);
    PushedAt([], c, CPU_PUSHES);
    DistinctPops();
    PoppedAt(cpu, f, IRET_POPS);
    OrdersMirror();
    forall k | 0 <= k < 5 ensures f[k] == Get(c, IRET_POPS[k]) {
      assert f[k] == Get(c, CPU_PUSHES[4 - k]);
    }
    KeptGeneral(Launch(cpu, c), cpu);
  }

  lemma KeptGeneral(a: TaskContext, b: TaskContext)
    requires forall r :: r !in IRET_POPS ==> Get(a, r) == Get(b, r)
    ensures SameGeneral(a, b)
  {
    assert Get(a, R15) == Get(b, R15) && Get(a, R14) == Get(b, R14) && Get(a, R13) == Get(b, R13) && Get(a, R12) == Get(b, R12);
    assert Get(a, R11) == Get(b, R11) && Get(a, R10) == Get(b, R10) && Get(a, R9) == Get(b, R9) && Get(a, R8) == Get(b, R8);
    assert Get(a, Rbp) == Get(b, Rbp) && Get(a, Rdi) == Get(b, Rdi) && Get(a, Rsi) == Get(b, Rsi) && Get(a, Rdx) == Get(b, Rdx);
    assert Get(a, Rcx) == Get(b, Rcx) && Get(a, Rbx) == Get(b, Rbx) && Get(a, Rax) == Get(b, Rax);
  }

  /** The exact condition for a clean start: on the launched machine the current task's register file
      is the context it was created with if and only if the kernel left that context's values in all
      fifteen general-purpose registers. */
  lemma CleanStartExact(s: Sched, cpu: TaskContext)
    requires Launched(s)
    ensures var c := s.tasks[s.current].context;
            Files(System(Launch(cpu, c), s))[s.current] == c <==> SameGeneral(cpu, c)
  {
    hide Launch, Get;
    var c := s.tasks[s.current].context;
    LaunchLoads(cpu, c);
    FrameLoaded(Launch(cpu, c), c);
  }

  lemma FrameLoaded(a: TaskContext, c: TaskContext)
    requires forall r :: r in IRET_POPS ==> Get(a, r) == Get(c, r)
    ensures a.rip == c.rip && a.cs == c.cs && a.rflags == c.rflags && a.rsp == c.rsp && a.ss == c.ss
  {
    assert Get(a, Rip) == Get(c, Rip) && Get(a, Cs) == Get(c, Cs) && Get(a, Rflags) == Get(c, Rflags);
    assert Get(a, Rsp) == Get(c, Rsp) && Get(a, Ss) == Get(c, Ss);
  }

  /** A new user task never starts clean: its context has zeros in the general-purpose registers, but
      the non-zero selectors of its frame sit in some of them when the frame is pushed. */
  lemma NewUserNeverStartsClean(s: Sched, cpu: TaskContext, entry: nat, stackTop: nat, userCode: nat, userData: nat)
    requires Launched(s) && s.tasks[s.current].context == NewUser(entry, stackTop, userCode, userData)
    requires OperandsLoaded(cpu, s.tasks[s.current].context)
    ensures Files(System(Launch(cpu, s.tasks[s.current].context), s))[s.current] != s.tasks[s.current].context
    ensures exists g :: g in EXIT_POPS && Get(cpu, g) == WithRing3(userData) != 0
  {
    hide Launch, Files;
    var c := s.tasks[s.current].context;
    CleanStartExact(s, cpu);
    assert IRET_POPS[4] == Ss && Get(c, Ss) == WithRing3(userData) != 0;
    var g :| g in EXIT_POPS && Get(cpu, g) == Get(c, IRET_POPS[4]);
    assert Get(c, g) == 0;
  }

  class Kernel {
    var tasks: seq<Task>
    var current: nat
    var initialized: bool
    /** The registers of the CPU. */
    var cpu: TaskContext

    function Sched(): Sched
      reads this
    {
      Scheduler.Sched(tasks, current, initialized)
    }

    function View(): System
      reads this
    {
      System(cpu, Sched())
    }

    predicate InRange()
      reads this
    {
      current < |tasks| || (tasks == [] && current == 0)
    }

    constructor (cpu: TaskContext)
      ensures View() == System(cpu, NEW) && InRange()
    {
      tasks, current, initialized := [], 0, false;
      this.cpu := cpu;
    }

    method Add(task: Task)
      requires InRange()
      modifies this`tasks
      ensures InRange() && Sched() == AddTask(old(Sched()), task)
    {
      tasks := tasks + [task];
    }

    method Start()
      modifies this`tasks, this`initialized
      ensures Sched() == Scheduler.Start(old(Sched()))
    {
      if tasks != [] {
        tasks := tasks[0 := tasks[0].(state := Running)];
        initialized := true;
      }
    }

    /** Move on to the next task; returns the indices of the two contexts to exchange. */
    method ScheduleNext() returns (r: Option<(nat, nat)>)
      requires InRange()
      modifies this`tasks, this`current
      ensures InRange()
      ensures Schedule(old(Sched())).None? ==> r.None? && Sched() == old(Sched())
      ensures Schedule(old(Sched())).Some? ==>
                r == Some((old(current), current)) && old(current) < |tasks| && current < |tasks| && Sched() == Schedule(old(Sched())).value
    {
      if |tasks| < 2 {
        return None;
      }
      var previous := current;
      tasks := tasks[current := tasks[current].(state := Ready)];
      current := (current + 1) % |tasks|;
      tasks := tasks[current := tasks[current].(state := Running)];
      return Some((previous, current));
    }

    /** Exchange the frame on the stack for the context of the next task. */
    method TimerTick(frame: array<nat>)
      requires InRange() && frame.Length == FRAME_WORDS && ContextAt(frame[..]) == cpu
      modifies this`tasks, this`current, frame
      ensures InRange()
      ensures System(ContextAt(frame[..]), Sched()) == Tick(old(View()))
      ensures !initialized ==> frame[..] == old(frame[..]) && Sched() == old(Sched())
    {
      if !initialized {
        return;
      }
      var r := ScheduleNext();
      if r.Some? {
        var (from, to) := r.value;
        tasks := tasks[from := tasks[from].(context := ContextAt(frame[..]))];
        var incoming := tasks[to].context;
        forall k | 0 <= k < FRAME_WORDS {
          frame[k] := Layout(incoming)[k];
        }
        assert frame[..] == Layout(incoming);
        assert Layout(incoming) + [] == Layout(incoming);
        LayoutRoundTrip(incoming, []);
      }
    }

    /** A timer interrupt as a whole: push, tick, pop. */
    method TimerInterrupt()
      requires InRange()
      modifies this
      ensures InRange() && View() == Tick(old(View()))
      ensures !initialized ==> View() == old(View())
    {
      hide Pushed, Popped, Tick;
      if !initialized { TickBeforeStart(View()); }
      var stack := Pushed([], cpu, CPU_PUSHES);
      stack := Pushed(stack, cpu, ENTRY_PUSHES);
      PushesMatchLayout([], cpu);
      assert Layout(cpu) + [] == Layout(cpu);
      LayoutRoundTrip(cpu, []);
      var frame := new nat[FRAME_WORDS](k requires 0 <= k < FRAME_WORDS => stack[k]);
      assert frame[..] == stack;
      TimerTick(frame);
      PopsMatchLayout(cpu, frame[..]);
      cpu := Popped(cpu, frame[..], EXIT_POPS);
      cpu := Popped(cpu, frame[15..], IRET_POPS);
    }

    /** Enter user mode with the current task; without tasks the kernel panics. `before` is what the
        compiled code has in the registers when it pushes the frame. */
    method SwitchToFirstTask(before: TaskContext) returns (launched: bool)
      requires InRange() && (tasks != [] ==> OperandsLoaded(before, tasks[current].context))
      modifies this`cpu
      ensures launched <==> tasks != []
      ensures !launched ==> cpu == old(cpu)
      ensures launched ==> cpu == Launch(before, tasks[current].context)
      ensures launched ==> SameGeneral(cpu, before) && forall r :: r in IRET_POPS ==> Get(cpu, r) == Get(tasks[current].context, r)
    {
      hide Popped, Pushed;
      if tasks == [] {
        return false;
      }
      var c := tasks[current].context;
      var stack := Pushed([], c, CPU_PUSHES);
      PushedAt([], c, CPU_PUSHES);
      LaunchLoads(before, c);
      cpu := Popped(before, stack, IRET_POPS);
      return true;
    }
  }
}
