/** The round-robin scheduler on values: one CPU register file and the saved contexts of all tasks. */
module Scheduler {
  import opened Bits
  import opened Seqs

  /** The saved registers of a task, in the order of their memory layout. */
  datatype TaskContext = TaskContext(
    r15: nat, r14: nat, r13: nat, r12: nat, r11: nat, r10: nat, r9: nat, r8: nat,
    rbp: nat, rdi: nat, rsi: nat, rdx: nat, rcx: nat, rbx: nat, rax: nat,
    rip: nat, cs: nat, rflags: nat, rsp: nat, ss: nat)

  datatype TaskState = Ready | Running | Blocked

  datatype Task = Task(id: nat, state: TaskState, context: TaskContext)

  datatype Sched = Sched(tasks: seq<Task>, current: nat, initialized: bool)

  const NEW: Sched := Sched([], 0, false)

  // ----- the scheduler's operations

  function AddTask(s: Sched, t: Task): Sched {
    s.(tasks := s.tasks + [t])
  }

  function Start(s: Sched): Sched {
    if s.tasks == [] then s
    else s.(tasks := s.tasks[0 := s.tasks[0].(state := Running)], initialized := true)
  }

  /** The next task in turn; `None` when there is no other. */
  function Schedule(s: Sched): Option<Sched>
    requires s.current < |s.tasks| || s.current == 0
  {
    if |s.tasks| < 2 then None
    else
      var ts := s.tasks[s.current := s.tasks[s.current].(state := Ready)];
      var next := (s.current + 1) % |ts|;
      Some(s.(tasks := ts[next := ts[next].(state := Running)], current := next))
  }

  /** What one timer tick does to the CPU's registers and the scheduler. */
  datatype System = System(cpu: TaskContext, sched: Sched)

  function Tick(m: System): System
    requires m.sched.current < |m.sched.tasks| || m.sched.current == 0
  {
    var s := m.sched;
    if !s.initialized then m
    else match Schedule(s)
      case None => m
      case Some(t) =>
        var saved := t.tasks[s.current := t.tasks[s.current].(context := m.cpu)];
        System(saved[t.current].context, t.(tasks := saved))
  }

  // ----- the invariant

  /** Launched: a current task exists, it is the only one running, and the others are ready. */
  ghost predicate Launched(s: Sched) {
    && s.initialized && s.current < |s.tasks|
    && forall i :: 0 <= i < |s.tasks| ==> s.tasks[i].state == if i == s.current then Running else Ready
  }

  /** The register file each task would have on a machine of its own. */
  function Files(m: System): (fs: seq<TaskContext>)
    ensures |fs| == |m.sched.tasks|
  {
    seq(|m.sched.tasks|, i requires 0 <= i < |m.sched.tasks| =>
      if i == m.sched.current then m.cpu else m.sched.tasks[i].context)
  }

  ghost predicate SameIds(ts: seq<Task>, us: seq<Task>) {
    |ts| == |us| && forall i :: 0 <= i < |ts| ==> ts[i].id == us[i].id
  }

  /** Whatever the states of the tasks: a tick changes nothing, if the scheduler is not started or has
      no other task; else it hands over to the next task in turn. No register file changes, and only
      the preempted task's saved context. */
  lemma TickExact(m: System)
    requires m.sched.current < |m.sched.tasks|
    ensures var t := Tick(m);
            var n, c := |m.sched.tasks|, m.sched.current;
            && Files(t) == Files(m) && SameIds(t.sched.tasks, m.sched.tasks) && t.sched.initialized == m.sched.initialized
            && (!m.sched.initialized || n < 2 ==> t == m)
            && (m.sched.initialized && n >= 2 ==>
                  && t.sched.current == (if c == n - 1 then 0 else c + 1)
                  && (forall i :: 0 <= i < n ==> t.sched.tasks[i].context == if i == c then m.cpu else m.sched.tasks[i].context)
                  && (forall i :: 0 <= i < n && i != c && i != t.sched.current ==> t.sched.tasks[i].state == m.sched.tasks[i].state)
                  && t.sched.tasks[c].state == Ready && t.sched.tasks[t.sched.current].state == Running)
  {
    var t := Tick(m);
    var n := |m.sched.tasks|;
    if m.sched.initialized && n >= 2 {
      NextDiffers(m.sched.current, n);
      assert forall i :: 0 <= i < n ==> Files(t)[i] == Files(m)[i];
    }
  }

  /** A tick moves to the next task in turn and leaves every task's register file as it was. */
  lemma TickIsInvisible(m: System)
    requires Launched(m.sched)
    ensures Launched(Tick(m).sched)
    ensures Files(Tick(m)) == Files(m)
    ensures |Tick(m).sched.tasks| == |m.sched.tasks|
    ensures Tick(m).sched.current == (m.sched.current + 1) % |m.sched.tasks|
  {
    hide Tick, Files;
    TickExact(m);
    NextInTurn(m.sched.current, |m.sched.tasks|);
  }

  lemma NextInTurn(c: nat, n: nat)
    requires c < n
    ensures (c + 1) % n == if c == n - 1 then 0 else c + 1
  {}

  lemma NextDiffers(c: nat, n: nat)
    requires c < n && n >= 2
    ensures (c + 1) % n != c && (c + 1) % n == if c == n - 1 then 0 else c + 1
  {}

  // ----- before launch

  /** Whatever the tasks, a tick before the scheduler is started changes nothing. */
  lemma TickBeforeStart(m: System)
    requires (m.sched.current < |m.sched.tasks| || m.sched.current == 0) && !m.sched.initialized
    ensures Tick(m) == m
  {}

  /** `start` marks the first task running and changes nothing else of any task. */
  lemma StartKeepsTasks(s: Sched)
    ensures var t := Start(s);
            && t.current == s.current && SameIds(t.tasks, s.tasks)
            && (t.initialized <==> s.initialized || s.tasks != [])
            && (forall i :: 0 <= i < |s.tasks| ==> t.tasks[i].context == s.tasks[i].context)
            && (forall i :: 0 <= i < |s.tasks| ==> t.tasks[i].state == if i == 0 then Running else s.tasks[i].state)
  {}

  /** The first `start` launches any non-empty set of ready tasks. */
  lemma StartLaunches(ts: seq<Task>)
    requires ts != [] && forall i :: 0 <= i < |ts| ==> ts[i].state == Ready
    ensures Launched(Start(Sched(ts, 0, false)))
  {}

  /** One event before launch: kernel code leaves new values in the registers, the timer ticks, or a
      task is added. */
  lemma StepBeforeStart(m: System, e: Event)
    requires m.sched.current == 0 && !m.sched.initialized
    ensures Step(m, e) == match e
                          case User(next) => System(next, m.sched)
                          case Timer => m
                          case Add(t) => System(m.cpu, Sched(m.sched.tasks + [t], 0, false))
  {
    if e.Timer? { TickBeforeStart(m); }
  }

  ghost function BeforeStart(m: System, es: seq<Event>): System
    requires m.sched.current == 0 && !m.sched.initialized
    decreases |es|
  {
    if es == [] then m else StepBeforeStart(m, es[0]); BeforeStart(Step(m, es[0]), es[1..])
  }

  ghost function AddedTasks(es: seq<Event>): seq<Task> {
    if es == [] then [] else (if es[0].Add? then [es[0].task] else []) + AddedTasks(es[1..])
  }

  ghost function LastUser(cpu: TaskContext, es: seq<Event>): TaskContext
    decreases |es|
  {
    if es == [] then cpu else LastUser(if es[0].User? then es[0].next else cpu, es[1..])
  }

  /** Before launch the tasks are those added, in order, and ticks leave no trace. */
  lemma {:induction false} TicksBeforeStartAreInvisible(m: System, es: seq<Event>)
    requires m.sched.current == 0 && !m.sched.initialized
    ensures BeforeStart(m, es) == System(LastUser(m.cpu, es), Sched(m.sched.tasks + AddedTasks(es), 0, false))
    decreases |es|
  {
    if es == [] {
      assert m.sched.tasks + [] == m.sched.tasks;
    } else {
      hide Step, AddedTasks;
      StepBeforeStart(m, es[0]);
      AppendAdded(m.sched.tasks, es);
      TicksBeforeStartAreInvisible(Step(m, es[0]), es[1..]);
    }
  }

  lemma AppendAdded(ts: seq<Task>, es: seq<Event>)
    requires es != []
    ensures ts + AddedTasks(es) == (if es[0].Add? then ts + [es[0].task] else ts) + AddedTasks(es[1..])
  {
    if es[0].Add? {
      assert ts + ([es[0].task] + AddedTasks(es[1..])) == (ts + [es[0].task]) + AddedTasks(es[1..]);
    } else {
      assert [] + AddedTasks(es[1..]) == AddedTasks(es[1..]);
    }
  }

  /** Start-up: from a new scheduler, whatever ticks come between, adding ready tasks and starting
      gives a launched scheduler with exactly those tasks in order, the first of them current. */
  lemma StartUp(cpu: TaskContext, es: seq<Event>)
    requires LegalRun(es) && exists i :: 0 <= i < |es| && es[i].Add?
    ensures var ts := AddedTasks(es);
            var s := Start(BeforeStart(System(cpu, NEW), es).sched);
            && Launched(s) && s.current == 0 && SameIds(s.tasks, ts)
            && forall i :: 0 <= i < |ts| ==> s.tasks[i].context == ts[i].context
  {
    var ts := AddedTasks(es);
    TicksBeforeStartAreInvisible(System(cpu, NEW), es);
    AddedAreReady(es);
    assert [] + ts == ts;
    StartLaunches(ts);
    StartKeepsTasks(Sched(ts, 0, false));
  }

  lemma {:induction false} AddedAreReady(es: seq<Event>)
    requires LegalRun(es)
    ensures forall i :: 0 <= i < |AddedTasks(es)| ==> AddedTasks(es)[i].state == Ready
    ensures (exists i :: 0 <= i < |es| && es[i].Add?) ==> AddedTasks(es) != []
  {
    if es == [] {
    } else {
      assert Legal(es[0]);
      AddedAreReady(es[1..]);
      if i :| 0 <= i < |es| && es[i].Add? {
        assert i > 0 ==> es[1..][i - 1] == es[i];
      }
    }
  }

  /** A repeated `start` keeps one running task if and only if the first task is current. */
  lemma RestartKeepsOneRunning(s: Sched)
    requires Launched(s)
    ensures Launched(Start(s)) <==> s.current == 0
  {
    if s.current != 0 {
      assert Start(s).tasks[0].state == Running;
    }
  }

  // ----- runs after launch

  /** User code of the current task leaves new values in the CPU's registers, the timer ticks, or a
      ready task is added. */
  datatype Event = User(next: TaskContext) | Timer | Add(task: Task)

  ghost predicate Legal(e: Event) {
    e.Add? ==> e.task.state == Ready
  }

  function Step(m: System, e: Event): System
    requires m.sched.current < |m.sched.tasks| || m.sched.current == 0
  {
    match e
    case User(next) => m.(cpu := next)
    case Timer => Tick(m)
    case Add(t) => m.(sched := AddTask(m.sched, t))
  }

  ghost predicate LegalRun(es: seq<Event>) {
    forall i :: 0 <= i < |es| ==> Legal(es[i])
  }

  ghost function Final(m: System, es: seq<Event>): (t: System)
    requires Launched(m.sched) && LegalRun(es)
    ensures Launched(t.sched) && |t.sched.tasks| >= |m.sched.tasks|
    decreases |es|
  {
    if es == [] then m else StepKeepsLaunched(m, es[0]); Final(Step(m, es[0]), es[1..])
  }

  /** Each event acts on one register file at most: a user step on the current task's, a tick on
      none, and a new task brings its own. */
  lemma StepKeepsLaunched(m: System, e: Event)
    requires Launched(m.sched) && Legal(e)
    ensures Launched(Step(m, e).sched)
    ensures Files(Step(m, e)) == match e
                                 case User(next) => Files(m)[m.sched.current := next]
                                 case Timer => Files(m)
                                 case Add(t) => Files(m) + [t.context]
    ensures e.User? ==> Step(m, e).sched == m.sched
    ensures e.Add? ==> Step(m, e).sched.tasks == m.sched.tasks + [e.task] && Step(m, e).sched.current == m.sched.current && Step(m, e).cpu == m.cpu
  {
    match e
    case User(next) =>
    case Timer => TickIsInvisible(m);
    case Add(t) =>
      assert Files(Step(m, e)) == Files(m) + [t.context];
  }

  /** What task `i` lives through: the register values it finds and leaves at each of its user steps. */
  ghost function Experience(m: System, es: seq<Event>, i: nat): seq<(TaskContext, TaskContext)>
    requires Launched(m.sched) && LegalRun(es)
    decreases |es|
  {
    if es == [] then []
    else
      StepKeepsLaunched(m, es[0]);
      (if es[0].User? && m.sched.current == i then [(m.cpu, es[0].next)] else [])
      + Experience(Step(m, es[0]), es[1..], i)
  }

  /** Every step starts from what the previous one left, the first from `start`. */
  ghost predicate Chained(start: TaskContext, xs: seq<(TaskContext, TaskContext)>)
    decreases |xs|
  {
    xs == [] || (xs[0].0 == start && Chained(xs[0].1, xs[1..]))
  }

  ghost function Last(start: TaskContext, xs: seq<(TaskContext, TaskContext)>): TaskContext {
    if xs == [] then start else xs[|xs| - 1].1
  }

  /** The contexts of the tasks added during a run, in order. */
  ghost function AddedContexts(es: seq<Event>): seq<TaskContext> {
    if es == [] then [] else (if es[0].Add? then [es[0].task.context] else []) + AddedContexts(es[1..])
  }

  /** The registers every task of a run starts from: its register file at the beginning, or the
      context it was added with. */
  ghost function Births(m: System, es: seq<Event>): seq<TaskContext> {
    Files(m) + AddedContexts(es)
  }

  lemma StepBirths(m: System, es: seq<Event>)
    requires Launched(m.sched) && LegalRun(es) && es != []
    ensures Launched(Step(m, es[0]).sched) && |Births(m, es)| >= |m.sched.tasks|
    ensures Births(Step(m, es[0]), es[1..]) ==
              if es[0].User? then Births(m, es)[m.sched.current := es[0].next] else Births(m, es)
  {
    hide Files, Step;
    StepKeepsLaunched(m, es[0]);
    AppendFiles(Files(m), AddedContexts(es[1..]), m.sched.current, es[0]);
  }

  lemma AppendFiles(fs: seq<TaskContext>, rest: seq<TaskContext>, c: nat, e: Event)
    requires c < |fs|
    ensures e.User? ==> fs[c := e.next] + rest == (fs + rest)[c := e.next]
    ensures e.Add? ==> (fs + [e.task.context]) + rest == fs + ([e.task.context] + rest)
    ensures [] + rest == rest
  {}

  /** Isolation over runs: whatever the interleaving of user code, ticks and new tasks, every task,
      there from the beginning or added later, finds at each of its steps exactly the registers it
      left at its previous one, and at its first those it was created with. */
  lemma {:induction false} TasksAreIsolated(m: System, es: seq<Event>, i: nat)
    requires Launched(m.sched) && LegalRun(es) && i < |Births(m, es)|
    ensures |Final(m, es).sched.tasks| == |Births(m, es)|
    ensures Chained(Births(m, es)[i], Experience(m, es, i))
    ensures Files(Final(m, es))[i] == Last(Births(m, es)[i], Experience(m, es, i))
    decreases |es|
  {
    hide Files;
    if es == [] {
      assert Births(m, es) == Files(m);
    } else {
      var e := es[0];
      StepKeepsLaunched(m, e);
      StepBirths(m, es);
      var t := Step(m, e);
      TasksAreIsolated(t, es[1..], i);
      var rest := Experience(t, es[1..], i);
      if e.User? && m.sched.current == i {
        assert ([(m.cpu, e.next)] + rest)[1..] == rest;
        assert Births(m, es)[i] == m.cpu by { CurrentFile(m); }
      } else {
        assert [] + rest == rest;
      }
    }
  }

  lemma CurrentFile(m: System)
    requires m.sched.current < |m.sched.tasks|
    ensures Files(m)[m.sched.current] == m.cpu
  {}

  /** After any run the CPU holds the current task's last registers, and every other task's saved
      context is exactly what it had when last preempted, or when it was created. */
  lemma SavedContextIsCurrent(m: System, es: seq<Event>, i: nat)
    requires Launched(m.sched) && LegalRun(es) && i < |Births(m, es)|
    ensures var t := Final(m, es);
            var last := Last(Births(m, es)[i], Experience(m, es, i));
            && i < |t.sched.tasks|
            && if i == t.sched.current then t.cpu == last else t.sched.tasks[i].context == last
  {
    TasksAreIsolated(m, es, i);
  }

  // ----- fairness

  ghost function Ticks(es: seq<Event>): nat {
    if es == [] then 0 else (if es[0].Timer? then 1 else 0) + Ticks(es[1..])
  }

  ghost predicate NoAdds(es: seq<Event>) {
    forall i :: 0 <= i < |es| ==> !es[i].Add?
  }

  /** With a fixed set of tasks the current one advances by the number of ticks. */
  lemma {:induction false} CurrentAfterRun(m: System, es: seq<Event>)
    requires Launched(m.sched) && NoAdds(es) && LegalRun(es)
    ensures |Final(m, es).sched.tasks| == |m.sched.tasks|
    ensures Final(m, es).sched.current == Turn(m.sched.current, |m.sched.tasks|, Ticks(es))
    decreases |es|
  {
    hide Files, Tick, SameIds, Turn;
    var n := |m.sched.tasks|;
    if es == [] {
      TurnSteps(m.sched.current, n, 0);
    } else {
      TurnSteps(m.sched.current, n, Ticks(es[1..]));
      StepKeepsLaunched(m, es[0]);
      if es[0].Timer? { TickIsInvisible(m); }
      CurrentAfterRun(Step(m, es[0]), es[1..]);
    }
  }

  lemma TurnSteps(c: nat, n: nat, k: nat)
    requires c < n
    ensures Turn(c, n, 0) == c && Turn((c + 1) % n, n, k) == Turn(c, n, k + 1)
  {
    SmallMod(c, n);
    ModThenAdd(c + 1, k, n);
  }

  lemma SmallMod(c: nat, n: nat)
    requires c < n
    ensures c % n == c
  {}

  lemma ModThenAdd(x: nat, y: nat, n: nat)
    requires n > 0
    ensures (x % n + y) % n == (x + y) % n
  {
    var z := x % n + y;
    Quotient(x, n);
    Quotient(z, n);
    Distribute(n, x / n, z / n);
    DivUnique(x + y, n, x / n + z / n, z % n);
  }

  lemma Quotient(x: nat, n: nat)
    requires n > 0
    ensures x == n * (x / n) + x % n && x % n < n
  {}

  lemma Distribute(n: nat, p: nat, q: nat)
    ensures n * (p + q) == n * p + n * q
  {}

  /** The task current after `k` more ticks. */
  function Turn(c: nat, n: nat, k: nat): nat
    requires n > 0
  {
    (c + k) % n
  }

  /** Fairness: in a turn of `n` consecutive ticks over a fixed set of `n` tasks, every task becomes
      current after exactly one of them. */
  lemma EveryTaskRunsOnce(c: nat, n: nat, i: nat)
    requires c < n && i < n
    ensures exists k: nat :: 1 <= k <= n && Turn(c, n, k) == i
    ensures forall k: nat, j: nat :: 1 <= k <= n && 1 <= j <= n && Turn(c, n, k) == i && Turn(c, n, j) == i ==> k == j
  {
    hide Turn;
    TurnIndex(c, n, if i > c then i - c else i - c + n);
    forall k: nat, j: nat | 1 <= k <= n && 1 <= j <= n && Turn(c, n, k) == i && Turn(c, n, j) == i ensures k == j {
      TurnIndex(c, n, k);
      TurnIndex(c, n, j);
    }
  }

  lemma TurnIndex(c: nat, n: nat, k: nat)
    requires c < n && 1 <= k <= n
    ensures Turn(c, n, k) == if c + k < n then c + k else c + k - n
  {
    if c + k >= n { DivUnique(c + k, n, 1, c + k - n); } else { DivUnique(c + k, n, 0, c + k); }
  }

  /** The same over runs: cut any run with `n` ticks and a fixed set of `n` tasks right after each
      tick; task `i` is current after exactly one of them. */
  lemma RoundRobinIsFair(m: System, es: seq<Event>, i: nat)
    requires Launched(m.sched) && NoAdds(es) && LegalRun(es) && i < |m.sched.tasks| && Ticks(es) == |m.sched.tasks|
    ensures exists k :: 0 <= k < |es| && RunsAfter(m, es, k, i)
    ensures forall k, j :: 0 <= k < |es| && 0 <= j < |es| && RunsAfter(m, es, k, i) && RunsAfter(m, es, j, i) ==> k == j
  {
    hide Turn, Ticks, Final;
    var n := |m.sched.tasks|;
    var c := m.sched.current;
    EveryTaskRunsOnce(c, n, i);
    var t: nat :| 1 <= t <= n && Turn(c, n, t) == i;
    var at := TickNumber(es, t);
    CurrentAfterRun(m, es[..at + 1]);
    assert RunsAfter(m, es, at, i);
    forall k, j | 0 <= k < |es| && 0 <= j < |es| && RunsAfter(m, es, k, i) && RunsAfter(m, es, j, i) ensures k == j {
      CurrentAfterRun(m, es[..k + 1]);
      CurrentAfterRun(m, es[..j + 1]);
      TicksGrow(es, k);
      TicksGrow(es, j);
      SameTick(es, k, j);
    }
  }

  /** Event `k` is a tick after which task `i` is current. */
  ghost predicate RunsAfter(m: System, es: seq<Event>, k: nat, i: nat)
    requires Launched(m.sched) && LegalRun(es) && k < |es|
  {
    es[k].Timer? && Final(m, es[..k + 1]).sched.current == i
  }

  lemma {:induction false} TicksSplit(es: seq<Event>, k: nat)
    requires k <= |es|
    ensures Ticks(es) == Ticks(es[..k]) + Ticks(es[k..])
  {
    if k == 0 {
    } else {
      TicksSplit(es[1..], k - 1);
      assert es[..k][1..] == es[1..][..k - 1] && es[1..][k - 1..] == es[k..];
    }
  }

  lemma TicksGrow(es: seq<Event>, k: nat)
    requires k < |es| && es[k].Timer?
    ensures Ticks(es[..k + 1]) == Ticks(es[..k]) + 1 <= Ticks(es)
  {
    TicksSplit(es, k + 1);
    TicksSplit(es[..k + 1], k);
    assert es[..k + 1][..k] == es[..k] && es[..k + 1][k..] == [es[k]];
    assert [es[k]][1..] == [];
  }

  lemma SameTick(es: seq<Event>, k: nat, j: nat)
    requires k < |es| && j < |es| && es[k].Timer? && es[j].Timer? && Ticks(es[..k + 1]) == Ticks(es[..j + 1])
    ensures k == j
  {
    if k < j { LaterTick(es, k, j); } else if j < k { LaterTick(es, j, k); }
  }

  lemma LaterTick(es: seq<Event>, k: nat, j: nat)
    requires k < j < |es| && es[j].Timer?
    ensures Ticks(es[..k + 1]) < Ticks(es[..j + 1])
  {
    TicksGrow(es, j);
    TicksSplit(es[..j], k + 1);
    assert es[..j][..k + 1] == es[..k + 1];
  }

  lemma {:induction false} TickNumber(es: seq<Event>, t: nat) returns (k: nat)
    requires 1 <= t <= Ticks(es)
    ensures k < |es| && es[k].Timer? && Ticks(es[..k + 1]) == t
    decreases |es|
  {
    if es[0].Timer? && t == 1 {
      k := 0;
      assert es[..1] == [es[0]] && [es[0]][1..] == [];
    } else {
      var rest := TickNumber(es[1..], if es[0].Timer? then t - 1 else t);
      k := rest + 1;
      assert es[..k + 1][1..] == es[1..][..rest + 1];
    }
  }
}
