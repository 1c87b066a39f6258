/**
 The logger always gets on: a measure that every step other than a failed poll lowers, and
 what that means for whole runs, finite and infinite.
 */
module LogProgress {
  import opened Options
  import opened SerialDevice
  import opened Framing
  import opened Mutex
  import opened LogProtocol
  import opened LogOrder
  import opened LogFifo

  // ---------------------------------------------------------------- the measure

  /** Steps left in a call that has the mutex, with `n` bytes of text left: each costs a test,
      a poll, a write, and two steps of the device; CR and LF cost a write and two steps. */
  function LoopWork(n: nat): nat {
    5 * n + 8
  }

  function CallWork(m: Text): nat {
    LoopWork(|m|) + 4
  }

  function PcWork(pc: Pc, m: Text): int {
    match pc
    case Idle => 0
    case Entered => LoopWork(|m|) + 3
    case Locking(_) => LoopWork(|m|) + 2
    case Waiting(_) => LoopWork(|m|) + 1
    case Testing(_, p) => 5 * (|m| - p) + 8
    case Polling(_, p) => 5 * (|m| - p) + 7
    case Writing(_, p) => 5 * (|m| - p) + 6
    case SendingCr => 7
    case SendingLf => 4
    case Unlocking => 1
  }

  function ProgWork(prog: seq<Text>, next: nat): nat
    decreases |prog| - next
  {
    if next >= |prog| then 0 else CallWork(prog[next]) + ProgWork(prog, next + 1)
  }

  ghost function TaskWork(task: Task): nat
    requires TaskOk(task)
  {
    ProgWork(task.prog, task.next) + if task.pc.Idle? then 0 else PcWork(task.pc, task.Current())
  }

  ghost predicate AllOk(tasks: seq<Task>) {
    forall t :: 0 <= t < |tasks| ==> TaskOk(tasks[t])
  }

  ghost function TasksWork(tasks: seq<Task>): nat
    requires AllOk(tasks)
  {
    if tasks == [] then 0
    else TasksWork(tasks[..|tasks| - 1]) + TaskWork(tasks[|tasks| - 1])
  }

  /** Everything that the tasks and the device still have to do. */
  ghost function Measure(s: System): nat
    requires Inv(s)
  {
    TasksWork(s.tasks) + s.uart.tx.Work()
  }

  lemma {:induction false} TasksWorkUpdate(tasks: seq<Task>, t: TaskId, task: Task)
    requires AllOk(tasks) && t < |tasks| && TaskOk(task)
    ensures AllOk(tasks[t := task])
    ensures TasksWork(tasks[t := task]) == TasksWork(tasks) - TaskWork(tasks[t]) + TaskWork(task)
    decreases |tasks|
  {
    hide TaskWork;
    var n := |tasks| - 1;
    if t == n {
      assert tasks[t := task][..n] == tasks[..n];
    } else {
      assert tasks[t := task][..n] == tasks[..n][t := task];
      TasksWorkUpdate(tasks[..n], t, task);
    }
  }

  /** A step that gets something done: anything but a failed poll and outside events. */
  ghost predicate Productive(s: System, a: Action) {
    Enabled(s, a) && !a.Tick? && (a.Poll? ==> s.uart.PollReady())
  }

  /** The task that takes a step has less to do afterwards; a write to the port pays for the
      two steps of the device that it causes. */
  lemma OwnTaskWork(s: System, a: Action)
    requires Inv(s) && Productive(s, a) && Inv(Next(s, a)) && !a.Drain? && !a.Release?
    ensures a.t < |s.tasks| && TaskOk(s.tasks[a.t]) && TaskOk(Next(s, a).tasks[a.t])
    ensures Next(s, a).tasks == s.tasks[a.t := Next(s, a).tasks[a.t]]
    ensures TaskWork(Next(s, a).tasks[a.t]) + (if a.Put? || a.PutCr? || a.PutLf? then 3 else 1)
         <= TaskWork(s.tasks[a.t])
  {
    hide Uart.Outb, Uart.Full, Uart.PollReady, ReleaseStep, TaskWork, Buffer;
    var task, task' := s.tasks[a.t], Next(s, a).tasks[a.t];
    assert TaskOk(task) && TaskOk(task') && LockOk(s, a.t);
    if a.Invoke? {
      InvokeWork(task, task');
    } else {
      PcLowersWork(task, task'.pc);
    }
  }

  lemma InvokeWork(task: Task, task': Task)
    requires TaskOk(task) && TaskOk(task') && task.pc.Idle? && task'.pc.Entered?
    requires task'.prog == task.prog && task'.next == task.next + 1
    ensures TaskWork(task') + 1 <= TaskWork(task)
  {
  }

  lemma PcLowersWork(task: Task, pc: Pc)
    requires TaskOk(task) && TaskOk(task.(pc := pc)) && !task.pc.Idle? && !pc.Idle?
    requires PcWork(pc, task.Current()) < PcWork(task.pc, task.Current())
    ensures TaskWork(task.(pc := pc)) - TaskWork(task)
         == PcWork(pc, task.Current()) - PcWork(task.pc, task.Current())
  {
  }

  lemma ReleaseTasks(s: System, t: TaskId)
    requires Inv(s) && Enabled(s, Release(t))
    ensures var s', tasks := Next(s, Release(t)), s.tasks[t := s.tasks[t].(pc := Idle)];
            && s'.uart == s.uart
            && if s.mutex.waiters == [] then s'.tasks == tasks
               else
                 var w := s.mutex.waiters[0];
                 && w < |s.tasks| && w != t && s.tasks[w].pc.Waiting?
                 && s'.tasks == tasks[w := s.tasks[w].(pc := Testing(s.tasks[w].pc.buf, 0))]
  {
    assert LockOk(s, t);
    ReleaseKeepsInv(s, t);
  }

  lemma ReleaseWork(s: System, t: TaskId)
    requires Inv(s) && Enabled(s, Release(t)) && Inv(Next(s, Release(t)))
    ensures TasksWork(Next(s, Release(t)).tasks) < TasksWork(s.tasks)
    ensures Next(s, Release(t)).uart == s.uart
  {
    hide ReleaseStep;
    ReleaseTasks(s, t);
    assert TaskOk(s.tasks[t]);
    var idle := s.tasks[t].(pc := Idle);
    TasksWorkUpdate(s.tasks, t, idle);
    if s.mutex.waiters != [] {
      var w := s.mutex.waiters[0];
      assert TaskOk(s.tasks[w]);
      TasksWorkUpdate(s.tasks[t := idle], w, s.tasks[w].(pc := Testing(s.tasks[w].pc.buf, 0)));
    }
  }

  lemma SendWork(s: System, b: Byte)
    requires DeviceOk(s.uart)
    ensures s.Send(b).uart.tx.Work() <= s.uart.tx.Work() + 2
  {
  }

  /** Every productive step lowers the measure; the others change nothing at all. */
  lemma StepLowersMeasure(s: System, a: Action)
    requires Inv(s) && Enabled(s, a)
    ensures Inv(Next(s, a))
    ensures Productive(s, a) ==> Measure(Next(s, a)) < Measure(s)
    ensures !Productive(s, a) ==> Next(s, a) == s
  {
    hide TaskWork, Uart.PollReady;
    InvStep(s, a);
    if Productive(s, a) {
      if a.Drain? {
        DrainStep(s.uart.tx);
        assert s.uart.tx.DrainFor(1) == s.uart.tx.Drain();
      } else if a.Release? {
        ReleaseWork(s, a.t);
      } else {
        OwnTaskWork(s, a);
        TasksWorkUpdate(s.tasks, a.t, Next(s, a).tasks[a.t]);
        if a.Put? || a.PutCr? || a.PutLf? {
          SendWork(s, Next(s, a).port[|s.port|]);
        }
      }
    }
  }

  // ---------------------------------------------------------------- no deadlock

  /** All calls have returned, the mutex is free, and everything is on the wire. */
  ghost predicate Done(s: System) {
    && (forall t :: 0 <= t < |s.tasks| ==> s.tasks[t].pc.Idle? && s.tasks[t].next == |s.tasks[t].prog|)
    && s.mutex == UNLOCKED
    && s.uart.tx.Empty()
  }

  /** The next step of a task that is not blocked. */
  function StepOf(task: Task, t: TaskId): Action {
    match task.pc
    case Idle => Invoke(t)
    case Entered => Format(t)
    case Locking(_) => Lock(t)
    case Waiting(_) => Tick
    case Testing(_, _) => Test(t)
    case Polling(_, _) => Poll(t)
    case Writing(_, _) => Put(t)
    case SendingCr => PutCr(t)
    case SendingLf => PutLf(t)
    case Unlocking => Release(t)
  }

  /** In every reachable state with work left, some productive step is enabled. */
  lemma SomethingToDo(s: System) returns (a: Action)
    requires Inv(s) && !Done(s)
    ensures Productive(s, a)
  {
    PollSeesEmpty(s.uart);
    if s.mutex.owner.Some? {
      var t := s.mutex.owner.value;
      assert LockOk(s, t) && TaskOk(s.tasks[t]);
      a := if s.tasks[t].pc.Polling? && !s.uart.tx.Empty() then Drain else StepOf(s.tasks[t], t);
    } else if t :| 0 <= t < |s.tasks| && !(s.tasks[t].pc.Idle? && s.tasks[t].next == |s.tasks[t].prog|) {
      assert LockOk(s, t) && TaskOk(s.tasks[t]);
      a := StepOf(s.tasks[t], t);
    } else {
      a := Drain;
    }
  }

  /** A run takes no more productive steps than the measure of its first state. */
  ghost function ProductiveSteps(s: System, actions: seq<Action>): nat
    requires Run(s, actions)
  {
    if actions == [] then 0
    else
      var n := |actions| - 1;
      ProductiveSteps(s, actions[..n]) + if Productive(Exec(s, actions[..n]), actions[n]) then 1 else 0
  }

  lemma {:induction false} WorkIsBounded(s: System, actions: seq<Action>)
    requires Init(s) && Run(s, actions)
    ensures Inv(s) && Inv(Exec(s, actions))
    ensures ProductiveSteps(s, actions) + Measure(Exec(s, actions)) <= Measure(s)
    decreases |actions|
  {
    InitInv(s);
    if actions != [] {
      var n := |actions| - 1;
      WorkIsBounded(s, actions[..n]);
      StepLowersMeasure(Exec(s, actions[..n]), actions[n]);
    }
  }

  /** A finished run has printed every message of every task, in program order. */
  lemma DoneMeansAllLogged(s: System, actions: seq<Action>, t: TaskId)
    requires Init(s) && Run(s, actions) && Done(Exec(s, actions)) && t < |s.tasks|
    ensures Good(Exec(s, actions))
    ensures MessagesOf(Exec(s, actions).order, Lines(Exec(s, actions)), t) == s.tasks[t].prog
  {
    var e := Exec(s, actions);
    RunGood(s, actions);
    ProgsKept(s, actions);
    ProgramOrder(Progs(e), e.order, t);
    assert Progs(e)[t] == Progs(s)[t] == s.tasks[t].prog;
    assert TaskOk(e.tasks[t]) && e.tasks[t].prog == Progs(e)[t];
    assert s.tasks[t].prog[..|s.tasks[t].prog|] == s.tasks[t].prog;
  }

  /** And if its order's backlog fits the FIFO, the wire carries exactly those lines. */
  lemma DoneMeansSent(s: System, actions: seq<Action>)
    requires Init(s) && Run(s, actions) && Done(Exec(s, actions))
    ensures Good(Exec(s, actions))
    ensures MaxBacklog(Lines(Exec(s, actions))) <= s.uart.tx.depth ==>
              Exec(s, actions).uart.tx.wire == s.uart.tx.Stream() + Render(Lines(Exec(s, actions)))
  {
    WholeLines(s, actions);
    NothingLost(s, actions);
    Fidelity(s, actions);
    assert Exec(s, actions).uart.tx.Stream() == Exec(s, actions).uart.tx.wire;
  }

  /** From every reachable state there is a way to the end. */
  lemma {:induction false} CanFinish(s: System) returns (actions: seq<Action>)
    requires Inv(s)
    ensures Run(s, actions) && Done(Exec(s, actions))
    decreases Measure(s)
  {
    if Done(s) {
      actions := [];
    } else {
      var a := SomethingToDo(s);
      var first := Take(s, [], a);
      StepLowersMeasure(s, a);
      var rest := CanFinish(Exec(s, first));
      RunConcat(s, first, rest);
      actions := first + rest;
    }
  }

  // ---------------------------------------------------------------- infinite runs

  /** An endless schedule: `sched(i)` is taken in state `states(i)`. */
  ghost predicate Endless(states: nat -> System, sched: nat -> Action) {
    forall i: nat :: Enabled(states(i), sched(i)) && states(i + 1) == Next(states(i), sched(i))
  }

  /** Weak fairness for every step: one that stays possible and useful is taken some day. */
  ghost predicate Fair(states: nat -> System, sched: nat -> Action) {
    forall i: nat, a: Action ::
      (forall j: nat :: i <= j ==> Productive(states(j), a)) ==> TakenFrom(sched, i, a)
  }

  ghost predicate TakenFrom(sched: nat -> Action, i: nat, a: Action) {
    exists j: nat :: i <= j && sched(j) == a
  }

  ghost predicate ProductiveFrom(states: nat -> System, sched: nat -> Action, i: nat) {
    exists j: nat :: i <= j && Productive(states(j), sched(j))
  }

  lemma {:induction false} EndlessPrefix(states: nat -> System, sched: nat -> Action, n: nat)
    returns (actions: seq<Action>)
    requires Init(states(0)) && Endless(states, sched)
    ensures |actions| == n && Run(states(0), actions) && Exec(states(0), actions) == states(n)
    ensures Inv(states(n))
  {
    if n == 0 {
      actions := [];
    } else {
      var first := EndlessPrefix(states, sched, n - 1);
      actions := first + [sched(n - 1)];
      RunStep(states(0), first, sched(n - 1));
      assert states(n - 1 + 1) == Next(states(n - 1), sched(n - 1));
    }
    RunInv(states(0), actions);
  }

  /** While nothing productive is done the state stands still. */
  lemma {:induction false} StandsStill(states: nat -> System, sched: nat -> Action, i: nat, j: nat)
    requires Init(states(0)) && Endless(states, sched) && i <= j
    requires forall k: nat :: i <= k < j ==> !Productive(states(k), sched(k))
    ensures states(j) == states(i)
    decreases j - i
  {
    hide Next, Enabled;
    if i < j {
      StandsStill(states, sched, i, j - 1);
      var p := EndlessPrefix(states, sched, j - 1);
      StepLowersMeasure(states(j - 1), sched(j - 1));
      assert states(j - 1 + 1) == Next(states(j - 1), sched(j - 1));
    }
  }

  lemma FairTakes(states: nat -> System, sched: nat -> Action, i: nat, a: Action)
    requires Fair(states, sched)
    requires forall j: nat :: i <= j ==> Productive(states(j), a)
    ensures ProductiveFrom(states, sched, i)
  {
    assert TakenFrom(sched, i, a);
    var j: nat :| i <= j && sched(j) == a;
    assert Productive(states(j), sched(j));
  }

  /** A fair schedule does something productive as long as there is something to do. */
  lemma FairGetsOn(states: nat -> System, sched: nat -> Action, i: nat)
    requires Init(states(0)) && Endless(states, sched) && Fair(states, sched) && !Done(states(i))
    ensures ProductiveFrom(states, sched, i)
  {
    if !ProductiveFrom(states, sched, i) {
      var p := EndlessPrefix(states, sched, i);
      var a := SomethingToDo(states(i));
      forall j: nat | i <= j ensures Productive(states(j), a) {
        StandsStill(states, sched, i, j);
      }
      FairTakes(states, sched, i, a);
    }
  }

  /** Liveness: on every fair schedule of tasks and device, every call returns, the mutex
      ends up free, and everything reaches the wire. */
  lemma {:induction false} FairRunFinishes(states: nat -> System, sched: nat -> Action, i: nat) returns (n: nat)
    requires Init(states(0)) && Endless(states, sched) && Fair(states, sched)
    requires Inv(states(i))
    ensures n >= i && Done(states(n))
    decreases Measure(states(i))
  {
    if Done(states(i)) {
      n := i;
    } else {
      FairGetsOn(states, sched, i);
      var j := FirstProductive(states, sched, i);
      var p := EndlessPrefix(states, sched, j + 1);
      StandsStill(states, sched, i, j);
      StepLowersMeasure(states(j), sched(j));
      n := FairRunFinishes(states, sched, j + 1);
    }
  }

  lemma FirstProductive(states: nat -> System, sched: nat -> Action, i: nat) returns (j: nat)
    requires ProductiveFrom(states, sched, i)
    ensures i <= j && Productive(states(j), sched(j))
    ensures forall k: nat :: i <= k < j ==> !Productive(states(k), sched(k))
  {
    var end: nat :| i <= end && Productive(states(end), sched(end));
    j := i;
    while !Productive(states(j), sched(j))
      invariant i <= j <= end
      invariant forall k: nat :: i <= k < j ==> !Productive(states(k), sched(k))
      decreases end - j
    {
      j := j + 1;
    }
  }

  /** The logger delivers: on every fair schedule there comes a moment when every message of
      every task has been logged, in program order, and, if the order that the mutex chose
      fits the FIFO, the wire carries exactly those lines and nothing else new. */
  lemma FairLoggerDelivers(states: nat -> System, sched: nat -> Action) returns (n: nat)
    requires Init(states(0)) && Endless(states, sched) && Fair(states, sched)
    ensures Done(states(n)) && Good(states(n)) && |states(n).tasks| == |states(0).tasks|
    ensures forall t :: 0 <= t < |states(0).tasks| ==>
              MessagesOf(states(n).order, Lines(states(n)), t) == states(0).tasks[t].prog
    ensures MaxBacklog(Lines(states(n))) <= states(0).uart.tx.depth ==>
              states(n).uart.tx.wire == states(0).uart.tx.Stream() + Render(Lines(states(n)))
  {
    hide Next, Enabled, Run, Exec;
    InitInv(states(0));
    n := FairRunFinishes(states, sched, 0);
    var actions := EndlessPrefix(states, sched, n);
    DoneMeansSent(states(0), actions);
    ProgsKept(states(0), actions);
    forall t | 0 <= t < |states(0).tasks|
      ensures MessagesOf(states(n).order, Lines(states(n)), t) == states(0).tasks[t].prog
    {
      DoneMeansAllLogged(states(0), actions, t);
    }
  }
}
