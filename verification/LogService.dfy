/**
 The logger as a service that never ends: messages keep coming while the tasks run. Every
 call returns, every message is logged, and all that was proved of finite programs carries
 over.
 */
module LogService {
  import opened Options
  import opened SerialDevice
  import opened Framing
  import opened Mutex
  import opened LogProtocol
  import opened LogOrder
  import opened LogFifo
  import opened LogProgress

  // ---------------------------------------------------------------- steps

  /** A step of the protocol, or one more message for a task to log. */
  datatype OpenStep = Act(a: Action) | Supply(t: TaskId, m: Text)

  function Supplied(s: System, t: TaskId, m: Text): System
    requires t < |s.tasks|
  {
    s.(tasks := s.tasks[t := s.tasks[t].(prog := s.tasks[t].prog + [m])])
  }

  predicate Possible(s: System, x: OpenStep) {
    match x
    case Act(a) => Enabled(s, a)
    case Supply(t, _) => t < |s.tasks|
  }

  function After(s: System, x: OpenStep): System
    requires Possible(s, x)
  {
    match x
    case Act(a) => Next(s, a)
    case Supply(t, m) => Supplied(s, t, m)
  }

  lemma SuppliedInv(s: System, t: TaskId, m: Text)
    requires Inv(s) && t < |s.tasks|
    ensures Inv(Supplied(s, t, m))
  {
    var task := s.tasks[t];
    assert TaskOk(task) && LockOk(s, t);
    var task' := task.(prog := task.prog + [m]);
    assert task.next > 0 ==> task'.prog[task.next - 1] == task.prog[task.next - 1];
    MoveKeepsInv(s, t, task');
  }

  lemma AfterInv(s: System, x: OpenStep)
    requires Inv(s) && Possible(s, x)
    ensures Inv(After(s, x))
  {
    hide Next, Enabled;
    match x
    case Act(a) => InvStep(s, a);
    case Supply(t, m) => SuppliedInv(s, t, m);
  }

  // ---------------------------------------------------------------- what a call waits for

  function IndexOf(ws: seq<TaskId>, t: TaskId): nat
    requires t in ws
  {
    if ws[0] == t then 0 else IndexOf(ws[1..], t) + 1
  }

  lemma {:induction false} IndexOfAppend(ws: seq<TaskId>, u: TaskId, t: TaskId)
    requires t in ws
    ensures IndexOf(ws + [u], t) == IndexOf(ws, t)
    decreases |ws|
  {
    if ws[0] != t {
      assert (ws + [u])[1..] == ws[1..] + [u];
      IndexOfAppend(ws[1..], u, t);
    }
  }

  predicate Busy(s: System, t: TaskId) {
    t < |s.tasks| && !s.tasks[t].pc.Idle?
  }

  /** How far a call is from its end: the steps before `mutex_lock`, the tasks that are
      served first, and what the owner and the device have left to do. */
  datatype Rank = Rank(phase: nat, ahead: nat, work: nat) {

    predicate Below(r: Rank) {
      phase < r.phase || (phase == r.phase && (ahead < r.ahead || (ahead == r.ahead && work < r.work)))
    }
  }

  function Phase(pc: Pc): nat {
    match pc
    case Entered => 2
    case Locking(_) => 1
    case _ => 0
  }

  function Ahead(m: MutexState, t: TaskId): nat {
    if t in m.waiters then IndexOf(m.waiters, t) + 1 else 0
  }

  ghost function OwnerWork(s: System): nat
    requires Inv(s)
  {
    match s.mutex.owner
    case None => 0
    case Some(o) =>
      assert LockOk(s, o) && TaskOk(s.tasks[o]);
      PcWork(s.tasks[o].pc, s.tasks[o].Current()) + s.uart.tx.Work()
  }

  ghost function RankOf(s: System, t: TaskId): Rank
    requires Inv(s) && Busy(s, t)
  {
    if Phase(s.tasks[t].pc) > 0 then Rank(Phase(s.tasks[t].pc), 0, 0)
    else Rank(0, Ahead(s.mutex, t), OwnerWork(s))
  }

  function OwnersStep(s: System): Action {
    if s.mutex.owner.Some? && s.mutex.owner.value < |s.tasks| then
      var task := s.tasks[s.mutex.owner.value];
      if task.pc.Polling? && !s.uart.tx.Empty() then Drain else StepOf(task, s.mutex.owner.value)
    else Tick
  }

  /** The step that the call of `t` is waiting for. */
  function Relevant(s: System, t: TaskId): Action
    requires Busy(s, t)
  {
    if Phase(s.tasks[t].pc) > 0 then StepOf(s.tasks[t], t) else OwnersStep(s)
  }

  lemma HasOwner(s: System, t: TaskId)
    requires Inv(s) && Busy(s, t) && Phase(s.tasks[t].pc) == 0
    ensures s.mutex.owner.Some? && s.mutex.owner.value < |s.tasks| && s.mutex.count == 1
    ensures s.tasks[s.mutex.owner.value].Critical() && TaskOk(s.tasks[s.mutex.owner.value])
    ensures s.mutex.owner == Some(t) || (s.tasks[t].pc.Waiting? && t in s.mutex.waiters)
  {
    assert LockOk(s, t);
    assert LockOk(s, s.mutex.owner.value);
  }

  lemma RelevantIsProductive(s: System, t: TaskId)
    requires Inv(s) && Busy(s, t)
    ensures Productive(s, Relevant(s, t))
  {
    assert TaskOk(s.tasks[t]);
    if Phase(s.tasks[t].pc) == 0 {
      HasOwner(s, t);
      PollSeesEmpty(s.uart);
    }
  }

  /** The call goes on, in step `x`, exactly as far from its end as before. */
  ghost predicate Steady(s: System, x: OpenStep, t: TaskId)
    requires Inv(s) && Possible(s, x) && Busy(s, t)
  {
    var s' := After(s, x);
    && Inv(s') && Busy(s', t) && s'.tasks[t].next == s.tasks[t].next
    && RankOf(s', t) == RankOf(s, t) && Relevant(s', t) == Relevant(s, t) && x != Act(Relevant(s, t))
  }

  ghost predicate Closer(s: System, x: OpenStep, t: TaskId)
    requires Inv(s) && Possible(s, x) && Busy(s, t)
  {
    var s' := After(s, x);
    && Inv(s') && Busy(s', t) && s'.tasks[t].next == s.tasks[t].next
    && RankOf(s', t).Below(RankOf(s, t))
  }

  // ---------------------------------------------------------------- one step

  lemma SupplyIsSteady(s: System, u: TaskId, m: Text, t: TaskId)
    requires Inv(s) && u < |s.tasks| && Busy(s, t)
    ensures Steady(s, Supply(u, m), t)
  {
    SuppliedInv(s, u, m);
    assert TaskOk(s.tasks[u]);
    if s.mutex.owner.Some? {
      assert LockOk(s, s.mutex.owner.value) && TaskOk(s.tasks[s.mutex.owner.value]);
    }
  }

  /** Steps of one task outside the critical section that do not take the mutex. */
  lemma LockStepFrame(s: System, u: TaskId)
    requires Inv(s) && Enabled(s, Lock(u))
    ensures var s' := Next(s, Lock(u));
            && s'.tasks == s.tasks[u := s'.tasks[u]] && s'.uart == s.uart
            && s'.tasks[u].next == s.tasks[u].next && Busy(s', u) && Phase(s'.tasks[u].pc) == 0
            && (!s.mutex.Free() ==> s'.mutex == s.mutex.(waiters := s.mutex.waiters + [u]))
  {
    assert LockOk(s, u);
  }

  lemma OtherStepFrame(s: System, a: Action)
    requires Enabled(s, a) && !a.Lock? && !a.Release? && !a.Tick? && !a.Drain?
    ensures a.t < |s.tasks|
    ensures Next(s, a).tasks == s.tasks[a.t := Next(s, a).tasks[a.t]] && Next(s, a).mutex == s.mutex
    ensures a.Invoke? || a.Format? ==> Next(s, a).uart == s.uart
    ensures !a.Invoke? ==> Next(s, a).tasks[a.t].next == s.tasks[a.t].next
    ensures Next(s, a).tasks[a.t].prog == s.tasks[a.t].prog
  {
    hide Uart.Outb, Uart.PollReady, Uart.Full;
  }

  /** A task that does not wait is changed by its own steps only. */
  lemma OthersLeaveAlone(s: System, a: Action, t: TaskId)
    requires Inv(s) && Enabled(s, a) && t < |s.tasks| && !s.tasks[t].pc.Waiting?
    requires a.Tick? || a.Drain? || a.t != t
    ensures |Next(s, a).tasks| == |s.tasks| && Next(s, a).tasks[t] == s.tasks[t]
  {
    if a.Release? {
      ReleaseTasks(s, a.t);
    } else if a.Lock? {
      LockStepFrame(s, a.t);
    } else if !a.Tick? && !a.Drain? {
      OtherStepFrame(s, a);
    }
  }

  /** Before `mutex_lock` nobody else has any influence on the call. */
  lemma EarlyStep(s: System, a: Action, t: TaskId)
    requires Inv(s) && Enabled(s, a) && Busy(s, t) && Phase(s.tasks[t].pc) > 0
    ensures Steady(s, Act(a), t) || Closer(s, Act(a), t)
  {
    hide Inv;
    InvStep(s, a);
    if a.Tick? || a.Drain? || a.t != t {
      OthersLeaveAlone(s, a, t);
    } else if a.Lock? {
      LockStepFrame(s, t);
    }
  }

  lemma DrainIsCloser(s: System, t: TaskId)
    requires Inv(s) && Enabled(s, Drain) && Busy(s, t) && Phase(s.tasks[t].pc) == 0
    ensures Closer(s, Act(Drain), t)
  {
    InvStep(s, Drain);
    HasOwner(s, t);
    DrainStep(s.uart.tx);
    assert s.uart.tx.DrainFor(1) == s.uart.tx.Drain();
  }

  /** What a task of the same call has left to do, without the calls to come. */
  lemma WorkOfCall(task: Task, task': Task)
    requires TaskOk(task) && TaskOk(task') && task.prog == task'.prog && task.next == task'.next
    requires !task.pc.Idle? && !task'.pc.Idle?
    ensures TaskWork(task) - TaskWork(task') == PcWork(task.pc, task.Current()) - PcWork(task'.pc, task.Current())
  {
  }

  lemma OwnerKeepsMutex(s: System, a: Action)
    requires Inv(s) && Productive(s, a) && !a.Tick? && !a.Drain? && !a.Release? && s.mutex.owner == Some(a.t)
    ensures Inv(Next(s, a)) && Next(s, a).mutex == s.mutex && OwnerWork(Next(s, a)) < OwnerWork(s)
    ensures Next(s, a).tasks == s.tasks[a.t := Next(s, a).tasks[a.t]]
    ensures Next(s, a).tasks[a.t].Critical() && Next(s, a).tasks[a.t].next == s.tasks[a.t].next
  {
    hide TaskWork, PcWork, Uart.Outb, Uart.PollReady, Uart.Full;
    InvStep(s, a);
    assert LockOk(s, a.t) && TaskOk(s.tasks[a.t]);
    OtherStepFrame(s, a);
    assert LockOk(Next(s, a), a.t) && TaskOk(Next(s, a).tasks[a.t]);
    OwnTaskWork(s, a);
    WorkOfCall(s.tasks[a.t], Next(s, a).tasks[a.t]);
    if a.Put? || a.PutCr? || a.PutLf? {
      SendWork(s, Next(s, a).port[|s.port|]);
    }
  }

  /** The owner's steps other than the last. */
  lemma OwnerStep(s: System, a: Action, t: TaskId)
    requires Inv(s) && Enabled(s, a) && Busy(s, t) && Phase(s.tasks[t].pc) == 0
    requires !a.Drain? && !a.Tick? && s.mutex.owner == Some(a.t) && !a.Release?
    ensures Steady(s, Act(a), t) || Closer(s, Act(a), t)
  {
    hide Next, Enabled, OwnerWork;
    StepLowersMeasure(s, a);
    HasOwner(s, t);
    if Productive(s, a) {
      OwnerKeepsMutex(s, a);
    } else {
      RelevantIsProductive(s, t);
    }
  }

  /** The owner hands the mutex over. */
  lemma HandOverStep(s: System, o: TaskId, t: TaskId)
    requires Inv(s) && Enabled(s, Release(o)) && Busy(s, t) && Phase(s.tasks[t].pc) == 0 && t != o
    ensures Closer(s, Act(Release(o)), t)
  {
    InvStep(s, Release(o));
    assert LockOk(s, o);
    HasOwner(s, t);
    ReleaseTasks(s, o);
    ReleaseMutex(s, o);
  }

  lemma ReleaseMutex(s: System, o: TaskId)
    requires Inv(s) && Enabled(s, Release(o)) && s.mutex.waiters != []
    ensures Next(s, Release(o)).mutex.waiters == s.mutex.waiters[1..]
  {
    assert LockOk(s, o);
  }

  /** What a call waits for depends only on its own task, the owner's, the waiting list up to
      its own place, and the device. */
  lemma SameForCall(s: System, a: Action, t: TaskId)
    requires Inv(s) && Enabled(s, a) && Inv(Next(s, a)) && Busy(s, t) && Phase(s.tasks[t].pc) == 0
    requires var s' := Next(s, a);
             && |s'.tasks| == |s.tasks| && s'.tasks[t] == s.tasks[t] && s'.uart == s.uart
             && s'.mutex.owner == s.mutex.owner && s.mutex.owner.Some? && s.mutex.owner.value < |s.tasks|
             && s'.tasks[s.mutex.owner.value] == s.tasks[s.mutex.owner.value]
             && Ahead(s'.mutex, t) == Ahead(s.mutex, t)
    requires a != OwnersStep(s)
    ensures Steady(s, Act(a), t)
  {
    hide Next, Enabled, Ahead;
    assert LockOk(s, s.mutex.owner.value) && TaskOk(s.tasks[s.mutex.owner.value]);
  }

  lemma LockAhead(m: MutexState, u: TaskId, t: TaskId)
    requires t != u
    ensures Ahead(m.(waiters := m.waiters + [u]), t) == Ahead(m, t)
  {
    if t in m.waiters {
      IndexOfAppend(m.waiters, u, t);
    }
  }

  /** Steps of tasks outside the critical section. */
  lemma OutsideStep(s: System, a: Action, t: TaskId)
    requires Inv(s) && Enabled(s, a) && Busy(s, t) && Phase(s.tasks[t].pc) == 0
    requires a.Invoke? || a.Format? || a.Lock?
    ensures Steady(s, Act(a), t)
  {
    hide Ahead, Steady, LockStep, ReleaseStep, Uart.Outb, Uart.PollReady, Uart.Full;
    InvStep(s, a);
    HasOwner(s, t);
    var o := s.mutex.owner.value;
    assert LockOk(s, a.t);
    OthersLeaveAlone(s, a, o);
    if a.Lock? {
      LockStepFrame(s, a.t);
      LockAhead(s.mutex, a.t, t);
    } else {
      OtherStepFrame(s, a);
    }
    SameForCall(s, a, t);
  }

  /** Every step ends the call, brings it closer to its end, or changes nothing for it. */
  lemma ServiceStep(s: System, x: OpenStep, t: TaskId)
    requires Inv(s) && Possible(s, x) && Busy(s, t)
    ensures x == Act(Release(t)) || Steady(s, x, t) || Closer(s, x, t)
  {
    hide Next, Steady, Closer;
    match x
    case Supply(u, m) => SupplyIsSteady(s, u, m, t);
    case Act(a) =>
      if Phase(s.tasks[t].pc) > 0 {
        EarlyStep(s, a, t);
      } else if a.Tick? {
        TickIsSteady(s, t);
      } else if a.Invoke? || a.Format? || a.Lock? {
        OutsideStep(s, a, t);
      } else if a.Drain? {
        DrainIsCloser(s, t);
      } else {
        assert LockOk(s, a.t);
        if !a.Release? {
          OwnerStep(s, a, t);
        } else if a.t != t {
          HandOverStep(s, a.t, t);
        }
      }
  }

  lemma TickIsSteady(s: System, t: TaskId)
    requires Inv(s) && Busy(s, t)
    ensures Steady(s, Act(Tick), t)
  {
    RelevantIsProductive(s, t);
  }

  // ---------------------------------------------------------------- endless runs

  ghost predicate OpenRun(states: nat -> System, sched: nat -> OpenStep) {
    forall i: nat :: Possible(states(i), sched(i)) && states(i + 1) == After(states(i), sched(i))
  }

  /** Weak fairness for the steps of the protocol; messages come when they like. */
  ghost predicate OpenFair(states: nat -> System, sched: nat -> OpenStep) {
    forall i: nat, a: Action ::
      (forall j: nat :: i <= j ==> Productive(states(j), a)) ==> TakenAfter(sched, i, a)
  }

  ghost predicate TakenAfter(sched: nat -> OpenStep, i: nat, a: Action) {
    exists j: nat :: i <= j && sched(j) == Act(a)
  }

  lemma {:induction false} OpenInv(states: nat -> System, sched: nat -> OpenStep, i: nat)
    requires Init(states(0)) && OpenRun(states, sched)
    ensures Inv(states(i))
  {
    hide After, Possible;
    if i == 0 {
      InitInv(states(0));
    } else {
      OpenInv(states, sched, i - 1);
      AfterInv(states(i - 1), sched(i - 1));
      assert states(i - 1 + 1) == After(states(i - 1), sched(i - 1));
    }
  }

  ghost predicate SteadyAt(states: nat -> System, sched: nat -> OpenStep, t: TaskId, i: nat) {
    && Inv(states(i)) && Possible(states(i), sched(i)) && Busy(states(i), t)
    && Steady(states(i), sched(i), t)
  }

  /** As long as its steps are steady, a call waits for one and the same step. */
  lemma {:induction false} WaitsForSame(states: nat -> System, sched: nat -> OpenStep, t: TaskId, i: nat, j: nat)
    requires Init(states(0)) && OpenRun(states, sched) && Busy(states(i), t) && i <= j
    requires forall k: nat :: i <= k < j ==> SteadyAt(states, sched, t, k)
    ensures Inv(states(i)) && Inv(states(j)) && Busy(states(j), t)
    ensures states(j).tasks[t].next == states(i).tasks[t].next
    ensures RankOf(states(j), t) == RankOf(states(i), t) && Relevant(states(j), t) == Relevant(states(i), t)
    decreases j - i
  {
    hide After, Possible, Busy, RankOf, Relevant;
    OpenInv(states, sched, i);
    OpenInv(states, sched, j);
    if i < j {
      WaitsForSame(states, sched, t, i, j - 1);
      assert SteadyAt(states, sched, t, j - 1);
      assert states(j - 1 + 1) == After(states(j - 1), sched(j - 1));
    }
  }

  ghost predicate MovesAfter(states: nat -> System, sched: nat -> OpenStep, t: TaskId, i: nat) {
    exists j: nat :: i <= j && !SteadyAt(states, sched, t, j)
  }

  lemma NotSteady(states: nat -> System, sched: nat -> OpenStep, t: TaskId, i: nat, j: nat)
    requires Init(states(0)) && OpenRun(states, sched) && Busy(states(i), t) && i <= j
    requires sched(j) == Act(Relevant(states(i), t))
    ensures MovesAfter(states, sched, t, i)
  {
    hide After, Possible, Busy, RankOf, Relevant;
    if forall k: nat :: i <= k < j ==> SteadyAt(states, sched, t, k) {
      WaitsForSame(states, sched, t, i, j);
      assert !SteadyAt(states, sched, t, j);
    }
  }

  /** Fairness brings the step that a call waits for. */
  lemma CallMoves(states: nat -> System, sched: nat -> OpenStep, t: TaskId, i: nat)
    requires Init(states(0)) && OpenRun(states, sched) && OpenFair(states, sched) && Busy(states(i), t)
    ensures MovesAfter(states, sched, t, i)
  {
    hide After, Possible, Busy, RankOf, Relevant, Productive;
    if !MovesAfter(states, sched, t, i) {
      var a := Relevant(states(i), t);
      forall j: nat | i <= j ensures Productive(states(j), a) {
        WaitsForSame(states, sched, t, i, j);
        RelevantIsProductive(states(j), t);
      }
      assert TakenAfter(sched, i, a);
      var j: nat :| i <= j && sched(j) == Act(a);
      NotSteady(states, sched, t, i, j);
    }
  }

  lemma FirstMove(states: nat -> System, sched: nat -> OpenStep, t: TaskId, i: nat) returns (j: nat)
    requires MovesAfter(states, sched, t, i)
    ensures i <= j && !SteadyAt(states, sched, t, j)
    ensures forall k: nat :: i <= k < j ==> SteadyAt(states, sched, t, k)
  {
    hide SteadyAt;
    var end: nat :| i <= end && !SteadyAt(states, sched, t, end);
    j := i;
    while SteadyAt(states, sched, t, j)
      invariant i <= j <= end
      invariant forall k: nat :: i <= k < j ==> SteadyAt(states, sched, t, k)
      decreases end - j
    {
      j := j + 1;
    }
  }

  /** Every call returns, however many messages the other tasks still log. */
  lemma {:induction false} CallReturns(states: nat -> System, sched: nat -> OpenStep, t: TaskId, i: nat) returns (j: nat)
    requires Init(states(0)) && OpenRun(states, sched) && OpenFair(states, sched)
    requires Inv(states(i)) && Busy(states(i), t)
    ensures i <= j && sched(j) == Act(Release(t))
    ensures t < |states(j).tasks| && states(j).tasks[t].next == states(i).tasks[t].next
    decreases RankOf(states(i), t).phase, RankOf(states(i), t).ahead, RankOf(states(i), t).work
  {
    hide After, Possible, RankOf, Relevant, Steady;
    CallMoves(states, sched, t, i);
    j := FirstMove(states, sched, t, i);
    WaitsForSame(states, sched, t, i, j);
    ServiceStep(states(j), sched(j), t);
    if sched(j) != Act(Release(t)) {
      assert Closer(states(j), sched(j), t);
      assert states(j + 1) == After(states(j), sched(j));
      j := CallReturns(states, sched, t, j + 1);
    }
  }

  // ---------------------------------------------------------------- every message

  /** A task outside `log_printf` stays there until it starts its next call. */
  lemma IdleStays(s: System, x: OpenStep, t: TaskId)
    requires Inv(s) && Possible(s, x) && t < |s.tasks| && s.tasks[t].pc.Idle? && x != Act(Invoke(t))
    ensures var s' := After(s, x);
            && |s'.tasks| == |s.tasks| && s'.tasks[t].pc.Idle? && s'.tasks[t].next == s.tasks[t].next
            && s.tasks[t].prog <= s'.tasks[t].prog
  {
    if x.Act? {
      OthersLeaveAlone(s, x.a, t);
    }
  }

  lemma ProgramsGrowStep(s: System, x: OpenStep, t: TaskId)
    requires Inv(s) && Possible(s, x) && t < |s.tasks|
    ensures |After(s, x).tasks| == |s.tasks| && s.tasks[t].prog <= After(s, x).tasks[t].prog
  {
    hide Next, Enabled;
    if x.Act? {
      TakenStep(s, x.a, t);
    }
  }

  lemma {:induction false} ProgramsGrow(states: nat -> System, sched: nat -> OpenStep, t: TaskId, i: nat, j: nat)
    requires Init(states(0)) && OpenRun(states, sched) && i <= j && t < |states(i).tasks|
    ensures |states(j).tasks| == |states(i).tasks| && states(i).tasks[t].prog <= states(j).tasks[t].prog
    decreases j - i
  {
    hide After, Possible;
    if i < j {
      ProgramsGrow(states, sched, t, i, j - 1);
      OpenInv(states, sched, j - 1);
      ProgramsGrowStep(states(j - 1), sched(j - 1), t);
      assert states(j - 1 + 1) == After(states(j - 1), sched(j - 1));
    }
  }

  ghost predicate Resting(s: System, t: TaskId, next: nat) {
    t < |s.tasks| && s.tasks[t].pc.Idle? && s.tasks[t].next == next && next < |s.tasks[t].prog|
  }

  lemma {:induction false} RestsUntil(states: nat -> System, sched: nat -> OpenStep, t: TaskId, next: nat, i: nat, j: nat)
    requires Init(states(0)) && OpenRun(states, sched) && i <= j && Resting(states(i), t, next)
    requires forall k: nat :: i <= k < j ==> sched(k) != Act(Invoke(t))
    ensures Resting(states(j), t, next)
    decreases j - i
  {
    hide After, Possible;
    if i < j {
      RestsUntil(states, sched, t, next, i, j - 1);
      OpenInv(states, sched, j - 1);
      IdleStays(states(j - 1), sched(j - 1), t);
      assert states(j - 1 + 1) == After(states(j - 1), sched(j - 1));
    }
  }

  /** A task with something to log starts its next call. */
  lemma CallStarts(states: nat -> System, sched: nat -> OpenStep, t: TaskId, next: nat, i: nat) returns (j: nat)
    requires Init(states(0)) && OpenRun(states, sched) && OpenFair(states, sched)
    requires Resting(states(i), t, next)
    ensures i <= j && sched(j) == Act(Invoke(t)) && Resting(states(j), t, next)
  {
    hide After, Possible;
    var a := Invoke(t);
    if !TakenAfter(sched, i, a) {
      forall j: nat | i <= j ensures Productive(states(j), a) {
        RestsUntil(states, sched, t, next, i, j);
      }
    }
    j := i;
    var end: nat :| i <= end && sched(end) == Act(a);
    while sched(j) != Act(a)
      invariant i <= j <= end
      invariant forall k: nat :: i <= k < j ==> sched(k) != Act(a)
      decreases end - j
    {
      j := j + 1;
    }
    RestsUntil(states, sched, t, next, i, j);
  }

  lemma ReturnedNext(s: System, t: TaskId)
    requires Inv(s) && Enabled(s, Release(t))
    ensures |Next(s, Release(t)).tasks| == |s.tasks|
    ensures Next(s, Release(t)).tasks[t] == s.tasks[t].(pc := Idle)
  {
    ReleaseTasks(s, t);
  }

  /** Sooner or later the task is outside `log_printf` again, with the call it was in done. */
  lemma ComesToRest(states: nat -> System, sched: nat -> OpenStep, t: TaskId, i: nat) returns (j: nat)
    requires Init(states(0)) && OpenRun(states, sched) && OpenFair(states, sched) && t < |states(i).tasks|
    ensures i <= j && |states(j).tasks| == |states(i).tasks| && states(j).tasks[t].pc.Idle?
    ensures states(j).tasks[t].next == states(i).tasks[t].next
  {
    j := i;
    if !states(i).tasks[t].pc.Idle? {
      hide Next, Enabled;
      OpenInv(states, sched, i);
      var k := CallReturns(states, sched, t, i);
      OpenInv(states, sched, k);
      assert states(k + 1) == After(states(k), sched(k));
      ReturnedNext(states(k), t);
      ProgramsGrow(states, sched, t, i, k);
      j := k + 1;
    }
  }

  /** Every message that a task is ever given to log is logged: its call returns. */
  lemma {:induction false} MessageReturns(states: nat -> System, sched: nat -> OpenStep, t: TaskId, k: nat, i: nat)
    returns (j: nat)
    requires Init(states(0)) && OpenRun(states, sched) && OpenFair(states, sched)
    requires t < |states(i).tasks| && k < |states(i).tasks[t].prog|
    ensures i <= j && t < |states(j).tasks| && states(j).tasks[t].pc.Idle? && k < states(j).tasks[t].next
    decreases k + 1 - states(i).tasks[t].next
  {
    j := ComesToRest(states, sched, t, i);
    if states(j).tasks[t].next <= k {
      ProgramsGrow(states, sched, t, i, j);
      var next := states(j).tasks[t].next;
      var start := CallStarts(states, sched, t, next, j);
      assert states(start + 1) == After(states(start), sched(start));
      ProgramsGrow(states, sched, t, i, start + 1);
      j := MessageReturns(states, sched, t, k, start + 1);
    }
  }

  // ---------------------------------------------------------------- as a run of the protocol

  lemma SupplyBeforeLock(s: System, u: TaskId, t: TaskId, m: Text)
    requires Enabled(s, Lock(u)) && t < |s.tasks|
    ensures |LockStep(s, u).tasks| == |s.tasks|
    ensures LockStep(Supplied(s, t, m), u) == Supplied(LockStep(s, u), t, m)
  {
    assert LockStep(Supplied(s, t, m), u).tasks == Supplied(LockStep(s, u), t, m).tasks;
  }

  lemma SupplyBeforeRelease(s: System, u: TaskId, t: TaskId, m: Text)
    requires Enabled(s, Release(u)) && t < |s.tasks|
    ensures |ReleaseStep(s, u).tasks| == |s.tasks|
    ensures ReleaseStep(Supplied(s, t, m), u) == Supplied(ReleaseStep(s, u), t, m)
  {
    assert ReleaseStep(Supplied(s, t, m), u).tasks == Supplied(ReleaseStep(s, u), t, m).tasks;
  }

  lemma SupplyBeforeOther(s: System, a: Action, t: TaskId, m: Text)
    requires Enabled(s, a) && t < |s.tasks| && !a.Lock? && !a.Release?
    ensures |Next(s, a).tasks| == |s.tasks|
    ensures Enabled(Supplied(s, t, m), a) && Next(Supplied(s, t, m), a) == Supplied(Next(s, a), t, m)
  {
    hide Uart.Outb, Uart.PollReady, Uart.Full;
    assert Next(Supplied(s, t, m), a).tasks == Supplied(Next(s, a), t, m).tasks;
  }

  /** A message may as well have been there before the step. */
  lemma SupplyEarlier(s: System, a: Action, t: TaskId, m: Text)
    requires Enabled(s, a) && t < |s.tasks|
    ensures |Next(s, a).tasks| == |s.tasks|
    ensures Enabled(Supplied(s, t, m), a)
    ensures Next(Supplied(s, t, m), a) == Supplied(Next(s, a), t, m)
  {
    hide LockStep, ReleaseStep;
    match a
    case Lock(u) => SupplyBeforeLock(s, u, t, m);
    case Release(u) => SupplyBeforeRelease(s, u, t, m);
    case _ => SupplyBeforeOther(s, a, t, m);
  }

  lemma {:induction false} SupplyFirst(s: System, actions: seq<Action>, t: TaskId, m: Text)
    requires Run(s, actions) && t < |s.tasks|
    ensures |Exec(s, actions).tasks| == |s.tasks|
    ensures Run(Supplied(s, t, m), actions)
    ensures Exec(Supplied(s, t, m), actions) == Supplied(Exec(s, actions), t, m)
    decreases |actions|
  {
    hide Next, Enabled, Supplied;
    if actions != [] {
      var n := |actions| - 1;
      SupplyFirst(s, actions[..n], t, m);
      SupplyEarlier(Exec(s, actions[..n]), actions[n], t, m);
    }
  }

  /** Every state of an endless run is reached by a run of the protocol that starts with all
      the messages given by then. */
  lemma {:induction false} IsProtocolRun(states: nat -> System, sched: nat -> OpenStep, n: nat)
    returns (start: System, actions: seq<Action>)
    requires Init(states(0)) && OpenRun(states, sched)
    ensures Init(start) && Run(start, actions) && Exec(start, actions) == states(n)
    ensures start.uart == states(0).uart
  {
    hide Next, Enabled;
    if n == 0 {
      start, actions := states(0), [];
    } else {
      start, actions := IsProtocolRun(states, sched, n - 1);
      assert states(n - 1 + 1) == After(states(n - 1), sched(n - 1));
      match sched(n - 1)
      case Act(a) =>
        RunStep(start, actions, a);
        actions := actions + [a];
      case Supply(t, m) =>
        ProgsKept(start, actions);
        SupplyFirst(start, actions, t, m);
        start := Supplied(start, t, m);
    }
  }

  /** The service delivers: on every fair schedule, every message `k` given to a task `t` is
      among the lines, which hold the messages of each task in program order; the port holds
      those lines and nothing else; and as long as their backlog fits, so does the device. */
  lemma ServiceDelivers(states: nat -> System, sched: nat -> OpenStep, t: TaskId, k: nat, i: nat) returns (j: nat)
    requires Init(states(0)) && OpenRun(states, sched) && OpenFair(states, sched)
    requires t < |states(i).tasks| && k < |states(i).tasks[t].prog|
    ensures i <= j && Good(states(j)) && t < |states(j).tasks|
    ensures var e, mine := states(j), MessagesOf(states(j).order, Lines(states(j)), t);
            && mine == e.tasks[t].prog[..e.tasks[t].next]
            && k < |mine| && mine[k] == states(i).tasks[t].prog[k]
            && e.port + Pending(e) == Render(Lines(e))
            && (MaxBacklog(Lines(e)) <= e.uart.tx.depth ==>
                  e.uart.tx.Stream() == states(0).uart.tx.Stream() + e.port)
  {
    hide OpenRun, OpenFair, Run, Exec, Init;
    j := MessageReturns(states, sched, t, k, i);
    ProgramsGrow(states, sched, t, i, j);
    var start, actions := IsProtocolRun(states, sched, j);
    var e := states(j);
    RunGood(start, actions);
    RunOutput(start, actions);
    NothingLost(start, actions);
    Fidelity(start, actions);
    ProgramOrder(Progs(e), e.order, t);
    assert Progs(e)[t] == e.tasks[t].prog;
  }
}
