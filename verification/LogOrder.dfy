/**
 What the interleaved runs of `log_printf` mean: a log to which every call appends its line
 in one step, in the order in which the calls reached `mutex_lock`.
 */
module LogOrder {
  import opened Options
  import opened SerialDevice
  import opened Framing
  import opened Mutex
  import opened LogProtocol

  // ---------------------------------------------------------------- lines of an order

  function Count(order: seq<TaskId>, t: TaskId): nat {
    if order == [] then 0
    else Count(order[..|order| - 1], t) + if order[|order| - 1] == t then 1 else 0
  }

  /** `order` names, for each line, the task whose next message it is. */
  predicate Legal(progs: seq<seq<Text>>, order: seq<TaskId>) {
    order == [] ||
    (var n := |order| - 1;
     Legal(progs, order[..n]) && order[n] < |progs| && Count(order[..n], order[n]) < |progs[order[n]]|)
  }

  function OrderTexts(progs: seq<seq<Text>>, order: seq<TaskId>): (ms: seq<Text>)
    requires Legal(progs, order)
    ensures |ms| == |order|
  {
    if order == [] then []
    else
      var n := |order| - 1;
      OrderTexts(progs, order[..n]) + [progs[order[n]][Count(order[..n], order[n])]]
  }

  /** The messages of one task among the lines. */
  function MessagesOf(order: seq<TaskId>, ms: seq<Text>, t: TaskId): seq<Text>
    requires |order| == |ms|
  {
    if order == [] then []
    else
      var n := |order| - 1;
      MessagesOf(order[..n], ms[..n], t) + if order[n] == t then [ms[n]] else []
  }

  lemma CountAppend(order: seq<TaskId>, t: TaskId, u: TaskId)
    ensures Count(order + [t], u) == Count(order, u) + if t == u then 1 else 0
  {
    assert (order + [t])[..|order|] == order;
  }

  lemma AppendTexts(progs: seq<seq<Text>>, order: seq<TaskId>, t: TaskId)
    requires Legal(progs, order) && t < |progs| && Count(order, t) < |progs[t]|
    ensures Legal(progs, order + [t])
    ensures OrderTexts(progs, order + [t]) == OrderTexts(progs, order) + [progs[t][Count(order, t)]]
  {
    assert (order + [t])[..|order|] == order;
  }

  /** The last line of an order. */
  lemma LastText(progs: seq<seq<Text>>, order: seq<TaskId>, front: seq<TaskId>, t: TaskId)
    requires Legal(progs, order) && order != [] && front == order[..|order| - 1] && t == order[|order| - 1]
    ensures Legal(progs, front) && t < |progs| && Count(front, t) < |progs[t]|
    ensures Count(order, t) == Count(front, t) + 1
    ensures OrderTexts(progs, order)[|order| - 1] == progs[t][Count(front, t)]
    ensures OrderTexts(progs, order)[..|order| - 1] == OrderTexts(progs, front)
  {
  }

  /** Each task's messages appear in program order: none lost, repeated or altered. */
  lemma {:induction false} ProgramOrder(progs: seq<seq<Text>>, order: seq<TaskId>, t: TaskId)
    requires Legal(progs, order) && t < |progs|
    ensures Count(order, t) <= |progs[t]|
    ensures MessagesOf(order, OrderTexts(progs, order), t) == progs[t][..Count(order, t)]
    decreases |order|
  {
    hide OrderTexts, Legal;
    if order != [] {
      var n := |order| - 1;
      LastText(progs, order, order[..n], order[n]);
      ProgramOrder(progs, order[..n], t);
    }
  }

  // ---------------------------------------------------------------- the atomic log

  /** The specification: `out` grows by one whole line at a time. */
  datatype AtomicLog = AtomicLog(progs: seq<seq<Text>>, taken: seq<nat>, out: seq<Byte>) {

    predicate CanAppend(t: TaskId) {
      t < |progs| && t < |taken| && taken[t] < |progs[t]|
    }

    function Append(t: TaskId): AtomicLog
      requires CanAppend(t)
    {
      this.(taken := taken[t := taken[t] + 1], out := out + Line(progs[t][taken[t]]))
    }
  }

  function Progs(s: System): seq<seq<Text>> {
    seq(|s.tasks|, t requires 0 <= t < |s.tasks| => s.tasks[t].prog)
  }

  /** The part of its line that a task in the critical section has written. */
  ghost function Written(task: Task): seq<Byte>
    requires TaskOk(task) && task.Critical()
  {
    if task.pc.SendingCr? then task.Current()
    else if task.pc.SendingLf? then task.Current() + [CR]
    else if task.pc.Unlocking? then Line(task.Current())
    else task.Current()[..task.pc.p]
  }

  /** The part it still has to write. */
  ghost function Unwritten(task: Task): seq<Byte>
    requires TaskOk(task) && task.Critical()
  {
    if task.pc.SendingCr? then [CR, LF]
    else if task.pc.SendingLf? then [LF]
    else if task.pc.Unlocking? then []
    else Line(task.Current()[task.pc.p..])
  }

  lemma WrittenUnwritten(task: Task)
    requires TaskOk(task) && task.Critical()
    ensures Written(task) + Unwritten(task) == Line(task.Current())
  {
  }

  /** The rest of the line of the mutex owner. */
  ghost function Pending(s: System): seq<Byte>
    requires Inv(s)
  {
    match s.mutex.owner
    case None => []
    case Some(t) => assert LockOk(s, t); Unwritten(s.tasks[t])
  }

  /** The log a state stands for: the port, as if the owner had finished. */
  ghost function Abs(s: System): AtomicLog
    requires Inv(s)
  {
    AtomicLog(Progs(s),
              seq(|s.tasks|, t requires 0 <= t < |s.tasks| => assert TaskOk(s.tasks[t]); s.tasks[t].Taken()),
              s.port + Pending(s))
  }

  /** The task that a step gives the mutex to. */
  ghost function Granted(s: System, a: Action): Option<TaskId>
    requires Enabled(s, a)
  {
    if a.Lock? && s.mutex.Free() then Some(a.t)
    else if a.Release? && s.mutex.owner == Some(a.t) && s.mutex.waiters != [] then Some(s.mutex.waiters[0])
    else None
  }

  /** Steps that leave the mutex alone change at most one task, and not how many calls of it
      have been granted. */
  lemma LocalStep(s: System, a: Action)
    requires Enabled(s, a) && !a.Lock? && !a.Release?
    ensures Next(s, a).mutex == s.mutex && Next(s, a).order == s.order
    ensures |Next(s, a).tasks| == |s.tasks|
    ensures forall u :: 0 <= u < |s.tasks| ==>
              && Next(s, a).tasks[u].prog == s.tasks[u].prog
              && Next(s, a).tasks[u].Taken() == s.tasks[u].Taken()
  {
  }

  lemma LockGrants(s: System, t: TaskId)
    requires Inv(s) && Enabled(s, Lock(t))
    ensures var s' := LockStep(s, t);
            && s'.order == s.order + (if s.mutex.Free() then [t] else [])
            && |s'.tasks| == |s.tasks|
            && forall u :: 0 <= u < |s.tasks| ==>
                 && s'.tasks[u].prog == s.tasks[u].prog
                 && s'.tasks[u].Taken() == s.tasks[u].Taken() + if u == t && s.mutex.Free() then 1 else 0
  {
    assert LockOk(s, t);
  }

  lemma ReleaseGrants(s: System, t: TaskId)
    requires Inv(s) && Enabled(s, Release(t))
    ensures s.mutex.owner == Some(t)
    ensures var s' := ReleaseStep(s, t);
            && s'.order == s.order + (if s.mutex.waiters != [] then [s.mutex.waiters[0]] else [])
            && |s'.tasks| == |s.tasks|
            && forall u :: 0 <= u < |s.tasks| ==>
                 && s'.tasks[u].prog == s.tasks[u].prog
                 && s'.tasks[u].Taken() ==
                      s.tasks[u].Taken() + if s.mutex.waiters != [] && u == s.mutex.waiters[0] then 1 else 0
  {
    assert LockOk(s, t);
    ReleaseKeepsInv(s, t);
  }

  lemma TakenStep(s: System, a: Action, u: TaskId)
    requires Inv(s) && Enabled(s, a) && u < |s.tasks|
    ensures |Next(s, a).tasks| == |s.tasks| && Next(s, a).tasks[u].prog == s.tasks[u].prog
    ensures Next(s, a).tasks[u].Taken() == s.tasks[u].Taken() + if Granted(s, a) == Some(u) then 1 else 0
    ensures Granted(s, a) == Some(u) ==> 0 <= s.tasks[u].Taken() < |s.tasks[u].prog|
  {
    hide LockStep, ReleaseStep;
    assert TaskOk(s.tasks[u]) && LockOk(s, u);
    if a.Release? {
      ReleaseGrants(s, a.t);
    } else if a.Lock? {
      LockGrants(s, a.t);
    } else {
      LocalStep(s, a);
    }
  }

  lemma GrantedOrder(s: System, a: Action)
    requires Inv(s) && Enabled(s, a)
    ensures Next(s, a).order == s.order + match Granted(s, a) case Some(g) => [g] case None => []
    ensures |Next(s, a).tasks| == |s.tasks| && Progs(Next(s, a)) == Progs(s)
  {
    hide LockStep, ReleaseStep;
    if a.Release? {
      ReleaseGrants(s, a.t);
    } else if a.Lock? {
      LockGrants(s, a.t);
    } else {
      LocalStep(s, a);
    }
  }

  lemma StartUnwritten(task: Task)
    requires TaskOk(task) && task.pc.Testing? && task.pc.p == 0
    ensures Unwritten(task) == Line(task.Current())
  {
    assert task.Current()[0..] == task.Current();
  }

  lemma LockOutput(s: System, t: TaskId)
    requires Inv(s) && Enabled(s, Lock(t)) && Inv(Next(s, Lock(t)))
    ensures var s' := Next(s, Lock(t));
            s'.port + Pending(s') == s.port + Pending(s)
              + if s.mutex.Free() then Line(s.tasks[t].prog[s.tasks[t].next - 1]) else []
  {
    hide Unwritten, Line, ReleaseStep, Uart.PollReady, Uart.Outb, Uart.Full;
    var s' := Next(s, Lock(t));
    assert TaskOk(s.tasks[t]) && LockOk(s, t) && LockOk(s', t);
    if s.mutex.Free() {
      StartUnwritten(s'.tasks[t]);
      assert s.port + [] == s.port;
    } else {
      assert LockOk(s, s.mutex.owner.value);
    }
  }

  lemma ReleaseOutput(s: System, t: TaskId)
    requires Inv(s) && Enabled(s, Release(t)) && Inv(Next(s, Release(t)))
    ensures s.mutex.waiters == [] ==>
              Next(s, Release(t)).port + Pending(Next(s, Release(t))) == s.port + Pending(s)
    ensures s.mutex.waiters != [] ==>
              var s', w := Next(s, Release(t)), s.mutex.waiters[0];
              && w < |s.tasks| && s.tasks[w].pc.Waiting? && s.tasks[w].InCall()
              && s'.port + Pending(s') == s.port + Pending(s) + Line(s.tasks[w].Current())
  {
    hide Line;
    var s' := Next(s, Release(t));
    assert LockOk(s, t);
    assert Pending(s) == [] && s.port + [] == s.port;
    ReleaseKeepsInv(s, t);
    if s.mutex.waiters != [] {
      var w := s.mutex.waiters[0];
      assert TaskOk(s.tasks[w]) && LockOk(s, w) && LockOk(s', w);
      StartUnwritten(s'.tasks[w]);
    }
  }

  /** What one write to the port takes off the pending part. */
  lemma SendUnwritten(task: Task, b: Byte, pc: Pc)
    requires TaskOk(task) && task.Critical() && TaskOk(task.(pc := pc)) && task.(pc := pc).Critical()
    requires || (task.pc.Writing? && b == task.pc.buf[task.pc.p] && pc == Testing(task.pc.buf, task.pc.p + 1))
             || (task.pc.SendingCr? && b == CR && pc.SendingLf?)
             || (task.pc.SendingLf? && b == LF && pc.Unlocking?)
    ensures Unwritten(task) == [b] + Unwritten(task.(pc := pc))
  {
    if task.pc.Writing? {
      var m, p := task.Current(), task.pc.p;
      assert task.pc.buf[p] == task.pc.buf[..|m|][p] == m[p];
      assert m[p..] == [m[p]] + m[p + 1..];
    }
  }

  lemma SendOutput(s: System, a: Action)
    requires Inv(s) && Enabled(s, a) && Inv(Next(s, a))
    requires a.Put? || a.PutCr? || a.PutLf?
    ensures Next(s, a).port + Pending(Next(s, a)) == s.port + Pending(s)
  {
    hide Unwritten, Uart.Outb, Uart.Full, Uart.PollReady;
    var s' := Next(s, a);
    assert TaskOk(s.tasks[a.t]) && LockOk(s, a.t) && TaskOk(s'.tasks[a.t]);
    assert Pending(s) == Unwritten(s.tasks[a.t]) && Pending(s') == Unwritten(s'.tasks[a.t]);
    var b := s'.port[|s.port|];
    assert s'.port == s.port + [b];
    SendUnwritten(s.tasks[a.t], b, s'.tasks[a.t].pc);
    assert s.port + [b] + Unwritten(s'.tasks[a.t]) == s.port + ([b] + Unwritten(s'.tasks[a.t]));
  }

  lemma SilentUnwritten(task: Task, pc: Pc)
    requires TaskOk(task) && TaskOk(task.(pc := pc))
    requires || (task.pc.Testing? && task.pc.buf[task.pc.p] != 0 && pc == Polling(task.pc.buf, task.pc.p))
             || (task.pc.Testing? && task.pc.buf[task.pc.p] == 0 && pc == SendingCr)
             || (task.pc.Polling? && pc == Writing(task.pc.buf, task.pc.p))
    ensures Unwritten(task) == Unwritten(task.(pc := pc))
  {
    if pc.SendingCr? {
      assert task.Current()[task.pc.p..] == [];
    }
  }

  lemma SilentOutput(s: System, a: Action)
    requires Inv(s) && Enabled(s, a) && Inv(Next(s, a))
    requires a.Test? || a.Poll?
    ensures Next(s, a).port + Pending(Next(s, a)) == s.port + Pending(s)
  {
    hide Unwritten, Uart.PollReady;
    var s' := Next(s, a);
    assert TaskOk(s.tasks[a.t]) && LockOk(s, a.t) && TaskOk(s'.tasks[a.t]);
    if s' != s {
      SilentUnwritten(s.tasks[a.t], s'.tasks[a.t].pc);
    }
  }

  lemma OtherOutput(s: System, a: Action)
    requires Inv(s) && Enabled(s, a) && Inv(Next(s, a))
    requires a.Drain? || a.Tick? || a.Invoke? || a.Format?
    ensures Next(s, a).port + Pending(Next(s, a)) == s.port + Pending(s)
  {
    if s.mutex.owner.Some? {
      assert LockOk(s, s.mutex.owner.value);
    }
  }

  /** One step of the forward simulation: the step that gives the mutex away appends the
      receiver's line, every other step leaves the log alone. */
  lemma StepRefines(s: System, a: Action)
    requires Inv(s) && Enabled(s, a)
    ensures Inv(Next(s, a))
    ensures match Granted(s, a)
            case None => Abs(Next(s, a)) == Abs(s)
            case Some(g) => Abs(s).CanAppend(g) && Abs(Next(s, a)) == Abs(s).Append(g)
  {
    hide Next, Enabled, Unwritten;
    InvStep(s, a);
    GrantedOrder(s, a);
    var s' := Next(s, a);
    forall u | 0 <= u < |s.tasks|
      ensures s'.tasks[u].Taken() == s.tasks[u].Taken() + if Granted(s, a) == Some(u) then 1 else 0
      ensures Granted(s, a) == Some(u) ==> 0 <= s.tasks[u].Taken() < |s.tasks[u].prog|
    {
      TakenStep(s, a, u);
    }
    OutputStep(s, a);
    match Granted(s, a)
    case None => assert Abs(s').taken == Abs(s).taken;
    case Some(g) => assert Abs(s').taken == Abs(s).Append(g).taken;
  }

  lemma OutputStep(s: System, a: Action)
    requires Inv(s) && Enabled(s, a) && Inv(Next(s, a))
    ensures match Granted(s, a)
            case None => Abs(Next(s, a)).out == Abs(s).out
            case Some(g) =>
              && g < |s.tasks| && 0 <= s.tasks[g].Taken() < |s.tasks[g].prog|
              && Abs(Next(s, a)).out == Abs(s).out + Line(s.tasks[g].prog[s.tasks[g].Taken()])
  {
    match Granted(s, a)
    case Some(g) => GrantedOutput(s, a, g);
    case None =>
      match a
      case Lock(t) => LockOutput(s, t);
      case Release(t) =>
        assert LockOk(s, t);
        ReleaseOutput(s, t);
      case Drain => OtherOutput(s, a);
      case Tick => OtherOutput(s, a);
      case Invoke(_) => OtherOutput(s, a);
      case Format(_) => OtherOutput(s, a);
      case Test(_) => SilentOutput(s, a);
      case Poll(_) => SilentOutput(s, a);
      case _ => SendOutput(s, a);
  }

  lemma GrantedOutput(s: System, a: Action, g: TaskId)
    requires Inv(s) && Enabled(s, a) && Inv(Next(s, a)) && Granted(s, a) == Some(g)
    ensures g < |s.tasks| && 0 <= s.tasks[g].Taken() < |s.tasks[g].prog|
    ensures Abs(Next(s, a)).out == Abs(s).out + Line(s.tasks[g].prog[s.tasks[g].Taken()])
  {
    hide Next, Pending, Line;
    TakenStep(s, a, g);
    if a.Lock? {
      LockOutput(s, a.t);
    } else {
      ReleaseOutput(s, a.t);
    }
  }

  // ---------------------------------------------------------------- whole runs

  /** A run of the atomic log: one append for each entry of `order`. */
  ghost predicate CanAppendAll(log: AtomicLog, order: seq<TaskId>)
    decreases |order|, 0
  {
    order == [] ||
    (var n := |order| - 1;
     CanAppendAll(log, order[..n]) && AppendAll(log, order[..n]).CanAppend(order[n]))
  }

  ghost function AppendAll(log: AtomicLog, order: seq<TaskId>): AtomicLog
    requires CanAppendAll(log, order)
    decreases |order|, 1
  {
    if order == [] then log
    else AppendAll(log, order[..|order| - 1]).Append(order[|order| - 1])
  }

  lemma AppendOne(log: AtomicLog, order: seq<TaskId>, t: TaskId)
    requires CanAppendAll(log, order) && AppendAll(log, order).CanAppend(t)
    ensures CanAppendAll(log, order + [t])
    ensures AppendAll(log, order + [t]) == AppendAll(log, order).Append(t)
  {
    assert (order + [t])[..|order|] == order;
  }

  /** Every interleaving refines the atomic log: what a run has done is what the atomic log
      does when the calls are taken one at a time, in the order of the mutex. */
  lemma {:induction false} RunRefines(s: System, actions: seq<Action>)
    requires Init(s) && Run(s, actions)
    ensures Inv(s) && Inv(Exec(s, actions))
    ensures CanAppendAll(Abs(s), Exec(s, actions).order)
    ensures AppendAll(Abs(s), Exec(s, actions).order) == Abs(Exec(s, actions))
    decreases |actions|
  {
    InitInv(s);
    RunInv(s, actions);
    if actions != [] {
      var n := |actions| - 1;
      var e, a := Exec(s, actions[..n]), actions[n];
      RunRefines(s, actions[..n]);
      StepRefines(e, a);
      GrantedOrder(e, a);
      match Granted(e, a)
      case Some(g) => AppendOne(Abs(s), e.order, g);
      case None => assert e.order + [] == e.order;
    }
  }

  /** The atomic log of an order is the rendering of its texts. */
  lemma {:induction false} AtomicOutput(log: AtomicLog, order: seq<TaskId>)
    requires |log.taken| == |log.progs| && log.out == []
    requires forall t :: 0 <= t < |log.taken| ==> log.taken[t] == 0
    requires CanAppendAll(log, order)
    ensures Legal(log.progs, order)
    ensures var l := AppendAll(log, order);
            && l.progs == log.progs && |l.taken| == |l.progs|
            && l.out == Render(OrderTexts(log.progs, order))
            && forall t :: 0 <= t < |l.taken| ==> l.taken[t] == Count(order, t)
    decreases |order|
  {
    if order != [] {
      var n := |order| - 1;
      AtomicOutput(log, order[..n]);
      assert OrderTexts(log.progs, order)[..n] == OrderTexts(log.progs, order[..n]);
    }
  }

  lemma {:induction false} ProgsKept(s: System, actions: seq<Action>)
    requires Init(s) && Run(s, actions)
    ensures Progs(Exec(s, actions)) == Progs(s) && |Exec(s, actions).tasks| == |s.tasks|
    decreases |actions|
  {
    if actions != [] {
      var n := |actions| - 1;
      ProgsKept(s, actions[..n]);
      RunInv(s, actions[..n]);
      GrantedOrder(Exec(s, actions[..n]), actions[n]);
    }
  }

  /** The lines of a run, in the order of the mutex. */
  ghost function Lines(s: System): seq<Text>
    requires Legal(Progs(s), s.order)
  {
    OrderTexts(Progs(s), s.order)
  }

  /** In every reachable state the port holds the lines granted so far, except for what the
      owner of the mutex still has to write; and each task has been granted exactly as many
      lines as it has calls past `mutex_lock`. */
  lemma RunOutput(s: System, actions: seq<Action>)
    requires Init(s) && Run(s, actions)
    ensures var e := Exec(s, actions);
            && Inv(e) && Progs(e) == Progs(s) && Legal(Progs(e), e.order)
            && e.port + Pending(e) == Render(Lines(e))
            && forall t :: 0 <= t < |e.tasks| ==> e.tasks[t].Taken() == Count(e.order, t)
  {
    hide Run, Exec, Legal, OrderTexts, Count, CanAppendAll, AppendAll;
    RunRefines(s, actions);
    ProgsKept(s, actions);
    AtomicOutput(Abs(s), Exec(s, actions).order);
    var e := Exec(s, actions);
    forall t | 0 <= t < |e.tasks| ensures e.tasks[t].Taken() == Count(e.order, t) {
      assert Abs(e).taken[t] == e.tasks[t].Taken();
    }
  }

  // ---------------------------------------------------------------- order of the lines

  /** The calls of `mutex_lock`, in the order in which they were made. */
  function Arrivals(actions: seq<Action>): seq<TaskId> {
    if actions == [] then []
    else
      var n := |actions| - 1;
      Arrivals(actions[..n]) + if actions[n].Lock? then [actions[n].t] else []
  }

  lemma LockArrival(s: System, t: TaskId)
    requires Inv(s) && Enabled(s, Lock(t))
    ensures Next(s, Lock(t)).order + Next(s, Lock(t)).mutex.waiters == s.order + s.mutex.waiters + [t]
  {
    assert LockOk(s, t);
    LockGrants(s, t);
  }

  lemma ReleaseArrival(s: System, t: TaskId)
    requires Inv(s) && Enabled(s, Release(t))
    ensures Next(s, Release(t)).order + Next(s, Release(t)).mutex.waiters == s.order + s.mutex.waiters
  {
    hide LockStep, Uart.PollReady, Uart.Outb, Uart.Full;
    ReleaseGrants(s, t);
    if s.mutex.waiters != [] {
      assert s.mutex.waiters == [s.mutex.waiters[0]] + s.mutex.waiters[1..];
    }
  }

  lemma ArrivalStep(s: System, a: Action)
    requires Inv(s) && Enabled(s, a)
    ensures Next(s, a).order + Next(s, a).mutex.waiters
         == s.order + s.mutex.waiters + if a.Lock? then [a.t] else []
  {
    hide Next, Inv;
    if a.Lock? {
      LockArrival(s, a.t);
    } else if a.Release? {
      ReleaseArrival(s, a.t);
    } else {
      LocalStep(s, a);
    }
  }

  /** Nobody overtakes: lines come in the order in which the calls reached `mutex_lock`, and
      those still waiting come next. */
  lemma {:induction false} LinesInArrivalOrder(s: System, actions: seq<Action>)
    requires Init(s) && Run(s, actions)
    ensures Exec(s, actions).order + Exec(s, actions).mutex.waiters == Arrivals(actions)
    decreases |actions|
  {
    if actions != [] {
      var n := |actions| - 1;
      LinesInArrivalOrder(s, actions[..n]);
      RunInv(s, actions[..n]);
      ArrivalStep(Exec(s, actions[..n]), actions[n]);
    }
  }

  ghost predicate OwnerIsLast(e: System) {
    e.mutex.owner.Some? ==> e.order != [] && e.order[|e.order| - 1] == e.mutex.owner.value
  }

  lemma OwnerStep(e: System, a: Action)
    requires Inv(e) && Enabled(e, a) && OwnerIsLast(e)
    ensures OwnerIsLast(Next(e, a))
  {
    GrantedOrder(e, a);
    if a.Lock? {
      assert LockOk(e, a.t);
    } else if a.Release? {
      ReleaseKeepsInv(e, a.t);
    }
  }

  lemma {:induction false} LastGrantedIsOwner(s: System, actions: seq<Action>)
    requires Init(s) && Run(s, actions)
    ensures OwnerIsLast(Exec(s, actions))
    decreases |actions|
  {
    if actions != [] {
      var n := |actions| - 1;
      LastGrantedIsOwner(s, actions[..n]);
      RunInv(s, actions[..n]);
      OwnerStep(Exec(s, actions[..n]), actions[n]);
    }
  }

  lemma CancelSuffix(a: seq<Byte>, b: seq<Byte>, c: seq<Byte>)
    requires a + c == b + c
    ensures a == b
  {
    assert |a| == |b|;
    assert a == (a + c)[..|a|] == (b + c)[..|b|] == b;
  }

  /** The port while `t` owns the mutex. */
  lemma OwnersPort(e: System, t: TaskId)
    requires Inv(e) && e.mutex.owner == Some(t)
    requires Legal(Progs(e), e.order) && e.port + Pending(e) == Render(Lines(e))
    requires e.tasks[t].Taken() == Count(e.order, t)
    requires OwnerIsLast(e)
    ensures TaskOk(e.tasks[t]) && e.tasks[t].Critical()
    ensures Lines(e)[|e.order| - 1] == e.tasks[t].Current()
    ensures e.port == Render(Lines(e)[..|e.order| - 1]) + Written(e.tasks[t])
  {
    hide Legal, Count, OrderTexts, Unwritten, Written;
    var n := |e.order| - 1;
    var task := e.tasks[t];
    assert TaskOk(task) && LockOk(e, t);
    LastText(Progs(e), e.order, e.order[..n], t);
    WrittenUnwritten(task);
    assert Render(Lines(e)) == Render(Lines(e)[..n]) + Line(task.Current());
    assert Render(Lines(e)) == Render(Lines(e)[..n]) + Written(task) + Unwritten(task);
    CancelSuffix(e.port, Render(Lines(e)[..n]) + Written(task), Unwritten(task));
  }

  /** The port at any moment: whole lines, and at most one unfinished line, which is a prefix
      of the owner's. */
  lemma WholeLines(s: System, actions: seq<Action>)
    requires Init(s) && Run(s, actions)
    ensures var e := Exec(s, actions);
            && Inv(e) && Legal(Progs(e), e.order)
            && match e.mutex.owner
               case None => e.port == Render(Lines(e))
               case Some(t) =>
                 && t < |e.tasks| && TaskOk(e.tasks[t]) && e.tasks[t].Critical()
                 && Lines(e) != [] && Lines(e)[|e.order| - 1] == e.tasks[t].Current()
                 && e.port == Render(Lines(e)[..|e.order| - 1]) + Written(e.tasks[t])
                 && Written(e.tasks[t]) <= e.tasks[t].Current() + [13, 10]
  {
    RunOutput(s, actions);
    LastGrantedIsOwner(s, actions);
    var e := Exec(s, actions);
    match e.mutex.owner
    case None => assert e.port + [] == e.port;
    case Some(t) =>
      OwnersPort(e, t);
      WrittenUnwritten(e.tasks[t]);
  }

  lemma {:induction false} CountMonotone(order: seq<TaskId>, k: nat, t: TaskId)
    requires k <= |order|
    ensures Count(order[..k], t) <= Count(order, t)
    ensures k < |order| && order[k] == t ==> Count(order[..k], t) < Count(order, t)
    decreases |order|
  {
    if k < |order| {
      var n := |order| - 1;
      CountMonotone(order[..n], k, t);
      assert order[..n][..k] == order[..k];
    } else {
      assert order[..k] == order;
    }
  }

  lemma {:induction false} OrderGrows(s: System, actions: seq<Action>, k: nat)
    requires Init(s) && Run(s, actions) && k <= |actions|
    ensures Run(s, actions[..k]) && Exec(s, actions[..k]).order <= Exec(s, actions).order
    decreases |actions|
  {
    if k < |actions| {
      var n := |actions| - 1;
      OrderGrows(s, actions[..n], k);
      assert actions[..n][..k] == actions[..k];
      RunInv(s, actions[..n]);
      GrantedOrder(Exec(s, actions[..n]), actions[n]);
    } else {
      assert actions[..k] == actions;
    }
  }

  /** Line `x` of an order is the `call`-th line of task `t`. */
  predicate IsLineOf(order: seq<TaskId>, x: nat, t: TaskId, call: nat) {
    x < |order| && order[x] == t && Count(order[..x], t) == call
  }

  lemma LineIsUnique(order: seq<TaskId>, x: nat, y: nat, t: TaskId, call: nat)
    requires IsLineOf(order, x, t, call) && IsLineOf(order, y, t, call)
    ensures x == y
  {
    if x < y {
      assert order[..y][..x] == order[..x];
      CountMonotone(order[..y], x, t);
    } else if y < x {
      assert order[..x][..y] == order[..y];
      CountMonotone(order[..x], y, t);
    }
  }

  lemma {:induction false} LineExists(order: seq<TaskId>, t: TaskId, call: nat) returns (x: nat)
    requires call < Count(order, t)
    ensures IsLineOf(order, x, t, call)
    decreases |order|
  {
    var n := |order| - 1;
    if call < Count(order[..n], t) {
      x := LineExists(order[..n], t, call);
      assert order[..n][..x] == order[..x];
    } else {
      x := n;
    }
  }

  /** The line of call `call` of `t` exists and comes before that of call `call'` of `u`. */
  ghost predicate Precedes(order: seq<TaskId>, t: TaskId, call: nat, u: TaskId, call': nat) {
    && (exists z: nat :: IsLineOf(order, z, t, call))
    && (forall x: nat, y: nat :: IsLineOf(order, x, t, call) && IsLineOf(order, y, u, call') ==> x < y)
  }

  /** A line already granted comes before one that is granted later. */
  lemma GrantedEarlier(early: seq<TaskId>, late: seq<TaskId>, order: seq<TaskId>,
                       t: TaskId, call: nat, u: TaskId, call': nat)
    requires early <= late <= order
    requires call < Count(early, t) && Count(late, u) <= call'
    ensures Precedes(order, t, call, u, call')
  {
    var z := LineExists(early, t, call);
    assert order[..z] == early[..z];
    assert IsLineOf(order, z, t, call);
    forall x: nat, y: nat | IsLineOf(order, x, t, call) && IsLineOf(order, y, u, call')
      ensures x < y
    {
      LineIsUnique(order, x, z, t, call);
      if y < |late| {
        assert order[..y] == late[..y];
        CountMonotone(late, y, u);
      }
    }
  }

  /** The number of the call that a task is in, or is about to start. */
  lemma CallNumbers(s: System, actions: seq<Action>, t: TaskId)
    requires Init(s) && Run(s, actions) && t < |Exec(s, actions).tasks|
    ensures var e := Exec(s, actions);
            && (e.tasks[t].pc.Unlocking? ==> 0 < e.tasks[t].next == Count(e.order, t))
            && (e.tasks[t].pc.Idle? ==> e.tasks[t].next == Count(e.order, t))
  {
    RunOutput(s, actions);
    assert TaskOk(Exec(s, actions).tasks[t]);
  }

  /** Linearizability: when a call has returned before another one starts, its line comes
      first. Step `j` is the return of the one, step `k` the start of the other. */
  lemma RealTimeOrder(s: System, actions: seq<Action>, j: nat, k: nat)
    requires Init(s) && Run(s, actions) && j < k < |actions|
    requires actions[j].Release? && actions[k].Invoke?
    ensures Run(s, actions[..j]) && Run(s, actions[..k])
    ensures var before, start := Exec(s, actions[..j]), Exec(s, actions[..k]);
            var t, u := actions[j].t, actions[k].t;
            && t < |before.tasks| && u < |start.tasks| && before.tasks[t].next > 0
            && Precedes(Exec(s, actions).order, t, before.tasks[t].next - 1, u, start.tasks[u].next)
  {
    hide Next, Enabled, Inv;
    OrderGrows(s, actions, k);
    OrderGrows(s, actions[..k], j);
    assert actions[..k][..j] == actions[..j];
    StepEnabled(s, actions, j);
    StepEnabled(s, actions, k);
    var before, start := Exec(s, actions[..j]), Exec(s, actions[..k]);
    var t, u := actions[j].t, actions[k].t;
    CallNumbers(s, actions[..j], t);
    CallNumbers(s, actions[..k], u);
    GrantedEarlier(before.order, start.order, Exec(s, actions).order,
                   t, before.tasks[t].next - 1, u, start.tasks[u].next);
  }

  lemma StepEnabled(s: System, actions: seq<Action>, k: nat)
    requires Run(s, actions) && k < |actions|
    ensures Run(s, actions[..k]) && Enabled(Exec(s, actions[..k]), actions[k])
  {
    RunPrefix(s, actions, k + 1);
    assert actions[..k + 1][..k] == actions[..k];
  }

  /** The lines whose CR LF has been written. */
  ghost function Finished(e: System): seq<Text>
    requires Inv(e) && Legal(Progs(e), e.order)
  {
    if e.mutex.owner.None? || e.tasks[e.mutex.owner.value].pc.Unlocking? || e.order == [] then Lines(e)
    else Lines(e)[..|e.order| - 1]
  }

  /** A reader who splits the port at CR LF sees, at any moment, exactly the messages of the
      finished lines, provided no message contains a CR LF itself. */
  lemma ReaderSeesWholeMessages(s: System, actions: seq<Action>)
    requires Init(s) && Run(s, actions)
    requires forall t, i :: 0 <= t < |s.tasks| && 0 <= i < |s.tasks[t].prog| ==> Unbroken(s.tasks[t].prog[i])
    ensures var e := Exec(s, actions);
            && Inv(e) && Legal(Progs(e), e.order)
            && Split(e.port) == Finished(e)
  {
    hide Run, Exec, Init, Legal, OrderTexts, Count, Split, Pending;
    WholeLines(s, actions);
    RunOutput(s, actions);
    var e := Exec(s, actions);
    LegalTextsUnbroken(Progs(e), e.order, s);
    match e.mutex.owner
    case None =>
      SplitRender(Lines(e), []);
      assert Render(Lines(e)) + [] == Render(Lines(e));
    case Some(t) =>
      var n := |e.order| - 1;
      var task := e.tasks[t];
      if task.pc.Unlocking? {
        SplitRender(Lines(e), []);
        assert Lines(e)[..n] + [Lines(e)[n]] == Lines(e);
        assert e.port == Render(Lines(e)) + [];
      } else {
        PartialUnbroken(task.Current(), Written(task));
        SplitRender(Lines(e)[..n], Written(task));
      }
  }

  lemma {:induction false} LegalTextsUnbroken(progs: seq<seq<Text>>, order: seq<TaskId>, s: System)
    requires progs == Progs(s) && Legal(progs, order)
    requires forall t, i :: 0 <= t < |s.tasks| && 0 <= i < |s.tasks[t].prog| ==> Unbroken(s.tasks[t].prog[i])
    ensures forall i :: 0 <= i < |order| ==> Unbroken(OrderTexts(progs, order)[i])
    decreases |order|
  {
    if order != [] {
      var n := |order| - 1;
      LegalTextsUnbroken(progs, order[..n], s);
      var t := order[n];
      assert progs[t] == s.tasks[t].prog;
    }
  }

  /** An unfinished line has no break: the only CR LF of a line is its last two bytes. */
  lemma PartialUnbroken(m: seq<Byte>, w: seq<Byte>)
    requires Unbroken(m) && w <= Line(m) && w != Line(m)
    ensures Unbroken(w)
  {
    assert |w| < |Line(m)|;
    forall i ensures !BreakAt(w, i) {
      assert !BreakAt(m, i);
      assert 0 <= i < |w| - 1 ==> w[i] == Line(m)[i] && w[i + 1] == Line(m)[i + 1];
    }
  }

}
