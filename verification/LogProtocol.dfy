/**
 Any number of tasks inside `log_printf` at once, one statement at a time, on a device that
 drains whenever it likes.
 */
module LogProtocol {
  import opened Options
  import opened SerialDevice
  import opened Framing
  import opened Mutex

  /** Where a task stands in `log_printf`. The buffer is its own `str_buf`, `p` its cursor. */
  datatype Pc =
    | Idle                                 // outside log_printf
    | Entered                              // before the buffer is filled
    | Locking(buf: seq<Byte>)              // about to call mutex_lock
    | Waiting(buf: seq<Byte>)              // blocked in mutex_lock
    | Testing(buf: seq<Byte>, p: nat)      // at the test of *p against NUL
    | Polling(buf: seq<Byte>, p: nat)      // in the polling loop
    | Writing(buf: seq<Byte>, p: nat)      // about to write *p to the port
    | SendingCr
    | SendingLf
    | Unlocking                            // about to call mutex_unlock, then return

  /** A task and the messages it is to log; `next` counts the calls it has started. */
  datatype Task = Task(prog: seq<Text>, next: nat, pc: Pc) {

    predicate InCall() {
      0 < next <= |prog| && !pc.Idle?
    }

    /** The message of the call in progress. */
    function Current(): Text
      requires InCall()
    {
      prog[next - 1]
    }

    /** Inside the critical section. */
    predicate Critical() {
      pc.Testing? || pc.Polling? || pc.Writing? || pc.SendingCr? || pc.SendingLf? || pc.Unlocking?
    }

    /** How many of its calls have been given the mutex. */
    function Taken(): int {
      if pc.Entered? || pc.Locking? || pc.Waiting? then next - 1 else next
    }
  }

  /** `port` is the history of bytes written to COM1, `order` that of tasks given the mutex,
      and `lost` counts the bytes that found the transmit FIFO full. No step reads them. */
  datatype System = System(tasks: seq<Task>, mutex: MutexState, uart: Uart,
                           port: seq<Byte>, order: seq<TaskId>, lost: nat) {

    function SetPc(t: TaskId, pc: Pc): System
      requires t < |tasks|
    {
      this.(tasks := tasks[t := tasks[t].(pc := pc)])
    }

    function Send(b: Byte): System {
      this.(uart := uart.Outb(0, b), port := port + [b],
            lost := if uart.Full() then lost + 1 else lost)
    }

    /** A task that now owns the mutex goes on to the loop over its buffer. */
    function Grant(t: TaskId, buf: seq<Byte>): System
      requires t < |tasks|
    {
      SetPc(t, Testing(buf, 0)).(order := order + [t])
    }
  }

  datatype Action =
    | Invoke(t: TaskId) | Format(t: TaskId) | Lock(t: TaskId) | Test(t: TaskId) | Poll(t: TaskId)
    | Put(t: TaskId) | PutCr(t: TaskId) | PutLf(t: TaskId) | Release(t: TaskId)
    | Drain            // the device moves
    | Tick             // something else happens

  predicate Enabled(s: System, a: Action) {
    match a
    case Drain => !s.uart.tx.Empty()
    case Tick => true
    case Invoke(t) => t < |s.tasks| && s.tasks[t].pc.Idle? && s.tasks[t].next < |s.tasks[t].prog|
    case Format(t) => t < |s.tasks| && s.tasks[t].pc.Entered? && s.tasks[t].InCall()
    case Lock(t) => t < |s.tasks| && s.tasks[t].pc.Locking?
    case Test(t) => t < |s.tasks| && s.tasks[t].pc.Testing? && s.tasks[t].pc.p < |s.tasks[t].pc.buf|
    case Poll(t) => t < |s.tasks| && s.tasks[t].pc.Polling?
    case Put(t) => t < |s.tasks| && s.tasks[t].pc.Writing? && s.tasks[t].pc.p < |s.tasks[t].pc.buf|
    case PutCr(t) => t < |s.tasks| && s.tasks[t].pc.SendingCr?
    case PutLf(t) => t < |s.tasks| && s.tasks[t].pc.SendingLf?
    case Release(t) => t < |s.tasks| && s.tasks[t].pc.Unlocking?
  }

  function LockStep(s: System, t: TaskId): System
    requires Enabled(s, Lock(t))
  {
    var s' := s.(mutex := s.mutex.Lock(t));
    var buf := s.tasks[t].pc.buf;
    if s'.mutex.owner == Some(t) then s'.Grant(t, buf) else s'.SetPc(t, Waiting(buf))
  }

  /** The unlocking task returns; a waiter that was handed the mutex wakes up inside it. */
  function ReleaseStep(s: System, t: TaskId): System
    requires Enabled(s, Release(t))
  {
    var s' := s.(mutex := s.mutex.Unlock(t)).SetPc(t, Idle);
    match s'.mutex.owner
    case Some(w) =>
      if s'.mutex != s.mutex && w < |s'.tasks| && s'.tasks[w].pc.Waiting?
      then s'.Grant(w, s'.tasks[w].pc.buf) else s'
    case None => s'
  }

  function Next(s: System, a: Action): System
    requires Enabled(s, a)
  {
    match a
    case Drain => s.(uart := s.uart.Elapse(1))
    case Tick => s
    case Invoke(t) => s.(tasks := s.tasks[t := s.tasks[t].(next := s.tasks[t].next + 1, pc := Entered)])
    case Format(t) => s.SetPc(t, Locking(Buffer(s.tasks[t].Current())))
    case Lock(t) => LockStep(s, t)
    case Test(t) =>
      var pc := s.tasks[t].pc;
      s.SetPc(t, if pc.buf[pc.p] != 0 then Polling(pc.buf, pc.p) else SendingCr)
    case Poll(t) =>
      var pc := s.tasks[t].pc;
      if s.uart.PollReady() then s.SetPc(t, Writing(pc.buf, pc.p)) else s
    case Put(t) =>
      var pc := s.tasks[t].pc;
      s.Send(pc.buf[pc.p]).SetPc(t, Testing(pc.buf, pc.p + 1))
    case PutCr(t) => s.Send(CR).SetPc(t, SendingLf)
    case PutLf(t) => s.Send(LF).SetPc(t, Unlocking)
    case Release(t) => ReleaseStep(s, t)
  }

  // ---------------------------------------------------------------- runs

  /** Every task outside `log_printf`, the mutex free, the device as `log_init` leaves it; a
      byte from before may still be in the shift register or on the wire. */
  ghost predicate Init(s: System) {
    && (forall t :: 0 <= t < |s.tasks| ==> s.tasks[t].pc.Idle? && s.tasks[t].next == 0)
    && s.mutex == UNLOCKED
    && s.uart.Ready() && s.uart.tx.fifo == [] && |s.uart.tx.shift| <= 1
    && s.port == [] && s.order == [] && s.lost == 0
  }

  /** `actions` can be taken one after the other from `s`. */
  ghost predicate Run(s: System, actions: seq<Action>)
    decreases |actions|, 0
  {
    actions == [] ||
    (var n := |actions| - 1;
     Run(s, actions[..n]) && Enabled(Exec(s, actions[..n]), actions[n]))
  }

  ghost function Exec(s: System, actions: seq<Action>): System
    requires Run(s, actions)
    decreases |actions|, 1
  {
    if actions == [] then s
    else Next(Exec(s, actions[..|actions| - 1]), actions[|actions| - 1])
  }

  lemma RunStep(s: System, actions: seq<Action>, a: Action)
    requires Run(s, actions) && Enabled(Exec(s, actions), a)
    ensures Run(s, actions + [a])
    ensures Exec(s, actions + [a]) == Next(Exec(s, actions), a)
  {
    assert (actions + [a])[..|actions|] == actions;
  }

  lemma {:induction false} RunConcat(s: System, x: seq<Action>, y: seq<Action>)
    requires Run(s, x) && Run(Exec(s, x), y)
    ensures Run(s, x + y) && Exec(s, x + y) == Exec(Exec(s, x), y)
    decreases |y|
  {
    hide Next, Enabled;
    if y == [] {
      assert x + y == x;
    } else {
      var n := |y| - 1;
      RunConcat(s, x, y[..n]);
      RunStep(s, x + y[..n], y[n]);
      assert x + y[..n] + [y[n]] == x + y;
    }
  }

  lemma {:induction false} RunPrefix(s: System, actions: seq<Action>, k: nat)
    requires Run(s, actions) && k <= |actions|
    ensures Run(s, actions[..k])
    decreases |actions|
  {
    if k < |actions| {
      RunPrefix(s, actions[..|actions| - 1], k);
      assert actions[..|actions| - 1][..k] == actions[..k];
    } else {
      assert actions[..k] == actions;
    }
  }

  // ---------------------------------------------------------------- control invariant

  ghost predicate TaskOk(task: Task) {
    && task.next <= |task.prog|
    && (!task.pc.Idle? ==> 0 < task.next)
    && match task.pc
       case Locking(buf) => buf == Buffer(task.Current())
       case Waiting(buf) => buf == Buffer(task.Current())
       case Testing(buf, p) => buf == Buffer(task.Current()) && p <= |task.Current()|
       case Polling(buf, p) => buf == Buffer(task.Current()) && p < |task.Current()|
       case Writing(buf, p) => buf == Buffer(task.Current()) && p < |task.Current()|
       case _ => true
  }

  /** A task is in the critical section exactly when it owns the mutex, and blocked exactly
      when it is on the waiting list. */
  ghost predicate LockOk(s: System, t: TaskId)
    requires t < |s.tasks|
  {
    && (s.tasks[t].Critical() <==> s.mutex.owner == Some(t))
    && (s.tasks[t].pc.Waiting? <==> t in s.mutex.waiters)
  }

  ghost predicate MutexOk(s: System) {
    && s.mutex.Ok() && s.mutex.count <= 1
    && (s.mutex.owner.Some? ==> s.mutex.owner.value < |s.tasks|)
    && (forall i :: 0 <= i < |s.mutex.waiters| ==> s.mutex.waiters[i] < |s.tasks|)
  }

  ghost predicate DeviceOk(u: Uart) {
    u.Ready() && |u.tx.shift| <= 1 && |u.tx.fifo| <= u.tx.depth
  }

  /** The check of the polling loop stays true until the byte is written. */
  ghost predicate PollStable(s: System) {
    forall t :: 0 <= t < |s.tasks| && s.tasks[t].pc.Writing? ==> s.uart.tx.Empty()
  }

  ghost predicate Inv(s: System) {
    && (forall t :: 0 <= t < |s.tasks| ==> TaskOk(s.tasks[t]))
    && (forall t :: 0 <= t < |s.tasks| ==> LockOk(s, t))
    && MutexOk(s)
    && DeviceOk(s.uart)
    && PollStable(s)
  }

  /** At most one task is in the critical section. */
  lemma MutualExclusion(s: System, t: TaskId, u: TaskId)
    requires Inv(s) && t < |s.tasks| && u < |s.tasks|
    requires s.tasks[t].Critical() && s.tasks[u].Critical()
    ensures t == u
  {
    assert LockOk(s, t) && LockOk(s, u);
  }

  lemma LockKeepsInv(s: System, t: TaskId)
    requires Inv(s) && Enabled(s, Lock(t))
    ensures Inv(LockStep(s, t))
  {
    var s' := LockStep(s, t);
    assert TaskOk(s.tasks[t]) && LockOk(s, t);
    OperationsKeepOk(s.mutex, t);
    forall u | 0 <= u < |s'.tasks| ensures TaskOk(s'.tasks[u]) && LockOk(s', u) {
      assert TaskOk(s.tasks[u]) && LockOk(s, u);
    }
  }

  lemma ReleaseKeepsInv(s: System, t: TaskId)
    requires Inv(s) && Enabled(s, Release(t))
    ensures Inv(ReleaseStep(s, t))
    ensures s.mutex.waiters != [] ==>
              && s.mutex.waiters[0] < |s.tasks| && s.tasks[s.mutex.waiters[0]].pc.Waiting?
              && ReleaseStep(s, t).order == s.order + [s.mutex.waiters[0]]
              && ReleaseStep(s, t).mutex.owner == Some(s.mutex.waiters[0])
    ensures s.mutex.waiters == [] ==> ReleaseStep(s, t).order == s.order && ReleaseStep(s, t).mutex.owner == None
  {
    var s' := ReleaseStep(s, t);
    assert TaskOk(s.tasks[t]) && LockOk(s, t);
    OperationsKeepOk(s.mutex, t);
    if s.mutex.waiters != [] {
      assert LockOk(s, s.mutex.waiters[0]);
    }
    forall u | 0 <= u < |s'.tasks| ensures TaskOk(s'.tasks[u]) && LockOk(s', u) {
      assert TaskOk(s.tasks[u]) && LockOk(s, u);
    }
  }

  /** A write to the port comes from the critical section, so nobody else is about to write. */
  lemma SendStepKeepsInv(s: System, t: TaskId, b: Byte, pc: Pc)
    requires Inv(s) && t < |s.tasks| && s.tasks[t].Critical()
    requires TaskOk(s.tasks[t].(pc := pc)) && s.tasks[t].(pc := pc).Critical() && !pc.Writing?
    ensures Inv(s.Send(b).SetPc(t, pc))
  {
    var s' := s.Send(b).SetPc(t, pc);
    forall u | 0 <= u < |s'.tasks| ensures TaskOk(s'.tasks[u]) && LockOk(s', u) && !s'.tasks[u].pc.Writing? {
      assert TaskOk(s.tasks[u]) && LockOk(s, u) && LockOk(s, t);
    }
  }

  /** Changing only one task's program counter, neither into nor out of the mutex. */
  lemma MoveKeepsInv(s: System, t: TaskId, task: Task)
    requires Inv(s) && t < |s.tasks| && TaskOk(task)
    requires task.Critical() == s.tasks[t].Critical()
    requires task.pc.Waiting? == s.tasks[t].pc.Waiting?
    requires task.pc.Writing? ==> s.uart.tx.Empty()
    ensures Inv(s.(tasks := s.tasks[t := task]))
  {
    var s' := s.(tasks := s.tasks[t := task]);
    forall u | 0 <= u < |s'.tasks| ensures TaskOk(s'.tasks[u]) && LockOk(s', u) {
      assert TaskOk(s.tasks[u]) && LockOk(s, u) && LockOk(s, t);
    }
  }

  lemma DrainKeepsInv(s: System)
    requires Inv(s) && Enabled(s, Drain)
    ensures Inv(Next(s, Drain))
  {
    DrainStep(s.uart.tx);
    assert s.uart.tx.DrainFor(1) == s.uart.tx.Drain();
    var s' := Next(s, Drain);
    forall u | 0 <= u < |s'.tasks| ensures LockOk(s', u) {
      assert LockOk(s, u);
    }
  }

  lemma PutKeepsInv(s: System, a: Action)
    requires Inv(s) && Enabled(s, a) && (a.Put? || a.PutCr? || a.PutLf?)
    ensures Inv(Next(s, a))
  {
    hide Uart.Outb, Uart.Full, Uart.PollReady;
    assert TaskOk(s.tasks[a.t]);
    match a
    case Put(t) =>
      var pc := s.tasks[t].pc;
      SendStepKeepsInv(s, t, pc.buf[pc.p], Testing(pc.buf, pc.p + 1));
    case PutCr(t) => SendStepKeepsInv(s, t, CR, SendingLf);
    case PutLf(t) => SendStepKeepsInv(s, t, LF, Unlocking);
  }

  lemma PollKeepsInv(s: System, t: TaskId)
    requires Inv(s) && Enabled(s, Poll(t))
    ensures Inv(Next(s, Poll(t)))
  {
    hide Uart.PollReady;
    assert TaskOk(s.tasks[t]);
    PollSeesEmpty(s.uart);
    if s.uart.PollReady() {
      MoveKeepsInv(s, t, Next(s, Poll(t)).tasks[t]);
    }
  }

  lemma LocalKeepsInv(s: System, a: Action)
    requires Inv(s) && Enabled(s, a) && (a.Invoke? || a.Format? || a.Test?)
    ensures Inv(Next(s, a))
  {
    assert TaskOk(s.tasks[a.t]);
    MoveKeepsInv(s, a.t, Next(s, a).tasks[a.t]);
  }

  lemma InvStep(s: System, a: Action)
    requires Inv(s) && Enabled(s, a)
    ensures Inv(Next(s, a))
  {
    hide Inv, LockStep, ReleaseStep, Uart.PollReady, Uart.Outb, Uart.Full;
    match a
    case Tick =>
    case Drain => DrainKeepsInv(s);
    case Lock(t) => LockKeepsInv(s, t);
    case Release(t) => ReleaseKeepsInv(s, t);
    case Poll(t) => PollKeepsInv(s, t);
    case Put(_) => PutKeepsInv(s, a);
    case PutCr(_) => PutKeepsInv(s, a);
    case PutLf(_) => PutKeepsInv(s, a);
    case _ => LocalKeepsInv(s, a);
  }

  lemma InitInv(s: System)
    requires Init(s)
    ensures Inv(s)
  {
    forall t | 0 <= t < |s.tasks| ensures LockOk(s, t) {}
  }

  /** Every reachable state satisfies the invariant; in particular mutual exclusion and the
      stability of the poll are facts about every interleaving. */
  lemma {:induction false} RunInv(s: System, actions: seq<Action>)
    requires Init(s) && Run(s, actions)
    ensures Inv(Exec(s, actions))
    decreases |actions|
  {
    if actions == [] {
      InitInv(s);
    } else {
      var n := |actions| - 1;
      RunInv(s, actions[..n]);
      InvStep(Exec(s, actions[..n]), actions[n]);
    }
  }

  /** Whatever happens between the successful poll of `t` and its write, the FIFO and the
      shift register are both empty when the byte is written. */
  lemma WritesMeetEmptyTransmitter(s: System, actions: seq<Action>, t: TaskId)
    requires Init(s) && Run(s, actions) && Enabled(Exec(s, actions), Put(t))
    ensures Exec(s, actions).uart.tx.Empty()
  {
    RunInv(s, actions);
  }
}
