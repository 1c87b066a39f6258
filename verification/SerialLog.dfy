/**
 `log_init` and `log_printf` as the kernel runs them, statement by statement, with other tasks
 and the device running in between. The ghost run shows that each call is part of a run of the
 protocol, so everything proved of runs holds of it.
 */
module SerialLog {
  import opened SerialDevice
  import opened Framing
  import opened Mutex
  import opened LogProtocol
  import opened LogOrder
  import opened LogFifo
  import opened LogProgress
  import opened LogService
  import opened Options

  /** Tasks that have not called `log_printf` yet. */
  function Starting(progs: seq<seq<Text>>): (tasks: seq<Task>)
    ensures |tasks| == |progs| && forall t :: 0 <= t < |progs| ==> tasks[t] == Task(progs[t], 0, Idle)
  {
    seq(|progs|, t requires 0 <= t < |progs| => Task(progs[t], 0, Idle))
  }

  // ---------------------------------------------------------------- what others can do

  predicate Foreign(a: Action, t: TaskId) {
    a.Tick? || a.Drain? || a.t != t
  }

  /** What steps of other tasks and of the device cannot change for `t`. */
  ghost predicate Undisturbed(s: System, s': System, t: TaskId)
    requires t < |s.tasks|
  {
    && |s'.tasks| == |s.tasks| && s.port <= s'.port && s.order <= s'.order
    && s'.tasks[t].prog == s.tasks[t].prog && s'.tasks[t].next == s.tasks[t].next
    && (!s.tasks[t].pc.Waiting? ==> s'.tasks[t] == s.tasks[t])
    && (s.mutex.owner == Some(t) ==>
          && s'.mutex.owner == Some(t) && s'.port == s.port && s'.order == s.order
          && s'.uart.tx.Work() <= s.uart.tx.Work())
  }

  lemma PortGrows(s: System, a: Action)
    requires Enabled(s, a)
    ensures s.port <= Next(s, a).port
  {
    hide Uart.Outb, Uart.PollReady, Uart.Full;
  }

  /** The device and the tasks outside the critical section leave the owner's work alone. */
  lemma OwnerUndisturbed(s: System, a: Action, t: TaskId)
    requires Inv(s) && Enabled(s, a) && Foreign(a, t) && s.mutex.owner == Some(t)
    ensures var s' := Next(s, a);
            && s'.mutex.owner == Some(t) && s'.port == s.port && s'.order == s.order
            && s'.uart.tx.Work() <= s.uart.tx.Work()
  {
    hide Uart.Outb, Uart.PollReady, Uart.Full, ReleaseStep;
    if a.Drain? {
      DrainStep(s.uart.tx);
      assert s.uart.tx.DrainFor(1) == s.uart.tx.Drain();
    } else if !a.Tick? {
      assert LockOk(s, a.t) && LockOk(s, t);
    }
  }

  lemma ForeignStep(s: System, a: Action, t: TaskId)
    requires Inv(s) && Enabled(s, a) && Foreign(a, t) && t < |s.tasks|
    ensures Undisturbed(s, Next(s, a), t)
  {
    hide Next, Enabled, Inv;
    PortGrows(s, a);
    GrantedOrder(s, a);
    ForeignTask(s, a, t);
    if s.mutex.owner == Some(t) {
      OwnerUndisturbed(s, a, t);
    }
  }

  lemma ForeignTask(s: System, a: Action, t: TaskId)
    requires Inv(s) && Enabled(s, a) && Foreign(a, t) && t < |s.tasks|
    ensures |Next(s, a).tasks| == |s.tasks|
    ensures Next(s, a).tasks[t].prog == s.tasks[t].prog && Next(s, a).tasks[t].next == s.tasks[t].next
    ensures !s.tasks[t].pc.Waiting? ==> Next(s, a).tasks[t] == s.tasks[t]
  {
    if !s.tasks[t].pc.Waiting? {
      OthersLeaveAlone(s, a, t);
    } else if a.Release? {
      ReleaseTasks(s, a.t);
    } else if a.Lock? {
      LockStepFrame(s, a.t);
    } else if !a.Tick? && !a.Drain? {
      OtherStepFrame(s, a);
    }
  }

  lemma MutexStep(s: System, a: Action)
    requires Enabled(s, a)
    ensures Next(s, a).mutex == match a
                                case Lock(t) => s.mutex.Lock(t)
                                case Release(t) => s.mutex.Unlock(t)
                                case _ => s.mutex
  {
    hide Uart.Outb, Uart.PollReady, Uart.Full;
  }

  lemma OwnsIfCritical(s: System, t: TaskId)
    requires Inv(s) && t < |s.tasks| && s.tasks[t].Critical()
    ensures s.mutex.owner == Some(t)
  {
    assert LockOk(s, t);
  }

  lemma OkAt(s: System, t: TaskId)
    requires Inv(s) && t < |s.tasks|
    ensures TaskOk(s.tasks[t])
  {
  }

  lemma DrainLowersWork(s: System)
    requires Inv(s) && Enabled(s, Drain)
    ensures Next(s, Drain).uart.tx.Work() < s.uart.tx.Work()
  {
    DrainStep(s.uart.tx);
    assert s.uart.tx.DrainFor(1) == s.uart.tx.Drain();
  }

  lemma WaitingPc(s: System, a: Action, t: TaskId)
    requires Inv(s) && Enabled(s, a) && Foreign(a, t) && t < |s.tasks| && s.tasks[t].pc.Waiting?
    ensures |Next(s, a).tasks| == |s.tasks|
    ensures Next(s, a).tasks[t].pc == s.tasks[t].pc || Next(s, a).tasks[t].pc == Testing(s.tasks[t].pc.buf, 0)
  {
    if a.Release? {
      ReleaseTasks(s, a.t);
    } else if a.Lock? {
      LockStepFrame(s, a.t);
    } else if !a.Tick? && !a.Drain? {
      OtherStepFrame(s, a);
    }
  }

  lemma RelevantIsForeign(s: System, t: TaskId)
    requires Inv(s) && t < |s.tasks| && s.tasks[t].pc.Waiting?
    ensures Foreign(Relevant(s, t), t)
  {
    HasOwner(s, t);
    assert LockOk(s, t);
  }

  /** A step while `t` waits brings its turn closer or is not the one it is waiting for. */
  lemma WaitingStep(s: System, a: Action, t: TaskId)
    requires Inv(s) && Enabled(s, a) && t < |s.tasks| && s.tasks[t].pc.Waiting?
    requires Foreign(a, t) || a == Relevant(s, t)
    ensures Foreign(a, t) && Undisturbed(s, Next(s, a), t)
    ensures Next(s, a).tasks[t].pc == s.tasks[t].pc || Next(s, a).tasks[t].pc == Testing(s.tasks[t].pc.buf, 0)
    ensures Inv(Next(s, a))
    ensures RankOf(Next(s, a), t).Below(RankOf(s, t)) || (RankOf(Next(s, a), t) == RankOf(s, t) && a != Relevant(s, t))
  {
    hide RankOf, Next, Enabled, Inv, Relevant;
    RelevantIsForeign(s, t);
    ServiceStep(s, Act(a), t);
    ForeignStep(s, a, t);
    WaitingPc(s, a, t);
  }

  /** With one more line granted, and its task outside again, that line is the last thing on the
      port, behind the line that was unfinished before. */
  lemma OneMoreLine(was: System, now: System, t: TaskId)
    requires Good(was) && was.port + Pending(was) == Render(Lines(was))
    requires Good(now) && now.port + Pending(now) == Render(Lines(now))
    requires Progs(now) == Progs(was) && now.order == was.order + [t]
    requires t < |now.tasks| && now.tasks[t].pc.Idle? && now.tasks[t].next > 0
    ensures now.mutex.Free()
    ensures now.port == was.port + Pending(was) + now.tasks[t].prog[now.tasks[t].next - 1] + [13, 10]
  {
    hide Legal, OrderTexts, Count, Render;
    assert LockOk(now, t) && TaskOk(now.tasks[t]);
    assert (was.order + [t])[..|was.order|] == was.order;
    LastText(Progs(now), now.order, was.order, t);
    assert Progs(now)[t] == now.tasks[t].prog;
    var m := now.tasks[t].prog[now.tasks[t].next - 1];
    RenderLast(Lines(was), m);
    assert Render(Lines(was)) + Line(m) == Render(Lines(was)) + m + [13, 10];
    assert Lines(now) == Lines(was) + [now.tasks[t].prog[now.tasks[t].next - 1]];
  }

  lemma RenderLast(ms: seq<Text>, m: Text)
    ensures Render(ms + [m]) == Render(ms) + Line(m)
  {
    assert (ms + [m])[..|ms|] == ms;
  }

  class Logger {
    var uart: Uart
    const mutex: KernelMutex
    /** The tasks, and what they have done so far. */
    var sys: System
    /** How long the device or another task may still keep a caller waiting; set anew whenever
        it has moved, so that delays are finite but without a bound. */
    var patience: nat

    ghost var start: System
    ghost var run: seq<Action>

    /** The kernel state is where the ghost run has led. */
    ghost predicate Valid()
      reads this, mutex
    {
      && Init(start) && Run(start, run) && sys == Exec(start, run) && Inv(sys)
      && uart == sys.uart && mutex.State() == sys.mutex
    }

    constructor (u: Uart, patience: nat)
      requires |u.tx.shift| <= 1
      ensures uart == u && fresh(mutex)
    {
      uart := u;
      sys := System([], UNLOCKED, u, [], [], 0);
      mutex := new KernelMutex();
      this.patience := patience;
    }

    /** Any number of steps of the device, then write `k` of the initialisation. */
    method OutAfter(reg: nat, v: Byte, ghost u: Uart, ghost k: nat, ghost pauses: seq<nat>) returns (ghost longer: seq<nat>)
      requires k < |INIT_WRITES| && INIT_WRITES[k] == (reg, v)
      requires |pauses| == k && uart == WriteAll(u, INIT_WRITES[..k], pauses)
      modifies this`uart
      ensures |longer| == k + 1 && uart == WriteAll(u, INIT_WRITES[..k + 1], longer)
    {
      hide Uart.Outb, Uart.Elapse;
      var pause: nat := *;
      WriteOneMore(u, INIT_WRITES[..k], pauses, reg, v, pause);
      assert INIT_WRITES[..k + 1] == INIT_WRITES[..k] + [INIT_WRITES[k]];
      longer := pauses + [pause];
      uart := uart.Elapse(pause);
      uart := uart.Outb(reg, v);
    }

    /** The writes to COM1. */
    method SetUpDevice()
      modifies this`uart
      ensures exists pauses: seq<nat> :: |pauses| == 7 && uart ==
                WriteAll(old(uart), [(1, 0x00), (3, 0x80), (0, 0x03), (1, 0x00), (3, 0x03), (2, 0xC7), (4, 0x0F)], pauses)
    {
      hide Uart.Outb, Uart.Elapse, WriteAll;
      ghost var u := uart;
      NothingWritten(u);
      ghost var pauses := OutAfter(1, 0x00, u, 0, []);
      pauses := OutAfter(3, 0x80, u, 1, pauses);
      pauses := OutAfter(0, 0x03, u, 2, pauses);
      pauses := OutAfter(1, 0x00, u, 3, pauses);
      pauses := OutAfter(3, 0x03, u, 4, pauses);
      pauses := OutAfter(2, 0xC7, u, 5, pauses);
      pauses := OutAfter(4, 0x0F, u, 6, pauses);
      assert INIT_WRITES[..7] == INIT_WRITES;
    }

    /** Whatever state the device and the mutex were in, they end up set up as the logger needs
        them, and the protocol starts here. */
    method LogInit(progs: seq<seq<Text>>)
      requires |uart.tx.shift| <= 1
      modifies this, mutex
      ensures Valid() && run == [] && sys.tasks == Starting(progs)
      ensures exists pauses: seq<nat> :: |pauses| == 7 && uart ==
                WriteAll(old(uart), [(1, 0x00), (3, 0x80), (0, 0x03), (1, 0x00), (3, 0x03), (2, 0xC7), (4, 0x0F)], pauses)
      ensures Initialised(uart) && uart.tx.depth == old(uart).tx.depth
      ensures InterruptsOff(uart) <==> !old(uart).Dlab() || InterruptsOff(old(uart))
    {
      hide Uart.Outb, Uart.Elapse;
      SetUpDevice();
      ghost var pauses: seq<nat> :| |pauses| == 7 && uart ==
        WriteAll(old(uart), [(1, 0x00), (3, 0x80), (0, 0x03), (1, 0x00), (3, 0x03), (2, 0xC7), (4, 0x0F)], pauses);
      InitialisationEstablishes(old(uart), pauses);
      mutex.Init();
      sys := System(Starting(progs), UNLOCKED, uart, [], [], 0);
      start := sys;
      run := [];
      InitInv(start);
    }

    // -------------------------------------------------------------- steps of the protocol

    /** Records that the statement just executed is a step of the protocol. */
    method Took(a: Action)
      requires Init(start) && Run(start, run) && sys == Exec(start, run) && Inv(sys)
      requires Enabled(sys, a)
      modifies this`run, this`sys
      ensures Run(start, run) && sys == Exec(start, run) && Inv(sys)
      ensures sys == Next(old(sys), a) && run == old(run) + [a]
    {
      RunStep(start, run, a);
      InvStep(sys, a);
      run := run + [a];
      sys := Next(sys, a);
    }

    /** A step of another task, or of the device. */
    method Perform(a: Action)
      requires Valid() && Enabled(sys, a)
      modifies this`uart, this`run, this`sys, mutex
      ensures Valid() && sys == Next(old(sys), a) && run == old(run) + [a]
    {
      hide Run, Exec, Init, Uart.PollReady, Uart.Outb, Uart.Full;
      if a.Lock? {
        var blocked := mutex.Lock(a.t);
      } else if a.Release? {
        var woken := mutex.Unlock(a.t);
      }
      MutexStep(sys, a);
      Took(a);
      uart := sys.uart;
    }

    /** Any number of such steps, while `t` does nothing. */
    method Others(t: TaskId)
      requires Valid() && t < |sys.tasks|
      modifies this`uart, this`run, this`sys, mutex
      ensures Valid() && old(run) <= run && Undisturbed(old(sys), sys, t)
    {
      hide Run, Exec, Init, Inv, Next, Enabled;
      var n: nat := *;
      while n > 0
        invariant Valid() && old(run) <= run && Undisturbed(old(sys), sys, t)
      {
        var a: Action := *;
        if Enabled(sys, a) && Foreign(a, t) {
          ForeignStep(sys, a, t);
          Perform(a);
        }
        n := n - 1;
      }
    }

    /** Blocked in `mutex_lock` until another task hands the mutex over. It ends because every
        task and the device go on after finite delays and the list is served in order. */
    method AwaitGrant(t: TaskId)
      requires Valid() && t < |sys.tasks| && sys.tasks[t].pc.Waiting?
      modifies this, mutex
      ensures Valid() && start == old(start) && old(run) <= run && Undisturbed(old(sys), sys, t)
      ensures sys.tasks[t].pc == Testing(old(sys).tasks[t].pc.buf, 0)
    {
      hide Run, Exec, Init, Inv, Next, Enabled, Steady, RankOf, Relevant;
      while sys.tasks[t].pc.Waiting?
        invariant Valid() && start == old(start) && old(run) <= run && Undisturbed(old(sys), sys, t)
        invariant sys.tasks[t].pc == old(sys).tasks[t].pc || sys.tasks[t].pc == Testing(old(sys).tasks[t].pc.buf, 0)
        decreases RankOf(sys, t).phase, RankOf(sys, t).ahead, RankOf(sys, t).work, patience
      {
        var wanted, a: Action := Relevant(sys, t), *;
        RelevantIsProductive(sys, t);
        if patience == 0 || !Enabled(sys, a) || !Foreign(a, t) {
          a := wanted;
        }
        WaitingStep(sys, a, t);
        if a == wanted {
          patience := *;
        } else {
          patience := patience - 1;
        }
        Perform(a);
      }
    }

    // -------------------------------------------------------------- log_printf

    /** One turn of the polling loop. A device that is not empty either moves or uses up
        some of its patience. */
    method Poll(t: TaskId) returns (ready: bool)
      requires Valid() && t < |sys.tasks| && sys.tasks[t].pc.Polling?
      modifies this, mutex
      ensures Valid() && start == old(start) && old(run) <= run && |sys.tasks| == |old(sys).tasks|
      ensures sys.port == old(sys).port && sys.order == old(sys).order
      ensures var task := old(sys).tasks[t];
              sys.tasks[t] == if ready then task.(pc := Writing(task.pc.buf, task.pc.p)) else task
      ensures !ready ==> || uart.tx.Work() < old(uart).tx.Work()
                         || (uart.tx.Work() == old(uart).tx.Work() && patience < old(patience))
    {
      hide Run, Exec, Init, Uart.PollReady, Uart.Outb, Uart.Full, LockStep, ReleaseStep;
      OwnsIfCritical(sys, t);
      Others(t);
      var moves: bool := *;
      if !uart.tx.Empty() && (patience == 0 || moves) {
        DrainLowersWork(sys);
        ForeignStep(sys, Drain, t);
        Perform(Drain);
        patience := *;
      } else if patience > 0 {
        patience := patience - 1;
      }
      ready := uart.PollReady();
      PollSeesEmpty(uart);
      Took(LogProtocol.Poll(t));
    }

    /** The polling loop. It ends because the device's delays are finite. */
    method PollUntilReady(t: TaskId)
      requires Valid() && t < |sys.tasks| && sys.tasks[t].pc.Polling?
      modifies this, mutex
      ensures Valid() && start == old(start) && old(run) <= run && |sys.tasks| == |old(sys).tasks|
      ensures sys.port == old(sys).port && sys.order == old(sys).order
      ensures var task := old(sys).tasks[t]; sys.tasks[t] == task.(pc := Writing(task.pc.buf, task.pc.p))
    {
      hide Run, Exec, Init, Inv;
      var ready := false;
      while !ready
        invariant Valid() && start == old(start) && old(run) <= run && |sys.tasks| == |old(sys).tasks|
        invariant sys.port == old(sys).port && sys.order == old(sys).order
        invariant var task := old(sys).tasks[t];
                  sys.tasks[t] == if ready then task.(pc := Writing(task.pc.buf, task.pc.p)) else task
        decreases !ready, uart.tx.Work(), patience
      {
        ready := Poll(t);
      }
    }

    /** A write to the port by the owner of the mutex, after any steps of the others. The check
        of the polling loop stays true meanwhile. */
    method WritePort(t: TaskId, b: Byte, a: Action)
      requires Valid() && t < |sys.tasks| && Enabled(sys, a)
      requires || (a == PutCr(t) && b == CR) || (a == PutLf(t) && b == LF)
               || (a == Put(t) && b == sys.tasks[t].pc.buf[sys.tasks[t].pc.p])
      modifies this, mutex
      ensures Valid() && start == old(start) && old(run) <= run && |sys.tasks| == |old(sys).tasks|
      ensures sys.port == old(sys).port + [b] && sys.order == old(sys).order
      ensures sys.tasks[t] == Next(old(sys), a).tasks[t]
    {
      hide Run, Exec, Init, Uart.PollReady, Uart.Outb, Uart.Full, LockStep, ReleaseStep;
      OwnsIfCritical(sys, t);
      Others(t);
      uart := uart.Outb(0, b);
      Took(a);
    }

    /** The buffer as `kernel_memset` and the formatter leave it. */
    method FormatBuffer(text: seq<Byte>) returns (strBuf: array<Byte>)
      requires |text| < 128 && 0 !in text
      ensures fresh(strBuf) && strBuf.Length == 128 && strBuf[..] == Buffer(text)
      ensures strBuf[..|text|] == text && forall k :: |text| <= k < 128 ==> strBuf[k] == 0
    {
      strBuf := new Byte[BUFFER_SIZE](_ => 0);
      var i := 0;
      while i < |text|
        invariant 0 <= i <= |text|
        invariant forall k :: 0 <= k < i ==> strBuf[k] == text[k]
        invariant forall k :: i <= k < BUFFER_SIZE ==> strBuf[k] == 0
      {
        strBuf[i] := text[i];
        i := i + 1;
      }
    }

    /** One round of the loop over the buffer, its NUL test having succeeded. */
    method WriteByte(t: TaskId, text: Text, b: Byte)
      requires Valid() && t < |sys.tasks| && TaskOk(sys.tasks[t]) && sys.tasks[t].pc.Testing?
      requires sys.tasks[t].Current() == text && sys.tasks[t].pc.p < |text| && b == text[sys.tasks[t].pc.p]
      modifies this, mutex
      ensures Valid() && start == old(start) && old(run) <= run && |sys.tasks| == |old(sys).tasks|
      ensures sys.port == old(sys).port + [b] && sys.order == old(sys).order
      ensures sys.tasks[t] == old(sys).tasks[t].(pc := Testing(Buffer(text), old(sys).tasks[t].pc.p + 1))
    {
      hide Run, Exec, Init, Inv, LockStep, ReleaseStep, Uart.Outb, Uart.PollReady, Uart.Full;
      ghost var p := sys.tasks[t].pc.p;
      assert Buffer(text)[p] == Buffer(text)[..|text|][p];
      Took(Test(t));
      PollUntilReady(t);
      WritePort(t, b, Put(t));
    }

    /** The loop over the buffer: poll, write, advance, until the NUL. */
    method WriteText(t: TaskId, text: Text, strBuf: array<Byte>)
      requires Valid() && t < |sys.tasks| && strBuf[..] == Buffer(text)
      requires TaskOk(sys.tasks[t]) && sys.tasks[t].pc == Testing(Buffer(text), 0) && sys.tasks[t].Current() == text
      modifies this, mutex
      ensures Valid() && start == old(start) && old(run) <= run && |sys.tasks| == |old(sys).tasks|
      ensures sys.port == old(sys).port + text && sys.order == old(sys).order
      ensures sys.tasks[t] == old(sys).tasks[t].(pc := SendingCr)
    {
      hide Run, Exec, Init, Inv, LockStep, ReleaseStep, Uart.Outb, Uart.PollReady, Uart.Full;
      ghost var buf := Buffer(text);
      var p := 0;
      while strBuf[p] != 0
        invariant 0 <= p <= |text| && strBuf[..] == buf
        invariant Valid() && start == old(start) && old(run) <= run && |sys.tasks| == |old(sys).tasks|
        invariant sys.port == old(sys).port + text[..p] && sys.order == old(sys).order
        invariant sys.tasks[t] == old(sys).tasks[t].(pc := Testing(buf, p))
        decreases |text| - p
      {
        assert strBuf[p] == strBuf[..][p] == buf[p] == buf[..|text|][p];
        WriteByte(t, text, strBuf[p]);
        assert text[..p] + [text[p]] == text[..p + 1];
        p := p + 1;
      }
      assert strBuf[p] == strBuf[..][p] == buf[p] && text[..p] == text;
      Took(Test(t));
    }

    /** Entering the call, up to and including `mutex_lock`. */
    method EnterCall(t: TaskId, text: Text) returns (strBuf: array<Byte>)
      requires Valid() && t < |sys.tasks|
      requires sys.tasks[t].pc.Idle? && sys.tasks[t].next < |sys.tasks[t].prog|
      requires sys.tasks[t].prog[sys.tasks[t].next] == text
      modifies this, mutex
      ensures Valid() && start == old(start) && old(run) <= run && |sys.tasks| == |old(sys).tasks|
      ensures fresh(strBuf) && strBuf[..] == Buffer(text)
      ensures old(sys).port <= sys.port && old(sys).order <= sys.order
      ensures sys.tasks[t] == Task(old(sys).tasks[t].prog, old(sys).tasks[t].next + 1, Testing(Buffer(text), 0))
      ensures TaskOk(sys.tasks[t])
    {
      hide Run, Exec, Init, Inv, Next, Enabled, Uart.PollReady, Uart.Outb, Uart.Full;
      StartCall(t);
      strBuf := FormatBuffer(text);
      FormatCall(t, text);
      TakeMutex(t);
      assert Valid();
      OkAt(sys, t);
    }

    method StartCall(t: TaskId)
      requires Valid() && t < |sys.tasks|
      requires sys.tasks[t].pc.Idle? && sys.tasks[t].next < |sys.tasks[t].prog|
      modifies this, mutex
      ensures Valid() && start == old(start) && old(run) <= run && |sys.tasks| == |old(sys).tasks|
      ensures old(sys).port <= sys.port && old(sys).order <= sys.order
      ensures sys.tasks[t] == Task(old(sys).tasks[t].prog, old(sys).tasks[t].next + 1, Entered)
    {
      hide Run, Exec, Init, Inv, ReleaseStep, LockStep, Uart.PollReady, Uart.Outb, Uart.Full;
      Others(t);
      Took(Invoke(t));
    }

    method FormatCall(t: TaskId, text: Text)
      requires Valid() && t < |sys.tasks|
      requires sys.tasks[t].pc.Entered? && sys.tasks[t].InCall() && sys.tasks[t].Current() == text
      modifies this, mutex
      ensures Valid() && start == old(start) && old(run) <= run && |sys.tasks| == |old(sys).tasks|
      ensures old(sys).port <= sys.port && old(sys).order <= sys.order
      ensures sys.tasks[t] == old(sys).tasks[t].(pc := Locking(Buffer(text)))
    {
      hide Run, Exec, Init, Inv, ReleaseStep, LockStep, Uart.PollReady, Uart.Outb, Uart.Full;
      Others(t);
      Took(Format(t));
    }

    /** `mutex_lock`, with the wait if another task owns the mutex. */
    method TakeMutex(t: TaskId)
      requires Valid() && t < |sys.tasks| && sys.tasks[t].pc.Locking?
      modifies this, mutex
      ensures Valid() && start == old(start) && old(run) <= run && |sys.tasks| == |old(sys).tasks|
      ensures old(sys).port <= sys.port && old(sys).order <= sys.order
      ensures sys.tasks[t] == old(sys).tasks[t].(pc := Testing(old(sys).tasks[t].pc.buf, 0))
    {
      hide Run, Exec, Init, ReleaseStep, Uart.PollReady, Uart.Outb, Uart.Full;
      Others(t);
      assert LockOk(sys, t);
      var blocked := mutex.Lock(t);
      Took(Lock(t));
      if blocked {
        AwaitGrant(t);
      }
    }

    /** `mutex_unlock`, and the return from the call. */
    method LeaveCall(t: TaskId)
      requires Valid() && t < |sys.tasks| && sys.tasks[t].pc.Unlocking?
      modifies this, mutex
      ensures Valid() && start == old(start) && old(run) <= run && |sys.tasks| == |old(sys).tasks|
      ensures sys.port == old(sys).port && old(sys).order <= sys.order
      ensures sys.tasks[t] == old(sys).tasks[t].(pc := Idle)
    {
      hide Run, Exec, Init, Uart.Outb, Uart.PollReady, Uart.Full, LockStep;
      OwnsIfCritical(sys, t);
      Others(t);
      ReleaseTasks(sys, t);
      ReleaseGrants(sys, t);
      var woken := mutex.Unlock(t);
      Took(Release(t));
    }

    /** CR and LF go out without a poll, then the mutex is released. */
    method EndCall(t: TaskId)
      requires Valid() && t < |sys.tasks| && sys.tasks[t].pc.SendingCr?
      modifies this, mutex
      ensures Valid() && start == old(start) && old(run) <= run && |sys.tasks| == |old(sys).tasks|
      ensures sys.port == old(sys).port + [13, 10] && old(sys).order <= sys.order
      ensures sys.tasks[t] == old(sys).tasks[t].(pc := Idle)
    {
      hide Run, Exec, Init, Inv, Uart.Outb, Uart.PollReady, Uart.Full, LockStep, ReleaseStep;
      ghost var before := sys.port;
      WritePort(t, CR, PutCr(t));
      WritePort(t, LF, PutLf(t));
      LeaveCall(t);
      assert before + [CR] + [LF] == before + [13, 10];
    }

    /** What the run theorems say of the state after a call. */
    lemma DeviceHoldsLines(t: TaskId)
      requires Valid() && t < |sys.tasks| && sys.tasks[t].pc.Idle?
      ensures Good(sys)
      ensures MessagesOf(sys.order, Lines(sys), t) == sys.tasks[t].prog[..sys.tasks[t].next]
      ensures sys.port + Pending(sys) == Render(Lines(sys))
      ensures MaxBacklog(Lines(sys)) <= uart.tx.depth ==> uart.tx.Stream() == start.uart.tx.Stream() + sys.port
    {
      hide Run, Exec, Init, Legal, OrderTexts, Count;
      RunGood(start, run);
      RunOutput(start, run);
      NothingLost(start, run);
      Fidelity(start, run);
      ProgramOrder(Progs(sys), sys.order, t);
      assert Progs(sys)[t] == sys.tasks[t].prog;
    }

    /** What the run theorems say when no other line was granted since the state `was`. */
    lemma AloneAddsLine(t: TaskId, was: System, wasRun: seq<Action>)
      requires Valid() && t < |sys.tasks| && sys.tasks[t].pc.Idle? && sys.tasks[t].next > 0
      requires Run(start, wasRun) && was == Exec(start, wasRun) && sys.order == was.order + [t]
      ensures Inv(was) && sys.tasks[t].next <= |sys.tasks[t].prog| && mutex.State().Free()
      ensures sys.port == was.port + Pending(was) + sys.tasks[t].prog[sys.tasks[t].next - 1] + [13, 10]
    {
      hide Run, Exec, Init, Good, Legal, OrderTexts, Count;
      RunGood(start, wasRun);
      RunOutput(start, wasRun);
      RunGood(start, run);
      RunOutput(start, run);
      OkAt(sys, t);
      OneMoreLine(was, sys, t);
    }

    /** A call of `log_printf` by task `t`, whoever else logs meanwhile: it returns, having added
        its line to the port as the last one and in one piece, and is part of a run of the
        protocol. As long as the backlog of the lines so far fits the FIFO, the device holds
        all that was written. */
    method LogPrintf(t: TaskId, text: Text)
      requires Valid() && t < |sys.tasks|
      requires sys.tasks[t].pc.Idle? && sys.tasks[t].next < |sys.tasks[t].prog|
      requires sys.tasks[t].prog[sys.tasks[t].next] == text
      modifies this, mutex
      ensures Valid() && start == old(start) && old(run) <= run && |sys.tasks| == |old(sys).tasks|
      ensures sys.tasks[t] == old(sys).tasks[t].(next := old(sys).tasks[t].next + 1)
      ensures exists before :: old(sys).port <= before && sys.port == before + text + [13, 10]
      ensures Good(sys) && sys.port + Pending(sys) == Render(Lines(sys))
      ensures MessagesOf(sys.order, Lines(sys), t) == sys.tasks[t].prog[..sys.tasks[t].next]
      ensures MaxBacklog(Lines(sys)) <= uart.tx.depth ==> uart.tx.Stream() == start.uart.tx.Stream() + sys.port
      ensures Inv(old(sys)) && (sys.order == old(sys).order + [t] ==>
                mutex.State().Free() && sys.port == old(sys).port + Pending(old(sys)) + text + [13, 10])
    {
      hide Run, Exec, Init, Inv, Good, Legal, Uart.PollReady, Uart.Outb, Uart.Full, Pending, Render, Lines, MaxBacklog, MessagesOf;
      var strBuf := EnterCall(t, text);
      ghost var before := sys.port;
      WriteText(t, text, strBuf);
      EndCall(t);
      DeviceHoldsLines(t);
      if sys.order == old(sys).order + [t] {
        AloneAddsLine(t, old(sys), old(run));
      }
    }
  }
}
