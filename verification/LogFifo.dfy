/**
 Why CR and LF may go unpolled: how full the transmit FIFO can get, and exactly when a byte
 can be lost.
 */
module LogFifo {
  import opened Options
  import opened SerialDevice
  import opened Framing
  import opened Mutex
  import opened LogProtocol
  import opened LogOrder

  // ---------------------------------------------------------------- backlog of a line order

  /** A message with text waits for an empty transmitter before each byte, so only its last
      byte can still be in the FIFO when CR and LF follow; an empty one waits for nothing. */
  function NextBacklog(b: nat, m: seq<Byte>): nat {
    if m == [] then b + 2 else 3
  }

  /** The most the FIFO can hold after these lines. */
  function Backlog(ms: seq<seq<Byte>>): nat {
    if ms == [] then 0 else NextBacklog(Backlog(ms[..|ms| - 1]), ms[|ms| - 1])
  }

  function Max(a: int, b: int): int {
    if a < b then b else a
  }

  function MaxBacklog(ms: seq<seq<Byte>>): (b: nat)
    ensures Backlog(ms) <= b
  {
    if ms == [] then 0 else Max(MaxBacklog(ms[..|ms| - 1]), Backlog(ms))
  }

  lemma BacklogAppend(ms: seq<seq<Byte>>, m: seq<Byte>)
    ensures Backlog(ms + [m]) == NextBacklog(Backlog(ms), m)
    ensures MaxBacklog(ms + [m]) == Max(MaxBacklog(ms), NextBacklog(Backlog(ms), m))
  {
    assert (ms + [m])[..|ms|] == ms;
  }

  lemma BacklogLast(ms: seq<seq<Byte>>)
    requires ms != []
    ensures Backlog(ms) == NextBacklog(Backlog(ms[..|ms| - 1]), ms[|ms| - 1])
    ensures Backlog(ms[..|ms| - 1]) <= MaxBacklog(ms[..|ms| - 1]) <= MaxBacklog(ms)
  {
  }

  // ---------------------------------------------------------------- the bound

  /** What holds of every reachable state beyond the control invariant. */
  ghost predicate Good(e: System) {
    && Inv(e) && Legal(Progs(e), e.order)
    && (forall t :: 0 <= t < |e.tasks| ==> e.tasks[t].Taken() == Count(e.order, t))
    && OwnerIsLast(e)
  }

  lemma RunGood(s: System, actions: seq<Action>)
    requires Init(s) && Run(s, actions)
    ensures Good(Exec(s, actions))
  {
    RunOutput(s, actions);
    LastGrantedIsOwner(s, actions);
  }

  /** How full the FIFO can be while the owner of the mutex stands at `pc`, `before` being the
      backlog of the lines before its own. */
  function PcLevel(before: nat, pc: Pc, m: seq<Byte>): nat {
    var base := if m == [] then before else 1;
    match pc
    case Testing(_, p) => if p == 0 then before else 1
    case Polling(_, p) => if p == 0 then before else 1
    case Writing(_, _) => 0
    case SendingCr => base
    case SendingLf => base + 1
    case _ => base + 2
  }

  ghost function Level(e: System): nat
    requires Good(e)
  {
    match e.mutex.owner
    case None => Backlog(Lines(e))
    case Some(t) =>
      assert LockOk(e, t) && TaskOk(e.tasks[t]);
      PcLevel(Backlog(Lines(e)[..|e.order| - 1]), e.tasks[t].pc, e.tasks[t].Current())
  }

  /** The last line of the order is the owner's. */
  lemma OwnersLine(e: System)
    requires Good(e) && e.mutex.owner.Some?
    ensures var t := e.mutex.owner.value;
            && TaskOk(e.tasks[t]) && e.tasks[t].Critical()
            && Lines(e)[|e.order| - 1] == e.tasks[t].Current()
            && Backlog(Lines(e)) == NextBacklog(Backlog(Lines(e)[..|e.order| - 1]), e.tasks[t].Current())
  {
    hide Legal, Count, OrderTexts;
    var t, n := e.mutex.owner.value, |e.order| - 1;
    assert LockOk(e, t) && TaskOk(e.tasks[t]);
    LastText(Progs(e), e.order, e.order[..n], t);
  }

  /** The owner writes only while there is room below the backlog of the lines so far. */
  lemma LevelWithinBacklog(e: System)
    requires Good(e)
    ensures Level(e) <= MaxBacklog(Lines(e))
    ensures e.mutex.owner.Some? ==>
              var pc := e.tasks[e.mutex.owner.value].pc;
              && (pc.Writing? || pc.SendingCr? || pc.SendingLf? ==> Level(e) < Backlog(Lines(e)))
              && (pc.Unlocking? ==> Level(e) == Backlog(Lines(e)))
  {
    hide Legal, OrderTexts, Count, Progs, Backlog, MaxBacklog;
    if e.mutex.owner.Some? {
      OwnersLine(e);
      BacklogLast(Lines(e));
    }
  }

  lemma LinesStep(e: System, a: Action)
    requires Good(e) && Enabled(e, a) && Good(Next(e, a))
    ensures match Granted(e, a)
            case None => Lines(Next(e, a)) == Lines(e)
            case Some(g) =>
              && Next(e, a).order == e.order + [g]
              && Lines(Next(e, a))[..|e.order|] == Lines(e)
  {
    GrantedOrder(e, a);
    match Granted(e, a)
    case None => assert e.order + [] == e.order;
    case Some(g) =>
      assert (e.order + [g])[..|e.order|] == e.order;
  }

  lemma LockLevel(e: System, t: TaskId)
    requires Good(e) && Enabled(e, Lock(t)) && Good(Next(e, Lock(t))) && e.mutex.Free()
    ensures Level(Next(e, Lock(t))) == Level(e) && Next(e, Lock(t)).uart == e.uart
  {
    hide Legal, OrderTexts, Count, Progs, Uart.PollReady;
    LinesStep(e, Lock(t));
    assert LockOk(e, t) && TaskOk(e.tasks[t]);
  }

  lemma HandoverLevel(e: System, t: TaskId)
    requires Good(e) && Enabled(e, Release(t)) && Good(Next(e, Release(t))) && e.mutex.waiters != []
    ensures Level(Next(e, Release(t))) == Level(e) && Next(e, Release(t)).uart == e.uart
  {
    hide Legal, OrderTexts, Count, Progs, Backlog, MaxBacklog, Uart.PollReady, Uart.Outb, Uart.Full, LockStep;
    assert LockOk(e, t) && TaskOk(e.tasks[t]);
    LinesStep(e, Release(t));
    LevelWithinBacklog(e);
    ReleaseKeepsInv(e, t);
    assert LockOk(e, e.mutex.waiters[0]);
  }

  lemma GrantLevel(e: System, a: Action)
    requires Good(e) && Enabled(e, a) && Good(Next(e, a)) && Granted(e, a).Some?
    ensures Level(Next(e, a)) == Level(e) && Next(e, a).uart == e.uart
  {
    hide Level, Next, Inv;
    if a.Lock? {
      LockLevel(e, a.t);
    } else {
      HandoverLevel(e, a.t);
    }
  }

  lemma SilentLevel(e: System, a: Action)
    requires Good(e) && Enabled(e, a) && Good(Next(e, a)) && (a.Test? || a.Poll?)
    requires |e.uart.tx.fifo| <= Level(e)
    ensures |Next(e, a).uart.tx.fifo| <= Level(Next(e, a))
  {
    hide Legal, OrderTexts, Count, Progs, Backlog, Uart.PollReady;
    LinesStep(e, a);
    assert LockOk(e, a.t) && TaskOk(e.tasks[a.t]);
    PollSeesEmpty(e.uart);
  }

  lemma SendLevel(e: System, a: Action)
    requires Good(e) && Enabled(e, a) && Good(Next(e, a)) && (a.Put? || a.PutCr? || a.PutLf?)
    requires |e.uart.tx.fifo| <= Level(e)
    ensures |Next(e, a).uart.tx.fifo| <= Level(Next(e, a))
  {
    hide Legal, OrderTexts, Count, Progs, Backlog, Uart.PollReady;
    LinesStep(e, a);
    assert LockOk(e, a.t) && TaskOk(e.tasks[a.t]);
  }

  lemma OtherLevel(e: System, a: Action)
    requires Good(e) && Enabled(e, a) && Good(Next(e, a)) && Granted(e, a).None?
    requires a.Drain? || a.Tick? || a.Invoke? || a.Format? || a.Lock? || a.Release?
    ensures Level(Next(e, a)) == Level(e)
    ensures |Next(e, a).uart.tx.fifo| <= |e.uart.tx.fifo|
  {
    hide Legal, OrderTexts, Count, Progs, Uart.PollReady;
    LinesStep(e, a);
    if a.Drain? {
      DrainStep(e.uart.tx);
      assert e.uart.tx.DrainFor(1) == e.uart.tx.Drain();
    } else if a.Release? {
      assert LockOk(e, a.t);
      ReleaseKeepsInv(e, a.t);
      LevelWithinBacklog(e);
    } else if !a.Tick? {
      assert LockOk(e, a.t);
    }
    if e.mutex.owner.Some? {
      assert LockOk(e, e.mutex.owner.value);
    }
  }

  lemma {:induction false} RunLevel(s: System, actions: seq<Action>)
    requires Init(s) && Run(s, actions)
    ensures Good(Exec(s, actions))
    ensures |Exec(s, actions).uart.tx.fifo| <= Level(Exec(s, actions))
    decreases |actions|
  {
    hide Next, Legal, OrderTexts, Count, Progs, Level;
    RunGood(s, actions);
    if actions != [] {
      var n := |actions| - 1;
      var e, a := Exec(s, actions[..n]), actions[n];
      RunLevel(s, actions[..n]);
      if Granted(e, a).Some? {
        GrantLevel(e, a);
      } else if a.Test? || a.Poll? {
        SilentLevel(e, a);
      } else if a.Put? || a.PutCr? || a.PutLf? {
        SendLevel(e, a);
      } else {
        OtherLevel(e, a);
      }
    }
  }

  /** In every reachable state the FIFO holds at most the backlog of the lines so far,
      whatever the device and the other tasks do. */
  lemma OccupancyBound(s: System, actions: seq<Action>)
    requires Init(s) && Run(s, actions)
    ensures Good(Exec(s, actions))
    ensures |Exec(s, actions).uart.tx.fifo| <= MaxBacklog(Lines(Exec(s, actions)))
  {
    RunLevel(s, actions);
    LevelWithinBacklog(Exec(s, actions));
  }

  // ---------------------------------------------------------------- nothing is lost

  /** What a step does to the device, as seen from the port. */
  ghost predicate Conserves(e: System, e': System) {
    && e'.uart.tx.depth == e.uart.tx.depth && e'.uart.fifoOn
    && e.port <= e'.port
    && |e'.uart.tx.Stream()| + e'.lost - |e'.port| == |e.uart.tx.Stream()| + e.lost - |e.port|
    && e.lost <= e'.lost
    && (e'.lost == e.lost ==> e'.uart.tx.Stream() == e.uart.tx.Stream() + e'.port[|e.port|..])
    && (e'.lost != e.lost ==> e.uart.Full())
  }

  lemma SendConserves(e: System, b: Byte)
    requires Inv(e)
    ensures Conserves(e, e.Send(b))
  {
  }

  lemma QuietStep(e: System, a: Action)
    requires Enabled(e, a) && !a.Drain? && !a.Put? && !a.PutCr? && !a.PutLf?
    ensures Next(e, a).uart == e.uart && Next(e, a).port == e.port && Next(e, a).lost == e.lost
  {
    hide Uart.PollReady;
  }

  lemma DrainConserves(e: System)
    requires Inv(e)
    ensures Conserves(e, e.(uart := e.uart.Elapse(1)))
  {
    DrainStep(e.uart.tx);
    assert e.uart.tx.DrainFor(1) == e.uart.tx.Drain();
    assert e.port[|e.port|..] == [];
  }

  lemma SameDeviceConserves(e: System, e': System)
    requires Inv(e) && e'.uart == e.uart && e'.port == e.port && e'.lost == e.lost
    ensures Conserves(e, e')
  {
    assert e.port[|e.port|..] == [];
  }

  lemma SameStreamConserves(e: System, e': System, e'': System)
    requires Conserves(e, e') && e''.uart == e'.uart && e''.port == e'.port && e''.lost == e'.lost
    ensures Conserves(e, e'')
  {
  }

  lemma DeviceStep(e: System, a: Action)
    requires Inv(e) && Enabled(e, a)
    ensures Conserves(e, Next(e, a))
    ensures Next(e, a).lost != e.lost ==> a.Put? || a.PutCr? || a.PutLf?
  {
    hide Uart.PollReady, Uart.Outb, Uart.Full, Conserves, Inv, LockStep, ReleaseStep;
    if a.Drain? {
      DrainConserves(e);
    } else if a.Put? || a.PutCr? || a.PutLf? {
      var b := match a case Put(t) => e.tasks[t].pc.buf[e.tasks[t].pc.p] case PutCr(_) => CR case _ => LF;
      SendConserves(e, b);
      SameStreamConserves(e, e.Send(b), Next(e, a));
    } else {
      QuietStep(e, a);
      SameDeviceConserves(e, Next(e, a));
    }
  }

  /** Conservation: every byte written to the port is in the device, on the wire, or counted
      as lost; without loss the device holds them all in order. */
  lemma {:induction false} Fidelity(s: System, actions: seq<Action>)
    requires Init(s) && Run(s, actions)
    ensures var e := Exec(s, actions);
            && e.uart.tx.depth == s.uart.tx.depth && e.uart.fifoOn
            && |e.uart.tx.Stream()| + e.lost == |s.uart.tx.Stream()| + |e.port|
            && (e.lost == 0 <==> e.uart.tx.Stream() == s.uart.tx.Stream() + e.port)
    decreases |actions|
  {
    hide Next, Enabled;
    if actions != [] {
      var n := |actions| - 1;
      Fidelity(s, actions[..n]);
      RunInv(s, actions[..n]);
      DeviceStep(Exec(s, actions[..n]), actions[n]);
    }
  }

  /** No line order whose backlog fits the FIFO loses a byte, in any of its runs. */
  lemma {:induction false} NothingLost(s: System, actions: seq<Action>)
    requires Init(s) && Run(s, actions)
    ensures Good(Exec(s, actions))
    ensures MaxBacklog(Lines(Exec(s, actions))) <= s.uart.tx.depth ==> Exec(s, actions).lost == 0
    decreases |actions|
  {
    hide Next, Legal, OrderTexts, Count, Progs;
    RunGood(s, actions);
    if actions != [] {
      var n := |actions| - 1;
      var e, a := Exec(s, actions[..n]), actions[n];
      NothingLost(s, actions[..n]);
      LinesStep(e, a);
      DeviceStep(e, a);
      Fidelity(s, actions[..n]);
      RunLevel(s, actions[..n]);
      if Next(e, a).lost != e.lost {
        assert LockOk(e, a.t);
        LevelWithinBacklog(e);
      }
    }
  }

  // ---------------------------------------------------------------- the bound is exact

  ghost predicate AllIdle(e: System) {
    forall u :: 0 <= u < |e.tasks| ==> e.tasks[u].pc.Idle?
  }

  /** Takes one more step of a run under construction. */
  lemma Take(e: System, actions: seq<Action>, a: Action) returns (longer: seq<Action>)
    requires Run(e, actions) && Inv(Exec(e, actions)) && Enabled(Exec(e, actions), a)
    ensures longer == actions + [a]
    ensures Run(e, longer) && Exec(e, longer) == Next(Exec(e, actions), a) && Inv(Exec(e, longer))
  {
    longer := actions + [a];
    RunStep(e, actions, a);
    InvStep(Exec(e, actions), a);
  }

  lemma {:induction false} DrainAll(e: System) returns (actions: seq<Action>)
    requires Inv(e)
    ensures Run(e, actions) && Inv(Exec(e, actions))
    ensures var e' := Exec(e, actions);
            && e'.uart.tx.Empty() && e'.uart.tx.depth == e.uart.tx.depth
            && e' == e.(uart := e'.uart)
    decreases e.uart.tx.Work()
  {
    if e.uart.tx.Empty() {
      actions := [];
    } else {
      var first := Take(e, [], Drain);
      DrainStep(e.uart.tx);
      assert e.uart.tx.DrainFor(1) == e.uart.tx.Drain();
      var rest := DrainAll(Exec(e, first));
      RunConcat(e, first, rest);
      actions := first + rest;
    }
  }

  /** A successful poll and the write that follows it. */
  lemma PollAndPut(e: System, t: TaskId) returns (actions: seq<Action>)
    requires Inv(e) && t < |e.tasks| && e.tasks[t].pc.Polling? && e.uart.tx.Empty()
    ensures Run(e, actions) && Inv(Exec(e, actions))
    ensures var e' := Exec(e, actions);
            && e'.tasks == e.tasks[t := e.tasks[t].(pc := Testing(e.tasks[t].pc.buf, e.tasks[t].pc.p + 1))]
            && e'.mutex == e.mutex && e'.order == e.order && e'.uart.tx.depth == e.uart.tx.depth
            && e.lost <= e'.lost && (e'.lost == e.lost ==> |e'.uart.tx.fifo| == 1)
  {
    PollSeesEmpty(e.uart);
    assert TaskOk(e.tasks[t]);
    actions := Take(e, [], Poll(t));
    actions := Take(e, actions, Put(t));
  }

  lemma TestText(e: System, t: TaskId) returns (actions: seq<Action>)
    requires Inv(e) && t < |e.tasks| && e.tasks[t].pc.Testing? && TaskOk(e.tasks[t])
    requires e.tasks[t].pc.p < |e.tasks[t].Current()|
    ensures Run(e, actions) && Inv(Exec(e, actions))
    ensures Exec(e, actions) == e.SetPc(t, Polling(e.tasks[t].pc.buf, e.tasks[t].pc.p))
  {
    actions := Take(e, [], Test(t));
  }

  /** One round of the loop of `log_printf` on a device that moves only when it is polled. */
  lemma LazyByte(e: System, t: TaskId) returns (actions: seq<Action>)
    requires Inv(e) && t < |e.tasks| && e.tasks[t].pc.Testing? && TaskOk(e.tasks[t])
    requires e.tasks[t].pc.p < |e.tasks[t].Current()|
    ensures Run(e, actions) && Inv(Exec(e, actions))
    ensures var e' := Exec(e, actions);
            && e'.tasks == e.tasks[t := e.tasks[t].(pc := Testing(e.tasks[t].pc.buf, e.tasks[t].pc.p + 1))]
            && e'.mutex == e.mutex && e'.order == e.order && e'.uart.tx.depth == e.uart.tx.depth
            && e.lost <= e'.lost && (e'.lost == e.lost ==> |e'.uart.tx.fifo| == 1)
  {
    hide Next, Enabled;
    var test := TestText(e, t);
    var e1 := Exec(e, test);
    var drain := DrainAll(e1);
    var e2 := Exec(e1, drain);
    var put := PollAndPut(e2, t);
    RunConcat(e1, drain, put);
    RunConcat(e, test, drain + put);
    actions := test + (drain + put);
  }

  /** The whole loop, from the first NUL test to CR. */
  lemma {:induction false} LazyLoop(e: System, t: TaskId) returns (actions: seq<Action>)
    requires Inv(e) && t < |e.tasks| && e.tasks[t].pc.Testing? && TaskOk(e.tasks[t])
    ensures Run(e, actions) && Inv(Exec(e, actions))
    ensures var e' := Exec(e, actions);
            && e'.tasks == e.tasks[t := e.tasks[t].(pc := SendingCr)]
            && e'.mutex == e.mutex && e'.order == e.order && e'.uart.tx.depth == e.uart.tx.depth
            && e.lost <= e'.lost
            && (e'.lost == e.lost ==>
                  |e'.uart.tx.fifo| == if e.tasks[t].pc.p == |e.tasks[t].Current()| then |e.uart.tx.fifo| else 1)
    decreases |e.tasks[t].Current()| - e.tasks[t].pc.p
  {
    if e.tasks[t].pc.p == |e.tasks[t].Current()| {
      actions := Take(e, [], Test(t));
    } else {
      var first := LazyByte(e, t);
      var rest := LazyLoop(Exec(e, first), t);
      RunConcat(e, first, rest);
      actions := first + rest;
    }
  }

  lemma LazyStart(e: System, t: TaskId) returns (actions: seq<Action>)
    requires Inv(e) && AllIdle(e) && t < |e.tasks| && e.tasks[t].next < |e.tasks[t].prog|
    ensures Run(e, actions) && Inv(Exec(e, actions))
    ensures var e', m := Exec(e, actions), e.tasks[t].prog[e.tasks[t].next];
            && e'.tasks == e.tasks[t := Task(e.tasks[t].prog, e.tasks[t].next + 1, Testing(Buffer(m), 0))]
            && e'.order == e.order + [t] && e'.uart == e.uart && e'.lost == e.lost && e'.mutex.waiters == []
  {
    if e.mutex.owner.Some? {
      assert LockOk(e, e.mutex.owner.value);
    }
    actions := Take(e, [], Invoke(t));
    actions := Take(e, actions, Format(t));
    actions := Take(e, actions, Lock(t));
  }

  /** An unpolled write: one more byte in the FIFO, or one more lost. */
  lemma UnpolledWrite(e: System, a: Action)
    requires Inv(e) && Enabled(e, a) && (a.PutCr? || a.PutLf?)
    ensures var e' := Next(e, a);
            && e'.tasks == e.tasks[a.t := e.tasks[a.t].(pc := if a.PutCr? then SendingLf else Unlocking)]
            && e'.mutex == e.mutex && e'.order == e.order && e'.uart.tx.depth == e.uart.tx.depth
            && e.lost <= e'.lost && (e'.lost == e.lost ==> |e'.uart.tx.fifo| == |e.uart.tx.fifo| + 1)
  {
  }

  lemma CrLf(e: System, t: TaskId) returns (actions: seq<Action>)
    requires Inv(e) && t < |e.tasks| && e.tasks[t].pc.SendingCr?
    ensures Run(e, actions) && Inv(Exec(e, actions))
    ensures var e' := Exec(e, actions);
            && e'.tasks == e.tasks[t := e.tasks[t].(pc := Unlocking)]
            && e'.mutex == e.mutex && e'.order == e.order && e'.uart.tx.depth == e.uart.tx.depth
            && e.lost <= e'.lost && (e'.lost == e.lost ==> |e'.uart.tx.fifo| == |e.uart.tx.fifo| + 2)
  {
    hide Next;
    actions := Take(e, [], PutCr(t));
    UnpolledWrite(e, PutCr(t));
    var e1 := Exec(e, actions);
    actions := Take(e, actions, PutLf(t));
    UnpolledWrite(e1, PutLf(t));
  }

  lemma LazyEnd(e: System, t: TaskId) returns (actions: seq<Action>)
    requires Inv(e) && t < |e.tasks| && e.tasks[t].pc.SendingCr?
    requires forall u :: 0 <= u < |e.tasks| && u != t ==> e.tasks[u].pc.Idle?
    requires e.mutex.waiters == []
    ensures Run(e, actions) && Inv(Exec(e, actions)) && AllIdle(Exec(e, actions))
    ensures var e' := Exec(e, actions);
            && |e'.tasks| == |e.tasks| && e'.order == e.order && e'.uart.tx.depth == e.uart.tx.depth
            && e.lost <= e'.lost && (e'.lost == e.lost ==> |e'.uart.tx.fifo| == |e.uart.tx.fifo| + 2)
  {
    assert LockOk(e, t);
    var sent := CrLf(e, t);
    actions := Take(e, sent, Release(t));
  }

  /** A whole call with nobody else about: it leaves exactly the next backlog behind. */
  lemma LazyCall(e: System, t: TaskId) returns (actions: seq<Action>)
    requires Inv(e) && AllIdle(e) && t < |e.tasks| && e.tasks[t].next < |e.tasks[t].prog|
    ensures Run(e, actions) && Inv(Exec(e, actions)) && AllIdle(Exec(e, actions))
    ensures var e' := Exec(e, actions);
            && |e'.tasks| == |e.tasks| && e'.order == e.order + [t] && e'.uart.tx.depth == e.uart.tx.depth
            && e.lost <= e'.lost
            && (e'.lost == e.lost ==>
                  |e'.uart.tx.fifo| == NextBacklog(|e.uart.tx.fifo|, e.tasks[t].prog[e.tasks[t].next]))
  {
    hide Next, Enabled;
    var start := LazyStart(e, t);
    var e1 := Exec(e, start);
    assert TaskOk(e1.tasks[t]);
    var body := LazyLoop(e1, t);
    var end := LazyEnd(Exec(e1, body), t);
    RunConcat(e1, body, end);
    RunConcat(e, start, body + end);
    actions := start + (body + end);
  }

  lemma LegalFront(progs: seq<seq<Text>>, order: seq<TaskId>, front: seq<TaskId>, t: TaskId)
    requires Legal(progs, order) && order != [] && front == order[..|order| - 1] && t == order[|order| - 1]
    ensures order == front + [t] && Legal(progs, front)
  {
  }

  lemma EmptyRun(s: System)
    requires Init(s)
    ensures Run(s, []) && Exec(s, []) == s && s.order == [] && AllIdle(s) && LazyOutcome(s, [], s)
  {
  }

  /** For every line order there is a run, on a device that moves only when polled, that
      fills the FIFO to the backlog exactly or has already lost a byte. */
  lemma {:induction false} LazyRun(s: System, order: seq<TaskId>) returns (actions: seq<Action>)
    requires Init(s) && Legal(Progs(s), order)
    ensures Run(s, actions) && AllIdle(Exec(s, actions))
    ensures Exec(s, actions).order == order
    ensures LazyOutcome(s, order, Exec(s, actions))
    decreases |order|
  {
    hide Next, Enabled, Run, Exec, Init, LazyOutcome, OrderTexts, Count, Legal;
    if order == [] {
      EmptyRun(s);
      actions := [];
    } else {
      var front, t := order[..|order| - 1], order[|order| - 1];
      LegalFront(Progs(s), order, front, t);
      var first := LazyRun(s, front);
      actions := LazyExtend(s, front, first, t);
    }
  }

  /** The backlog, or the loss, that a run on a lazy device has come to. */
  ghost predicate LazyOutcome(s: System, order: seq<TaskId>, e: System)
    requires Legal(Progs(s), order)
  {
    || e.lost > 0
    || (&& |e.uart.tx.fifo| == Backlog(OrderTexts(Progs(s), order))
        && MaxBacklog(OrderTexts(Progs(s), order)) <= s.uart.tx.depth)
  }

  lemma LazyOutcomeStep(s: System, order: seq<TaskId>, t: TaskId, e: System, e': System)
    requires Legal(Progs(s), order) && t < |Progs(s)| && Count(order, t) < |Progs(s)[t]|
    requires LazyOutcome(s, order, e) && e.lost <= e'.lost
    requires |e'.uart.tx.fifo| <= s.uart.tx.depth
    requires e'.lost == e.lost ==> |e'.uart.tx.fifo| == NextBacklog(|e.uart.tx.fifo|, Progs(s)[t][Count(order, t)])
    ensures Legal(Progs(s), order + [t]) && LazyOutcome(s, order + [t], e')
  {
    AppendTexts(Progs(s), order, t);
    BacklogAppend(OrderTexts(Progs(s), order), Progs(s)[t][Count(order, t)]);
  }

  lemma LegalLast(progs: seq<seq<Text>>, order: seq<TaskId>, t: TaskId)
    requires Legal(progs, order + [t])
    ensures t < |progs| && Count(order, t) < |progs[t]|
  {
    assert (order + [t])[..|order|] == order;
  }

  lemma LazyExtend(s: System, order: seq<TaskId>, first: seq<Action>, t: TaskId) returns (actions: seq<Action>)
    requires Init(s) && Legal(Progs(s), order) && Legal(Progs(s), order + [t])
    requires Run(s, first) && AllIdle(Exec(s, first)) && Exec(s, first).order == order
    requires LazyOutcome(s, order, Exec(s, first))
    ensures Run(s, actions) && AllIdle(Exec(s, actions)) && Exec(s, actions).order == order + [t]
    ensures LazyOutcome(s, order + [t], Exec(s, actions))
  {
    hide Next, Enabled, Run, Exec, LazyOutcome, OrderTexts, Legal, Count;
    var e := Exec(s, first);
    LegalLast(Progs(s), order, t);
    RunOutput(s, first);
    Fidelity(s, first);
    assert e.tasks[t].prog == Progs(e)[t];
    assert TaskOk(e.tasks[t]);
    var call := LazyCall(e, t);
    RunConcat(s, first, call);
    actions := first + call;
    LazyOutcomeStep(s, order, t, e, Exec(e, call));
  }

  /** All the ways of printing the lines in this order are loss-free. */
  ghost predicate AlwaysLossFree(s: System, order: seq<TaskId>) {
    forall actions :: Run(s, actions) && Exec(s, actions).order == order ==> Exec(s, actions).lost == 0
  }

  /** A line order is safe on every schedule of tasks and device if and only if its backlog
      never exceeds the depth of the FIFO. */
  lemma LossFreeIff(s: System, order: seq<TaskId>)
    requires Init(s) && Legal(Progs(s), order)
    ensures AlwaysLossFree(s, order) <==> MaxBacklog(OrderTexts(Progs(s), order)) <= s.uart.tx.depth
  {
    if MaxBacklog(OrderTexts(Progs(s), order)) <= s.uart.tx.depth {
      forall actions | Run(s, actions) && Exec(s, actions).order == order
        ensures Exec(s, actions).lost == 0
      {
        NothingLost(s, actions);
        ProgsKept(s, actions);
      }
    } else {
      var actions := LazyRun(s, order);
    }
  }

  // ---------------------------------------------------------------- consecutive empty messages

  /** The empty messages at the end. */
  function TrailingEmpty(ms: seq<seq<Byte>>): nat {
    if ms == [] || ms[|ms| - 1] != [] then 0 else TrailingEmpty(ms[..|ms| - 1]) + 1
  }

  /** The longest block of consecutive empty messages. */
  function LongestEmpty(ms: seq<seq<Byte>>): (k: nat)
    ensures TrailingEmpty(ms) <= k
  {
    if ms == [] then 0 else Max(LongestEmpty(ms[..|ms| - 1]), TrailingEmpty(ms))
  }

  lemma {:induction false} BacklogByEmptyRuns(ms: seq<seq<Byte>>)
    ensures Backlog(ms) <= 3 + 2 * TrailingEmpty(ms)
    ensures MaxBacklog(ms) <= 3 + 2 * LongestEmpty(ms)
    decreases |ms|
  {
    if ms != [] {
      BacklogByEmptyRuns(ms[..|ms| - 1]);
    }
  }

  /** At most k consecutive empty messages: the FIFO never holds more than 3 + 2k bytes, and
      with k at most 6 the FIFO of a PC16550D never overruns. */
  lemma EmptyRunBound(s: System, actions: seq<Action>, k: nat)
    requires Init(s) && Run(s, actions)
    ensures Good(Exec(s, actions))
    ensures LongestEmpty(Lines(Exec(s, actions))) <= k ==>
              && |Exec(s, actions).uart.tx.fifo| <= 3 + 2 * k
              && (k <= 6 && s.uart.tx.depth == 16 ==>
                    Exec(s, actions).uart.tx.Stream() == s.uart.tx.Stream() + Exec(s, actions).port)
  {
    OccupancyBound(s, actions);
    BacklogByEmptyRuns(Lines(Exec(s, actions)));
    NothingLost(s, actions);
    Fidelity(s, actions);
  }

  function OneThenEmpty(m: Text, k: nat): seq<Text> {
    if k == 0 then [m] else OneThenEmpty(m, k - 1) + [[]]
  }

  lemma {:induction false} OneThenEmptyBacklog(m: Text, k: nat)
    requires m != []
    ensures |OneThenEmpty(m, k)| == k + 1
    ensures LongestEmpty(OneThenEmpty(m, k)) == TrailingEmpty(OneThenEmpty(m, k)) == k
    ensures Backlog(OneThenEmpty(m, k)) == MaxBacklog(OneThenEmpty(m, k)) == 3 + 2 * k
  {
    if k > 0 {
      OneThenEmptyBacklog(m, k - 1);
      assert OneThenEmpty(m, k)[..k] == OneThenEmpty(m, k - 1);
    } else {
      assert [m][..0] == [];
    }
  }

  lemma {:induction false} SoloOrder(prog: seq<Text>, n: nat) returns (order: seq<TaskId>)
    requires n <= |prog|
    ensures Legal([prog], order) && |order| == n && Count(order, 0) == n
    ensures OrderTexts([prog], order) == prog[..n]
  {
    if n == 0 {
      order := [];
    } else {
      var shorter := SoloOrder(prog, n - 1);
      order := shorter + [0];
      AppendTexts([prog], shorter, 0);
      CountAppend(shorter, 0, 0);
    }
  }

  /** The bound is reached for every k: one task that logs a text and then k empty messages
      fills the FIFO to 3 + 2k bytes, and loses a byte if that is more than fits. */
  lemma EmptyRunReached(s: System, m: Text, k: nat) returns (actions: seq<Action>)
    requires Init(s) && m != []
    requires |s.tasks| == 1 && s.tasks[0].prog == OneThenEmpty(m, k)
    ensures Run(s, actions) && Good(Exec(s, actions))
    ensures Lines(Exec(s, actions)) == OneThenEmpty(m, k)
    ensures LongestEmpty(OneThenEmpty(m, k)) == k
    ensures 3 + 2 * k <= s.uart.tx.depth ==>
              |Exec(s, actions).uart.tx.fifo| == 3 + 2 * k && Exec(s, actions).lost == 0
    ensures 3 + 2 * k > s.uart.tx.depth ==> Exec(s, actions).lost > 0
  {
    var prog := OneThenEmpty(m, k);
    OneThenEmptyBacklog(m, k);
    var order := SoloOrder(prog, k + 1);
    assert prog[..k + 1] == prog;
    assert Progs(s) == [prog];
    actions := LazyRun(s, order);
    ProgsKept(s, actions);
    NothingLost(s, actions);
  }
}
