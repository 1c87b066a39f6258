/**
 When the programs alone, before anything runs, decide that no byte can be lost.
 */
module LogPrograms {
  import opened SerialDevice
  import opened Framing
  import opened Mutex
  import opened LogProtocol
  import opened LogOrder
  import opened LogFifo

  // ---------------------------------------------------------------- cuts

  /** A point in each program. */
  predicate IsCut(progs: seq<seq<Text>>, cut: seq<nat>) {
    |cut| == |progs| && forall t :: 0 <= t < |cut| ==> cut[t] <= |progs[t]|
  }

  /** The empty messages just before the point of task `t`. */
  function Tail(progs: seq<seq<Text>>, cut: seq<nat>, t: nat): nat
    requires IsCut(progs, cut) && t < |progs|
  {
    TrailingEmpty(progs[t][..cut[t]])
  }

  function Tails(progs: seq<seq<Text>>, cut: seq<nat>, n: nat): nat
    requires IsCut(progs, cut) && n <= |progs|
  {
    if n == 0 then 0 else Tails(progs, cut, n - 1) + Tail(progs, cut, n - 1)
  }

  /** One of the first `n` tasks has a message with text before its point. */
  predicate TextBefore(progs: seq<seq<Text>>, cut: seq<nat>, n: nat)
    requires IsCut(progs, cut) && n <= |progs|
  {
    exists t :: 0 <= t < n && Tail(progs, cut, t) < cut[t]
  }

  /** The worst backlog with every task at its point: all the empty messages come last. */
  function CutBacklog(progs: seq<seq<Text>>, cut: seq<nat>): nat
    requires IsCut(progs, cut)
  {
    (if TextBefore(progs, cut, |progs|) then 3 else 0) + 2 * Tails(progs, cut, |progs|)
  }

  lemma {:induction false} TrailingEmptyShape(ms: seq<seq<Byte>>)
    ensures var e := TrailingEmpty(ms);
            && e <= |ms| && (e < |ms| ==> ms[|ms| - e - 1] != [])
            && forall k :: |ms| - e <= k < |ms| ==> ms[k] == []
    decreases |ms|
  {
    if ms != [] && ms[|ms| - 1] == [] {
      TrailingEmptyShape(ms[..|ms| - 1]);
    }
  }

  lemma TailStep(prog: seq<Text>, c: nat)
    requires c < |prog|
    ensures TrailingEmpty(prog[..c + 1]) == if prog[c] == [] then TrailingEmpty(prog[..c]) + 1 else 0
  {
    assert prog[..c + 1][..c] == prog[..c];
  }

  // ---------------------------------------------------------------- no order does worse

  lemma {:induction false} TailsUpdate(progs: seq<seq<Text>>, cut: seq<nat>, cut': seq<nat>, t: nat, n: nat)
    requires IsCut(progs, cut) && IsCut(progs, cut') && t < |progs| && n <= |progs|
    requires forall u :: 0 <= u < |cut| && u != t ==> cut'[u] == cut[u]
    ensures Tails(progs, cut', n) - Tails(progs, cut, n)
         == if t < n then Tail(progs, cut', t) - Tail(progs, cut, t) else 0
  {
    if n > 0 {
      TailsUpdate(progs, cut, cut', t, n - 1);
    }
  }

  ghost function Counts(progs: seq<seq<Text>>, order: seq<TaskId>): (cut: seq<nat>)
    ensures |cut| == |progs| && forall t :: 0 <= t < |progs| ==> cut[t] == Count(order, t)
  {
    seq(|progs|, t requires 0 <= t < |progs| => Count(order, t))
  }

  lemma CountsAreCut(progs: seq<seq<Text>>, order: seq<TaskId>)
    requires Legal(progs, order)
    ensures IsCut(progs, Counts(progs, order))
  {
    forall t | 0 <= t < |progs| ensures Count(order, t) <= |progs[t]| {
      ProgramOrder(progs, order, t);
    }
  }

  lemma CutStep(progs: seq<seq<Text>>, cut: seq<nat>, cut': seq<nat>, t: nat)
    requires IsCut(progs, cut) && IsCut(progs, cut') && t < |progs|
    requires forall u :: 0 <= u < |cut| ==> cut'[u] == cut[u] + if u == t then 1 else 0
    ensures NextBacklog(CutBacklog(progs, cut), progs[t][cut[t]]) <= CutBacklog(progs, cut')
  {
    TailStep(progs[t], cut[t]);
    assert Tail(progs, cut', t) == if progs[t][cut[t]] == [] then Tail(progs, cut, t) + 1 else 0;
    if progs[t][cut[t]] == [] {
      TailsUpdate(progs, cut, cut', t, |progs|);
      if u :| 0 <= u < |progs| && Tail(progs, cut, u) < cut[u] {
        assert Tail(progs, cut', u) < cut'[u];
      }
    }
  }

  lemma {:induction false} BacklogWithinCut(progs: seq<seq<Text>>, order: seq<TaskId>)
    requires Legal(progs, order)
    ensures IsCut(progs, Counts(progs, order))
    ensures Backlog(OrderTexts(progs, order)) <= CutBacklog(progs, Counts(progs, order))
    decreases |order|
  {
    hide Backlog, CutBacklog, Legal, OrderTexts, Count;
    CountsAreCut(progs, order);
    if order == [] {
      NoLines(progs);
    } else {
      var front, t := order[..|order| - 1], order[|order| - 1];
      LastText(progs, order, front, t);
      BacklogWithinCut(progs, front);
      BacklogLast(OrderTexts(progs, order));
      forall u: nat ensures Count(order, u) == Count(front, u) + if u == t then 1 else 0 {
        assert front + [t] == order;
        CountAppend(front, t, u);
      }
      CutStep(progs, Counts(progs, front), Counts(progs, order), t);
    }
  }

  lemma NoLines(progs: seq<seq<Text>>)
    ensures Legal(progs, []) && Backlog(OrderTexts(progs, [])) == 0
  {
  }

  lemma {:induction false} MaxBacklogBound(progs: seq<seq<Text>>, order: seq<TaskId>, b: nat)
    requires Legal(progs, order) && forall cut :: IsCut(progs, cut) ==> CutBacklog(progs, cut) <= b
    ensures MaxBacklog(OrderTexts(progs, order)) <= b
    decreases |order|
  {
    hide CutBacklog, Legal, OrderTexts, Count;
    BacklogWithinCut(progs, order);
    if order != [] {
      var front := order[..|order| - 1];
      LastText(progs, order, front, order[|order| - 1]);
      MaxBacklogBound(progs, front, b);
    } else {
      NoLines(progs);
    }
  }

  // ---------------------------------------------------------------- some order is as bad

  /** Task `t` logs its messages up to number `k`, with nobody in between. */
  lemma {:induction false} Extend(progs: seq<seq<Text>>, order: seq<TaskId>, t: TaskId, k: nat)
    returns (longer: seq<TaskId>)
    requires Legal(progs, order) && t < |progs| && Count(order, t) <= k <= |progs[t]|
    ensures Legal(progs, longer)
    ensures forall u: nat :: Count(longer, u) == if u == t then k else Count(order, u)
    ensures OrderTexts(progs, longer) == OrderTexts(progs, order) + progs[t][Count(order, t)..k]
    decreases k
  {
    hide Legal, OrderTexts, Count;
    var c := Count(order, t);
    if k == c {
      longer := order;
      assert progs[t][c..k] == [];
    } else {
      var most := Extend(progs, order, t, k - 1);
      longer := most + [t];
      AppendTexts(progs, most, t);
      forall u: nat ensures Count(longer, u) == if u == t then k else Count(order, u) {
        CountAppend(most, t, u);
      }
      assert progs[t][c..k] == progs[t][c..k - 1] + [progs[t][k - 1]];
    }
  }

  lemma BacklogText(ms: seq<seq<Byte>>, more: seq<seq<Byte>>)
    requires more != [] && more[|more| - 1] != []
    ensures Backlog(ms + more) == 3
  {
  }

  lemma {:induction false} BacklogEmpties(ms: seq<seq<Byte>>, more: seq<seq<Byte>>)
    requires forall k :: 0 <= k < |more| ==> more[k] == []
    ensures Backlog(ms + more) == Backlog(ms) + 2 * |more|
    decreases |more|
  {
    if more == [] {
      assert ms + more == ms;
    } else {
      var front := more[..|more| - 1];
      BacklogEmpties(ms, front);
      BacklogAppend(ms + front, []);
      assert ms + more == ms + front + [[]];
    }
  }

  /** First every task logs as far as its last message with text. */
  lemma {:induction false} TextsFirst(progs: seq<seq<Text>>, cut: seq<nat>, n: nat) returns (order: seq<TaskId>)
    requires IsCut(progs, cut) && n <= |progs|
    ensures Legal(progs, order)
    ensures forall t :: 0 <= t < |progs| ==> Tail(progs, cut, t) <= cut[t]
    ensures forall t :: 0 <= t < |progs| ==> Count(order, t) == if t < n then cut[t] - Tail(progs, cut, t) else 0
    ensures Backlog(OrderTexts(progs, order)) == if TextBefore(progs, cut, n) then 3 else 0
  {
    hide Legal, OrderTexts, Count, Backlog;
    forall t | 0 <= t < |progs| ensures Tail(progs, cut, t) <= cut[t] {
      TrailingEmptyShape(progs[t][..cut[t]]);
    }
    if n == 0 {
      order := [];
      NoLines(progs);
      forall t: nat ensures Count([], t) == 0 {
        NoCount(t);
      }
    } else {
      var t := n - 1;
      var before := TextsFirst(progs, cut, t);
      var k := cut[t] - Tail(progs, cut, t);
      order := Extend(progs, before, t, k);
      TrailingEmptyShape(progs[t][..cut[t]]);
      var block := progs[t][0..k];
      if k > 0 {
        assert block[k - 1] == progs[t][..cut[t]][k - 1];
        BacklogText(OrderTexts(progs, before), block);
      } else {
        assert OrderTexts(progs, before) + block == OrderTexts(progs, before);
      }
    }
  }

  lemma NoCount(t: TaskId)
    ensures Count([], t) == 0
  {
  }

  /** Then the empty messages up to the cut follow. */
  lemma {:induction false} EmptiesLast(progs: seq<seq<Text>>, cut: seq<nat>, n: nat) returns (order: seq<TaskId>)
    requires IsCut(progs, cut) && n <= |progs|
    ensures Legal(progs, order)
    ensures forall t :: 0 <= t < |progs| ==>
              Count(order, t) == if t < n then cut[t] else cut[t] - Tail(progs, cut, t)
    ensures Backlog(OrderTexts(progs, order))
         == (if TextBefore(progs, cut, |progs|) then 3 else 0) + 2 * Tails(progs, cut, n)
  {
    hide Legal, OrderTexts, Count, Backlog, TextBefore;
    if n == 0 {
      order := TextsFirst(progs, cut, |progs|);
    } else {
      var t := n - 1;
      var before := EmptiesLast(progs, cut, t);
      TrailingEmptyShape(progs[t][..cut[t]]);
      order := Extend(progs, before, t, cut[t]);
      var c := cut[t] - Tail(progs, cut, t);
      var block := progs[t][c..cut[t]];
      forall k | 0 <= k < |block| ensures block[k] == [] {
        assert block[k] == progs[t][..cut[t]][c + k];
      }
      BacklogEmpties(OrderTexts(progs, before), block);
    }
  }

  // ---------------------------------------------------------------- the condition

  /** No run of these programs loses a byte, on any schedule of tasks and device. */
  ghost predicate NeverLoses(s: System) {
    forall actions :: Run(s, actions) ==> Exec(s, actions).lost == 0
  }

  /** The programs alone decide it: no run loses a byte if and only if the worst backlog of
      every cut fits the FIFO. */
  lemma ProgramsLossFreeIff(s: System)
    requires Init(s)
    ensures NeverLoses(s) <==> forall cut :: IsCut(Progs(s), cut) ==> CutBacklog(Progs(s), cut) <= s.uart.tx.depth
  {
    hide Next, Enabled, Run, Exec, Init, Legal, OrderTexts, Count;
    if forall cut :: IsCut(Progs(s), cut) ==> CutBacklog(Progs(s), cut) <= s.uart.tx.depth {
      forall actions | Run(s, actions) ensures Exec(s, actions).lost == 0 {
        NothingLost(s, actions);
        ProgsKept(s, actions);
        MaxBacklogBound(Progs(s), Exec(s, actions).order, s.uart.tx.depth);
      }
    } else {
      var cut :| IsCut(Progs(s), cut) && CutBacklog(Progs(s), cut) > s.uart.tx.depth;
      var order := EmptiesLast(Progs(s), cut, |Progs(s)|);
      var actions := LazyRun(s, order);
      LostOverDepth(s, order, Exec(s, actions));
    }
  }

  lemma LostOverDepth(s: System, order: seq<TaskId>, e: System)
    requires Legal(Progs(s), order) && LazyOutcome(s, order, e)
    requires Backlog(OrderTexts(Progs(s), order)) > s.uart.tx.depth
    ensures e.lost > 0
  {
  }

  // ---------------------------------------------------------------- one number per program

  /** The longest blocks of empty messages of the first `n` programs, added up. */
  function EmptySum(progs: seq<seq<Text>>, n: nat): nat
    requires n <= |progs|
  {
    if n == 0 then 0 else EmptySum(progs, n - 1) + LongestEmpty(progs[n - 1])
  }

  lemma {:induction false} TrailingWithinLongest(prog: seq<seq<Byte>>, c: nat)
    requires c <= |prog|
    ensures TrailingEmpty(prog[..c]) <= LongestEmpty(prog)
    decreases |prog|
  {
    if c < |prog| {
      TrailingWithinLongest(prog[..|prog| - 1], c);
      assert prog[..|prog| - 1][..c] == prog[..c];
    } else {
      assert prog[..c] == prog;
    }
  }

  lemma {:induction false} TailsWithinSum(progs: seq<seq<Text>>, cut: seq<nat>, n: nat)
    requires IsCut(progs, cut) && n <= |progs|
    ensures Tails(progs, cut, n) <= EmptySum(progs, n)
  {
    if n > 0 {
      TailsWithinSum(progs, cut, n - 1);
      TrailingWithinLongest(progs[n - 1], cut[n - 1]);
    }
  }

  /** No run loses a byte if 3 plus twice the longest blocks of empty messages, one for each
      program, fit the FIFO; the device then holds exactly what was written. */
  lemma ProgramsFit(s: System, actions: seq<Action>)
    requires Init(s) && Run(s, actions)
    requires 3 + 2 * EmptySum(Progs(s), |s.tasks|) <= s.uart.tx.depth
    ensures Exec(s, actions).uart.tx.Stream() == s.uart.tx.Stream() + Exec(s, actions).port
  {
    hide Run, Exec, Init, Next, Enabled;
    forall cut | IsCut(Progs(s), cut) ensures CutBacklog(Progs(s), cut) <= s.uart.tx.depth {
      TailsWithinSum(Progs(s), cut, |s.tasks|);
    }
    ProgramsLossFreeIff(s);
    Fidelity(s, actions);
  }

  /** The end of the longest block. Without one, the first message will do. */
  lemma {:induction false} LongestReached(prog: seq<seq<Byte>>) returns (c: nat)
    ensures c <= |prog| && TrailingEmpty(prog[..c]) == LongestEmpty(prog) && (prog != [] ==> c > 0)
    decreases |prog|
  {
    var n := |prog|;
    assert prog[..n] == prog;
    if n <= 1 || LongestEmpty(prog) == TrailingEmpty(prog) {
      c := n;
    } else {
      c := LongestReached(prog[..n - 1]);
      assert prog[..n - 1][..c] == prog[..c];
    }
  }

  lemma {:induction false} WorstCut(progs: seq<seq<Text>>, n: nat) returns (cut: seq<nat>)
    requires n <= |progs|
    ensures |cut| == n && forall t :: 0 <= t < n ==>
              && cut[t] <= |progs[t]| && (progs[t] != [] ==> cut[t] > 0)
              && TrailingEmpty(progs[t][..cut[t]]) == LongestEmpty(progs[t])
  {
    if n == 0 {
      cut := [];
    } else {
      var first := WorstCut(progs, n - 1);
      var c := LongestReached(progs[n - 1]);
      cut := first + [c];
    }
  }

  lemma {:induction false} TailsAreSum(progs: seq<seq<Text>>, cut: seq<nat>, n: nat)
    requires IsCut(progs, cut) && n <= |progs|
    requires forall t :: 0 <= t < n ==> Tail(progs, cut, t) == LongestEmpty(progs[t])
    ensures Tails(progs, cut, n) == EmptySum(progs, n)
  {
    if n > 0 {
      TailsAreSum(progs, cut, n - 1);
    }
  }

  /** For tasks that log a text first this is the exact condition. */
  lemma TextFirstIff(s: System)
    requires Init(s) && exists t :: 0 <= t < |s.tasks| && s.tasks[t].prog != []
    requires forall t :: 0 <= t < |s.tasks| && s.tasks[t].prog != [] ==> s.tasks[t].prog[0] != []
    ensures NeverLoses(s) <==> 3 + 2 * EmptySum(Progs(s), |s.tasks|) <= s.uart.tx.depth
  {
    hide Run, Exec, Init, Next, Enabled;
    var progs, n := Progs(s), |s.tasks|;
    forall cut | IsCut(progs, cut) ensures CutBacklog(progs, cut) <= 3 + 2 * EmptySum(progs, n) {
      TailsWithinSum(progs, cut, n);
    }
    var cut := WorstCut(progs, n);
    TailsAreSum(progs, cut, n);
    var t :| 0 <= t < n && s.tasks[t].prog != [];
    TextIsBefore(progs[t], cut[t]);
    assert Tail(progs, cut, t) < cut[t];
    ProgramsLossFreeIff(s);
  }

  lemma TextIsBefore(prog: seq<Text>, c: nat)
    requires 0 < c <= |prog| && prog[0] != []
    ensures TrailingEmpty(prog[..c]) < c
  {
    TrailingEmptyShape(prog[..c]);
    assert prog[..c][0] != [];
  }
}
