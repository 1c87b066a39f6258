/**
 The kernel mutex: an owner, a re-entry count, and a list of waiting tasks served first come
 first served. Unlocking hands the mutex over to the first waiter directly.
 */
module Mutex {
  import opened Options

  type TaskId = nat

  datatype MutexState = MutexState(owner: Option<TaskId>, count: nat, waiters: seq<TaskId>) {

    predicate Free() {
      count == 0
    }

    /** `mutex_lock` by `t`: take it, re-enter it, or join the end of the waiting list. */
    function Lock(t: TaskId): MutexState {
      if count == 0 then this.(owner := Some(t), count := 1)
      else if owner == Some(t) then this.(count := count + 1)
      else this.(waiters := waiters + [t])
    }

    /** `mutex_unlock` by `t`; only the owner's last unlock releases it. */
    function Unlock(t: TaskId): MutexState {
      if owner != Some(t) || count == 0 then this
      else if count > 1 then this.(count := count - 1)
      else if waiters == [] then this.(owner := None, count := 0)
      else this.(owner := Some(waiters[0]), count := 1, waiters := waiters[1..])
    }

    predicate Ok() {
      && (count == 0 <==> owner.None?)
      && (count == 0 ==> waiters == [])
      && (forall i, j :: 0 <= i < j < |waiters| ==> waiters[i] != waiters[j])
      && (owner.Some? ==> owner.value !in waiters)
    }
  }

  const UNLOCKED := MutexState(None, 0, [])

  /** Both operations keep the mutex consistent, and no task is ever owner and waiter at once. */
  lemma OperationsKeepOk(m: MutexState, t: TaskId)
    requires m.Ok() && t !in m.waiters
    ensures m.Lock(t).Ok() && m.Unlock(t).Ok()
  {
    if m.waiters != [] {
      assert m.waiters[0] !in m.waiters[1..];
    }
  }

  // ---------------------------------------------------------------- nesting

  datatype MutexOp = LockBy(t: TaskId) | UnlockBy(t: TaskId)

  function After(m: MutexState, ops: seq<MutexOp>): MutexState {
    if ops == [] then m
    else
      var before := After(m, ops[..|ops| - 1]);
      match ops[|ops| - 1]
      case LockBy(t) => before.Lock(t)
      case UnlockBy(t) => before.Unlock(t)
  }

  /** Locks of `t` less unlocks of `t`. */
  function Nesting(ops: seq<MutexOp>, t: TaskId): int {
    if ops == [] then 0
    else
      var op := ops[|ops| - 1];
      Nesting(ops[..|ops| - 1], t) + if op == LockBy(t) then 1 else if op == UnlockBy(t) then -1 else 0
  }

  /** The other tasks that have called `mutex_lock`, in order. */
  function Arrived(ops: seq<MutexOp>, t: TaskId): seq<TaskId> {
    if ops == [] then []
    else
      var op := ops[|ops| - 1];
      Arrived(ops[..|ops| - 1], t) + if op.LockBy? && op.t != t then [op.t] else []
  }

  /** A task that owns the mutex keeps it, whatever the others try, until it has unlocked it as
      often as it has locked it; then the first who has waited owns it once, or it is free. */
  lemma {:induction false} NestedLocks(m: MutexState, ops: seq<MutexOp>, t: TaskId)
    requires m.owner == Some(t) && m.count > 0
    requires forall k :: 0 <= k < |ops| ==> m.count + Nesting(ops[..k], t) > 0
    ensures var e, left, queue := After(m, ops), m.count + Nesting(ops, t), m.waiters + Arrived(ops, t);
            && left >= 0
            && (left > 0 ==> e == MutexState(Some(t), left, queue))
            && (left == 0 ==> e == if queue == [] then UNLOCKED else MutexState(Some(queue[0]), 1, queue[1..]))
    decreases |ops|
  {
    if ops == [] {
      assert m.waiters + [] == m.waiters;
    } else {
      var n := |ops| - 1;
      var before := ops[..n];
      forall k | 0 <= k < n ensures before[..k] == ops[..k] {
      }
      NestedLocks(m, before, t);
      assert m.count + Nesting(ops[..n], t) > 0;
      var queue := m.waiters + Arrived(before, t);
      assert queue + [] == queue;
      if ops[n].LockBy? {
        assert m.waiters + (Arrived(before, t) + [ops[n].t]) == queue + [ops[n].t];
      }
    }
  }

  /** The mutex as the kernel keeps it, updated in place. */
  class KernelMutex {
    var owner: Option<TaskId>
    var lockedCount: nat
    var waitList: seq<TaskId>

    ghost function State(): MutexState
      reads this
    {
      MutexState(owner, lockedCount, waitList)
    }

    /** Storage with anything in it. */
    constructor () {
    }

    /** `mutex_init`, whatever the memory held before. */
    method Init()
      modifies this
      ensures State() == UNLOCKED
    {
      lockedCount, owner, waitList := 0, None, [];
    }

    method Lock(curr: TaskId) returns (blocked: bool)
      modifies this
      ensures State() == old(State()).Lock(curr)
      ensures blocked <==> old(lockedCount) != 0 && old(owner) != Some(curr)
    {
      blocked := false;
      if lockedCount == 0 {
        lockedCount := 1;
        owner := Some(curr);
      } else if owner == Some(curr) {
        lockedCount := lockedCount + 1;
      } else {
        waitList := waitList + [curr];
        blocked := true;
      }
    }

    /** `woken` is the waiter made ready, which owns the mutex when this returns. */
    method Unlock(curr: TaskId) returns (woken: Option<TaskId>)
      requires owner == Some(curr) ==> lockedCount > 0
      modifies this
      ensures State() == old(State()).Unlock(curr)
      ensures woken.Some? ==> owner == woken && old(waitList) == [woken.value] + waitList
    {
      woken := None;
      if owner == Some(curr) {
        lockedCount := lockedCount - 1;
        if lockedCount == 0 {
          owner := None;
          if |waitList| > 0 {
            woken := Some(waitList[0]);
            waitList := waitList[1..];
            lockedCount := 1;
            owner := woken;
          }
        }
      }
    }
  }
}
