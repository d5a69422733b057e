/**
 What each call on the scheduler does, said of the lists before and after it and of the
 arguments of the call alone.
 */
module SchedulerCalls {
  import opened SchedulerModel

  /** `b` may start while `a` waits: `a` has no higher priority, nor the same and an earlier deadline. */
  predicate MayStartBefore(b: Task, a: Task) {
    b.priority >= a.priority && (b.priority == a.priority ==> b.deadlineMs <= a.deadlineMs)
  }

  // ---------------------------------------------------------------- scheduling

  /** `t` is the task a call schedules in state `s`: its id is the number of tasks plus one, the
      rest are the arguments, and it has not been started. */
  predicate FromCall(t: Task, s: State, op: Op)
    requires op.Schedule?
  {
    && t.taskId == |s.pending| + |s.running| + 1
    && t.taskType == op.taskType && t.priority == op.priority && t.deadlineMs == op.deadlineMs
    && !t.running && t.startTime == 0
  }

  /** Scheduling adds one task, which is what the arguments say, to the pending ones, leaves these
      in order of priority and deadline, and changes nothing else. */
  lemma ScheduleAdds(s: State, op: Op, s': State) returns (t: Task)
    requires op.Schedule? && Next(s, op, s')
    ensures FromCall(t, s, op) && multiset(s'.pending) == multiset(s.pending) + multiset{t}
    ensures forall i, j :: 0 <= i < j < |s'.pending| ==> MayStartBefore(s'.pending[i], s'.pending[j])
    ensures s'.running == s.running && s'.cap == s.cap
  {
    t := NewTask(s, op.taskType, op.priority, op.deadlineMs);
    assert multiset(s.pending + [t]) == multiset(s.pending) + multiset{t};
    forall i, j | 0 <= i < j < |s'.pending|
      ensures MayStartBefore(s'.pending[i], s'.pending[j])
    {
      assert !Precedes(s'.pending[j], s'.pending[i]);
    }
  }

  // ---------------------------------------------------------------- ticking

  /** From `s` to `s'` the first `n` pending tasks were started, behind the running tasks that are
      still wanted. They are as many as there are, or as the cap leaves room for, and a cancelled
      task takes up room until it is reaped. */
  predicate TickMoves(s: State, s': State, n: nat) {
    var kept := Live(s.running);
    && n <= |s.pending|
    && s'.pending == s.pending[n..]
    && |s'.running| == |kept| + n
    && s'.running[..|kept|] == kept
    && (forall j :: |kept| <= j < |s'.running| ==>
          s'.running[j] == s.pending[j - |kept|].(running := true, startTime := 0))
    && (n == |s.pending| || |s.running| + n >= s.cap)
    && (n == 0 || |s.running| + n <= s.cap)
    && s'.cap == s.cap
  }

  lemma TickStarts(s: State, s': State) returns (n: nat)
    requires Next(s, DoTick, s')
    ensures TickMoves(s, s', n)
  {
    n := Starts(s);
  }

  /** There is only one such state. */
  lemma TickMovesOnce(s: State, s1: State, n1: nat, s2: State, n2: nat)
    requires TickMoves(s, s1, n1) && TickMoves(s, s2, n2)
    ensures n1 == n2 && s1 == s2
  {
    assert n1 == n2;
    hide Live;
    SameLists(s1.running, s2.running, |Live(s.running)|);
  }

  lemma SameLists(a: seq<Task>, b: seq<Task>, k: nat)
    requires k <= |a| == |b| && a[..k] == b[..k]
    requires forall j :: k <= j < |a| ==> a[j] == b[j]
    ensures a == b
  {
    forall j | 0 <= j < |a|
      ensures a[j] == b[j]
    {
      assert j < k ==> a[j] == a[..k][j] == b[..k][j];
    }
  }

  // ---------------------------------------------------------------- cancelling and asking

  /** The first task with an id. */
  predicate IsFirst(ts: seq<Task>, id: nat, i: nat) {
    i < |ts| && ts[i].taskId == id && forall k :: 0 <= k < i ==> ts[k].taskId != id
  }

  predicate Absent(ts: seq<Task>, id: nat) {
    forall i :: 0 <= i < |ts| ==> ts[i].taskId != id
  }

  /** Cancelling takes out the first pending task with the id; if none has it, it marks the first
      running one; if none has it either, it does nothing. */
  lemma CancelMeans(s: State, id: nat, s': State)
    requires Next(s, Cancel(id), s')
    ensures s'.cap == s.cap
    ensures forall i: nat :: IsFirst(s.pending, id, i) ==>
              s'.pending == s.pending[..i] + s.pending[i + 1..] && s'.running == s.running
    ensures forall j: nat :: Absent(s.pending, id) && IsFirst(s.running, id, j) ==>
              s'.pending == s.pending && s'.running == s.running[j := s.running[j].(running := false)]
    ensures Absent(s.pending, id) && Absent(s.running, id) ==> s' == s
  {
    forall ts: seq<Task>, i: nat | IsFirst(ts, id, i)
      ensures Find(ts, id) == i
    {
      FindsFirst(ts, id, i);
    }
  }

  lemma FindsFirst(ts: seq<Task>, id: nat, i: nat)
    requires IsFirst(ts, id, i)
    ensures Find(ts, id) == i
  {
  }

  /** The query answers with the flag of the first running task with the id. */
  lemma IsRunningMeans(s: State, id: nat)
    ensures IsRunning(s, id) <==> exists j: nat :: IsFirst(s.running, id, j) && s.running[j].running
  {
    var j := Find(s.running, id);
    if IsRunning(s, id) {
      assert IsFirst(s.running, id, j);
    }
    if i: nat :| IsFirst(s.running, id, i) && s.running[i].running {
      FindsFirst(s.running, id, i);
    }
  }
}
