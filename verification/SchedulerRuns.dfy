/**
 What holds of the edge scheduler over whole runs, whatever order `std::sort` gives to
 equivalent tasks.
 */
module SchedulerRuns {
  import opened SchedulerModel
  import opened SchedulerCalls

  // ---------------------------------------------------------------- order of starts

  lemma StepSorted(s: State, op: Op, s': State)
    requires Sorted(s.pending) && Next(s, op, s')
    ensures Sorted(s'.pending)
  {
  }

  lemma {:induction false} PendingSorted(ops: seq<Op>, trace: seq<State>, n: nat)
    requires IsRun(ops, trace) && n <= |ops|
    ensures Sorted(trace[n].pending)
    decreases n
  {
    if n > 0 {
      PendingSorted(ops, trace, n - 1);
      StepSorted(trace[n - 1], ops[n - 1], trace[n]);
    }
  }

  // ---------------------------------------------------------------- no priority inversion

  /** Call `i` of a run scheduled `t`. */
  predicate ScheduledAt(t: Task, ops: seq<Op>, trace: seq<State>, i: nat)
    requires IsRun(ops, trace)
  {
    i < |ops| && ops[i].Schedule? && FromCall(t, trace[i], ops[i])
  }

  /** By the arguments of the calls that scheduled them, `b`'s task may start while `a`'s waits. */
  predicate CallMayStartBefore(b: Op, a: Op)
    requires b.Schedule? && a.Schedule?
  {
    b.priority > a.priority || (b.priority == a.priority && b.deadlineMs <= a.deadlineMs)
  }

  lemma StepKeepsOrAdds(s: State, op: Op, s': State, t: Task)
    requires Next(s, op, s') && t in s'.pending
    ensures t in s.pending || (op.Schedule? && FromCall(t, s, op))
  {
    if op.Schedule? {
      var added := ScheduleAdds(s, op, s');
      assert t in multiset(s'.pending);
    }
  }

  /** Every pending task was scheduled by some call before, and is what its arguments say. */
  lemma {:induction false} PendingFromCalls(ops: seq<Op>, trace: seq<State>, n: nat)
    requires IsRun(ops, trace) && n <= |ops|
    ensures forall t :: t in trace[n].pending ==> exists i :: 0 <= i < n && ScheduledAt(t, ops, trace, i)
    decreases n
  {
    if n > 0 {
      PendingFromCalls(ops, trace, n - 1);
      assert Next(trace[n - 1], ops[n - 1], trace[n]);
      hide Next, FromCall;
      forall t | t in trace[n].pending
        ensures exists i :: 0 <= i < n && ScheduledAt(t, ops, trace, i)
      {
        StepKeepsOrAdds(trace[n - 1], ops[n - 1], trace[n], t);
        if t !in trace[n - 1].pending {
          assert ScheduledAt(t, ops, trace, n - 1);
        }
      }
    }
  }

  lemma SortedStarts(p: seq<Task>, i: nat, j: nat)
    requires Sorted(p) && j <= i < |p|
    ensures MayStartBefore(p[j], p[i])
  {
    assert i > j ==> !Precedes(p[i], p[j]);
  }

  /** No priority inversion: when tick `k` of a run starts the first `n` pending tasks, none that is
      pending at that moment, whether it starts later in the same tick or stays pending, should
      have come first, judged by the arguments with which the two were scheduled. */
  lemma NoPriorityInversion(ops: seq<Op>, trace: seq<State>, k: nat) returns (n: nat)
    requires IsRun(ops, trace) && k < |ops| && ops[k].DoTick?
    ensures TickMoves(trace[k], trace[k + 1], n)
    ensures forall t :: t in trace[k].pending ==> exists x :: 0 <= x < k && ScheduledAt(t, ops, trace, x)
    ensures forall i, j :: 0 <= j < n && j <= i < |trace[k].pending| ==>
              MayStartBefore(trace[k].pending[j], trace[k].pending[i])
    ensures forall i, j, x, y ::
              0 <= j < n && j <= i < |trace[k].pending| && 0 <= x < k && 0 <= y < k
              && ScheduledAt(trace[k].pending[i], ops, trace, x) && ScheduledAt(trace[k].pending[j], ops, trace, y) ==>
                CallMayStartBefore(ops[y], ops[x])
  {
    PendingSorted(ops, trace, k);
    PendingFromCalls(ops, trace, k);
    assert Next(trace[k], ops[k], trace[k + 1]);
    n := TickStarts(trace[k], trace[k + 1]);
    hide Next, Sorted, TickMoves;
    forall i, j | 0 <= j < n && j <= i < |trace[k].pending|
      ensures MayStartBefore(trace[k].pending[j], trace[k].pending[i])
    {
      SortedStarts(trace[k].pending, i, j);
    }
  }

  // ---------------------------------------------------------------- ticks alone

  predicate AllWanted(ts: seq<Task>) {
    forall i :: 0 <= i < |ts| ==> ts[i].running
  }

  lemma {:induction false} LiveIsWanted(ts: seq<Task>)
    ensures AllWanted(Live(ts)) && |Live(ts)| <= |ts|
    ensures |Live(ts)| == |ts| ==> AllWanted(ts)
  {
    if ts != [] {
      LiveIsWanted(ts[1..]);
    }
  }

  lemma TickWanted(s: State)
    ensures AllWanted(Tick(s).running)
  {
    LiveIsWanted(s.running);
  }

  /** A tick on a state without cancelled tasks fills the slots or empties the queue. */
  lemma TickFills(s: State)
    requires AllWanted(s.running)
    ensures Tick(s).running == s.running + StartAll(s.pending[..Starts(s)])
    ensures Tick(s).pending == [] || |Tick(s).running| >= s.cap
  {
    AllLive(s.running);
  }

  lemma FullTickIsIdle(s: State)
    requires AllWanted(s.running) && (s.pending == [] || |s.running| >= s.cap)
    ensures Tick(s) == s
  {
    AllLive(s.running);
    assert Starts(s) == 0;
    assert s.running + StartAll(s.pending[..0]) == s.running;
  }

  /** Two ticks reach a fixed point, in which every running task is wanted and either nothing is
      pending or every slot is taken. */
  lemma TwoTicksStabilise(s: State)
    ensures var t := Tick(Tick(s));
            Tick(t) == t && AllWanted(t.running) && (t.pending == [] || |t.running| >= t.cap)
  {
    TickWanted(s);
    TickFills(Tick(s));
    TickWanted(Tick(s));
    FullTickIsIdle(Tick(Tick(s)));
  }

  /** One tick is enough exactly when all pending tasks fit beside the running ones, cancelled ones
      included, or no task is cancelled, or the tasks still wanted fill the cap by themselves. */
  lemma OneTickStabilisesIff(s: State)
    ensures Tick(Tick(s)) == Tick(s)
            <==> s.pending == [] || |s.running| + |s.pending| <= s.cap
                 || Dead(s.running) == [] || |s.running| - |Dead(s.running)| >= s.cap
  {
    var t := Tick(s);
    TickWanted(s);
    LiveAndDead(s.running);
    if t.pending == [] || |t.running| >= t.cap {
      FullTickIsIdle(t);
    } else {
      assert |Tick(t).pending| < |t.pending|;
    }
  }

  /** One tick need not be enough: a cancelled task holds the only slot while the tick dispatches. */
  lemma OneTickCanStall(dead: Task, waiting: Task)
    requires !dead.running
    ensures var s := State([waiting], [dead], 1);
            Tick(s) == State([waiting], [], 1) && Tick(Tick(s)) == State([], [Start(waiting)], 1)
  {
    var s := State([waiting], [dead], 1);
    assert [dead][1..] == [] && Live([dead]) == [];
    assert [waiting][..0] == [] && StartAll([]) == [];
    assert Tick(s) == State([waiting], [], 1);
    assert [waiting][..1] == [waiting];
    assert Tick(Tick(s)).running == [] + StartAll([waiting]) == [Start(waiting)];
  }

  lemma {:induction false} LiveAndDead(ts: seq<Task>)
    ensures |Live(ts)| + |Dead(ts)| == |ts|
  {
    if ts != [] {
      LiveAndDead(ts[1..]);
    }
  }

  // ---------------------------------------------------------------- the cap

  /** The argument of the last `SetCap` among the first `n` calls, or `first` if there is none. */
  function LastCap(ops: seq<Op>, n: nat, first: nat): nat
    requires n <= |ops|
    decreases n
  {
    if n == 0 then first else if ops[n - 1].SetCap? then ops[n - 1].cap else LastCap(ops, n - 1, first)
  }

  /** The largest of `first` and the arguments of `SetCap` among the first `n` calls. */
  function LargestCap(ops: seq<Op>, n: nat, first: nat): nat
    requires n <= |ops|
    decreases n
  {
    if n == 0 then first
    else
      var before := LargestCap(ops, n - 1, first);
      if ops[n - 1].SetCap? && ops[n - 1].cap > before then ops[n - 1].cap else before
  }

  /** The cap in force is the one that was last set, whatever else was called since. */
  lemma {:induction false} CapIsLastSet(ops: seq<Op>, trace: seq<State>, n: nat)
    requires IsRun(ops, trace) && n <= |ops|
    ensures trace[n].cap == LastCap(ops, n, trace[0].cap)
    decreases n
  {
    if n > 0 {
      CapIsLastSet(ops, trace, n - 1);
      assert Next(trace[n - 1], ops[n - 1], trace[n]);
      hide IsRun, IsSortOf, Find, Live, StartAll, Starts;
    }
  }

  lemma StepKeepsCap(s: State, op: Op, s': State, bound: nat)
    requires Next(s, op, s') && |s.running| <= bound && s.cap <= bound
    ensures |s'.running| <= bound
  {
    LiveIsWanted(s.running);
  }

  /** The running list never exceeds the largest cap ever set. */
  lemma {:induction false} CapKept(ops: seq<Op>, trace: seq<State>, n: nat)
    requires IsRun(ops, trace) && n <= |ops|
    ensures |trace[n].running| <= LargestCap(ops, n, trace[0].cap)
    ensures LastCap(ops, n, trace[0].cap) <= LargestCap(ops, n, trace[0].cap)
    decreases n
  {
    if n > 0 {
      hide Next;
      CapKept(ops, trace, n - 1);
      CapIsLastSet(ops, trace, n - 1);
      StepKeepsCap(trace[n - 1], ops[n - 1], trace[n], LargestCap(ops, n - 1, trace[0].cap));
    }
  }

  // ---------------------------------------------------------------- conservation

  /** The task as it was scheduled, without its run flag. */
  function Idle(t: Task): Task {
    t.(running := false, startTime := 0)
  }

  function IdleAll(ts: seq<Task>): (r: seq<Task>)
    ensures |r| == |ts| && forall i :: 0 <= i < |ts| ==> r[i] == Idle(ts[i])
  {
    seq(|ts|, i requires 0 <= i < |ts| => Idle(ts[i]))
  }

  /** What happened since the lists were last emptied by `initialize` or `shutdown`: the tasks
      scheduled, those cancelled, and those that have left the lists. */
  datatype Ledger = Ledger(scheduled: multiset<Task>, cancelled: multiset<Task>, removed: multiset<Task>)

  const BLANK: Ledger := Ledger(multiset{}, multiset{}, multiset{})

  function Post(l: Ledger, s: State, op: Op): Ledger {
    match op
    case Initialize => BLANK
    case Shutdown => BLANK
    case DoTick => l.(removed := l.removed + multiset(IdleAll(Dead(s.running))))
    case Schedule(taskType, priority, deadlineMs) =>
      l.(scheduled := l.scheduled + multiset{NewTask(s, taskType, priority, deadlineMs)})
    case Cancel(id) =>
      var i, j := Find(s.pending, id), Find(s.running, id);
      if i < |s.pending| then
        l.(cancelled := l.cancelled + multiset{s.pending[i]}, removed := l.removed + multiset{s.pending[i]})
      else if j < |s.running| && s.running[j].running then
        l.(cancelled := l.cancelled + multiset{Idle(s.running[j])})
      else l
    case SetCap(_) => l
  }

  function Books(ops: seq<Op>, trace: seq<State>, n: nat): Ledger
    requires IsRun(ops, trace) && n <= |ops|
    decreases n
  {
    if n == 0 then BLANK else Post(Books(ops, trace, n - 1), trace[n - 1], ops[n - 1])
  }

  lemma BooksNext(ops: seq<Op>, trace: seq<State>, n: nat)
    requires IsRun(ops, trace) && n < |ops|
    ensures |trace| == |ops| + 1 && Next(trace[n], ops[n], trace[n + 1])
    ensures Books(ops, trace, n + 1) == Post(Books(ops, trace, n), trace[n], ops[n])
  {
  }

  /** Every scheduled task is pending, running or cancelled, once; every cancelled task still
      occupies a slot or has left, once. */
  predicate Balanced(s: State, l: Ledger) {
    && (forall t :: t in s.pending ==> Idle(t) == t)
    && l.scheduled == multiset(s.pending) + multiset(IdleAll(Live(s.running))) + l.cancelled
    && l.cancelled == multiset(IdleAll(Dead(s.running))) + l.removed
  }

  lemma IdleAppend(ts: seq<Task>, us: seq<Task>)
    ensures IdleAll(ts + us) == IdleAll(ts) + IdleAll(us)
  {
  }

  lemma {:induction false} DeadAppend(ts: seq<Task>, us: seq<Task>)
    ensures Dead(ts + us) == Dead(ts) + Dead(us)
  {
    if ts == [] {
      assert ts + us == us;
    } else {
      assert (ts + us)[1..] == ts[1..] + us;
      DeadAppend(ts[1..], us);
    }
  }

  lemma {:induction false} NoneDead(ts: seq<Task>)
    requires AllWanted(ts)
    ensures Dead(ts) == []
  {
    if ts != [] {
      NoneDead(ts[1..]);
    }
  }

  lemma TickBalanced(s: State, l: Ledger)
    requires Balanced(s, l)
    ensures Balanced(Tick(s), Post(l, s, DoTick))
  {
    TickRunning(s);
    TickTasks(s);
    hide Live, Dead, IdleAll, Idle, Tick;
  }

  /** The tasks a tick starts are those that are no longer pending. */
  lemma TickTasks(s: State)
    requires forall t :: t in s.pending ==> Idle(t) == t
    ensures forall t :: t in Tick(s).pending ==> Idle(t) == t
    ensures multiset(Tick(s).pending) + multiset(IdleAll(Tick(s).running))
            == multiset(s.pending) + multiset(IdleAll(Live(s.running)))
  {
    var n := Starts(s);
    var first, rest, live := s.pending[..n], s.pending[n..], Live(s.running);
    assert Tick(s).pending == rest && Tick(s).running == live + StartAll(first);
    hide Tick, Live, IdleAll, StartAll, Starts, Idle;
    assert s.pending == first + rest;
    IdleAppend(live, StartAll(first));
    Restored(first);
  }

  lemma TickRunning(s: State)
    ensures Live(Tick(s).running) == Tick(s).running && IdleAll(Dead(Tick(s).running)) == []
  {
    TickWanted(s);
    hide Tick, Live, Dead;
    AllLive(Tick(s).running);
    NoneDead(Tick(s).running);
  }

  /** Starting idle tasks and taking their flags off again. */
  lemma Restored(ts: seq<Task>)
    requires forall t :: t in ts ==> Idle(t) == t
    ensures IdleAll(StartAll(ts)) == ts
  {
    assert forall i :: 0 <= i < |ts| ==> ts[i] in ts;
  }

  lemma ScheduleBalanced(s: State, op: Op, s': State, l: Ledger)
    requires Balanced(s, l) && op.Schedule? && Next(s, op, s')
    ensures Balanced(s', Post(l, s, op))
  {
    var t := NewTask(s, op.taskType, op.priority, op.deadlineMs);
    assert multiset(s'.pending) == multiset(s.pending) + multiset{t};
    forall u | u in s'.pending
      ensures Idle(u) == u
    {
      assert u in multiset(s'.pending);
    }
  }

  lemma CancelPendingBalanced(s: State, id: nat, l: Ledger)
    requires Balanced(s, l) && Find(s.pending, id) < |s.pending|
    ensures Balanced(CancelTask(s, id), Post(l, s, Cancel(id)))
  {
    hide Live, Dead, IdleAll, Find;
    TakeOut(s.pending, Find(s.pending, id));
  }

  lemma TakeOut(ts: seq<Task>, i: nat)
    requires i < |ts|
    ensures multiset(ts) == multiset(ts[..i] + ts[i + 1..]) + multiset{ts[i]}
  {
    assert ts == ts[..i] + [ts[i]] + ts[i + 1..];
  }

  lemma CancelRunningBalanced(s: State, id: nat, l: Ledger)
    requires Balanced(s, l) && Find(s.pending, id) == |s.pending| && Find(s.running, id) < |s.running|
    ensures Balanced(CancelTask(s, id), Post(l, s, Cancel(id)))
  {
    hide Live, Dead, IdleAll, Find, Balanced;
    var j := Find(s.running, id);
    if s.running[j].running {
      MarkedBalanced(s, j, l);
    } else {
      assert s.running[j := s.running[j].(running := false)] == s.running;
    }
  }

  lemma MarkedBalanced(s: State, j: nat, l: Ledger)
    requires Balanced(s, l) && j < |s.running| && s.running[j].running
    ensures Balanced(s.(running := s.running[j := s.running[j].(running := false)]),
                     l.(cancelled := l.cancelled + multiset{Idle(s.running[j])}))
  {
    hide Live, Dead, IdleAll;
    Marked(s.running, j);
  }

  /** Marking a task moves it from the live to the dead part. */
  lemma Marked(ts: seq<Task>, j: nat)
    requires j < |ts| && ts[j].running
    ensures var marked := ts[j := ts[j].(running := false)];
            && multiset(IdleAll(Live(ts))) == multiset(IdleAll(Live(marked))) + multiset{Idle(ts[j])}
            && multiset(IdleAll(Dead(marked))) == multiset(IdleAll(Dead(ts))) + multiset{Idle(ts[j])}
  {
    var a, t, b := ts[..j], ts[j], ts[j + 1..];
    var t' := t.(running := false);
    assert ts == a + [t] + b && ts[j := t'] == a + [t'] + b;
    hide IdleAll;
    hide Live, Dead;
    LiveMiddle(a, t, b);
    LiveMiddle(a, t', b);
    DeadMiddle(a, t, b);
    DeadMiddle(a, t', b);
    IdleMiddle(Live(a), t, Live(b));
    IdleMiddle(Dead(a), t', Dead(b));
  }

  lemma LiveMiddle(a: seq<Task>, t: Task, b: seq<Task>)
    ensures Live(a + [t] + b) == (if t.running then Live(a) + [t] else Live(a)) + Live(b)
  {
    hide Live;
    LiveSnoc(a, t);
    LiveAppend(a + [t], b);
  }

  lemma DeadMiddle(a: seq<Task>, t: Task, b: seq<Task>)
    ensures Dead(a + [t] + b) == (if t.running then Dead(a) else Dead(a) + [t]) + Dead(b)
  {
    DeadSnoc(a, t);
    hide Dead;
    DeadAppend(a + [t], b);
  }

  lemma DeadSnoc(ts: seq<Task>, t: Task)
    ensures Dead(ts + [t]) == if t.running then Dead(ts) else Dead(ts) + [t]
  {
    DeadAppend(ts, [t]);
    assert [t][1..] == [];
  }

  lemma IdleMiddle(a: seq<Task>, t: Task, b: seq<Task>)
    ensures multiset(IdleAll(a + [t] + b)) == multiset(IdleAll(a + b)) + multiset{Idle(t)}
  {
    IdleAppend(a + [t], b);
    IdleAppend(a, [t]);
    IdleAppend(a, b);
    assert IdleAll([t]) == [Idle(t)];
  }

  lemma StepBalanced(s: State, op: Op, s': State, l: Ledger)
    requires Balanced(s, l) && Next(s, op, s')
    ensures Balanced(s', Post(l, s, op))
  {
    match op
    case DoTick => TickBalanced(s, l);
    case Schedule(_, _, _) => ScheduleBalanced(s, op, s', l);
    case Cancel(id) =>
      if Find(s.pending, id) < |s.pending| {
        CancelPendingBalanced(s, id, l);
      } else if Find(s.running, id) < |s.running| {
        CancelRunningBalanced(s, id, l);
      }
    case _ =>
  }

  lemma BlankBalanced(s: State)
    requires s.pending == [] && s.running == []
    ensures Balanced(s, BLANK)
  {
    assert Live([]) == [] && Dead([]) == [] && IdleAll([]) == [];
  }

  lemma {:induction false} RunBalanced(ops: seq<Op>, trace: seq<State>, n: nat)
    requires IsRun(ops, trace) && n <= |ops|
    ensures Balanced(trace[n], Books(ops, trace, n))
    decreases n
  {
    hide Balanced, Post, Next;
    if n == 0 {
      BlankBalanced(trace[0]);
    } else {
      hide Books;
      BooksNext(ops, trace, n - 1);
      hide IsRun;
      RunBalanced(ops, trace, n - 1);
      StepBalanced(trace[n - 1], ops[n - 1], trace[n], Books(ops, trace, n - 1));
    }
  }

  lemma {:induction false} IdleParts(ts: seq<Task>)
    ensures multiset(IdleAll(ts)) == multiset(IdleAll(Live(ts))) + multiset(IdleAll(Dead(ts)))
  {
    if ts == [] {
      assert IdleAll([]) == [];
    } else {
      var t, us := ts[0], ts[1..];
      assert ts == [t] + us;
      IdleParts(us);
      IdleAppend([t], us);
      IdleAppend([t], Live(us));
      IdleAppend([t], Dead(us));
      assert IdleAll([t]) == [Idle(t)];
      assert [] + Live(us) == Live(us) && [] + Dead(us) == Dead(us);
    }
  }

  /** Conservation: the tasks scheduled since the lists were last emptied are, but for run flags,
      those pending, those running and those that have left, and only cancelled tasks leave. So a
      task that was not cancelled is in exactly one of the lists, exactly once. */
  lemma Conservation(ops: seq<Op>, trace: seq<State>, n: nat)
    requires IsRun(ops, trace) && n <= |ops|
    ensures var s, l := trace[n], Books(ops, trace, n);
            && l.scheduled == multiset(s.pending) + multiset(IdleAll(s.running)) + l.removed
            && l.removed <= l.cancelled <= l.scheduled
            && l.scheduled - l.cancelled == multiset(s.pending) + multiset(IdleAll(Live(s.running)))
  {
    RunBalanced(ops, trace, n);
    IdleParts(trace[n].running);
  }
}
