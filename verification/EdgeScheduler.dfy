/**
 The edge scheduler as the object the runtime updates in place.
 */
module EdgeSchedulerObject {
  import opened SchedulerModel
  import opened SchedulerCalls

  class EdgeScheduler {
    var pendingTasks: seq<Task>
    var runningTasks: seq<Task>
    var maxConcurrentTasks: nat

    function State(): SchedulerModel.State
      reads this
    {
      SchedulerModel.State(pendingTasks, runningTasks, maxConcurrentTasks)
    }

    constructor ()
      ensures State() == SchedulerModel.State([], [], DEFAULT_CAP)
    {
      pendingTasks, runningTasks, maxConcurrentTasks := [], [], DEFAULT_CAP;
    }

    method Initialize()
      modifies this
      ensures Next(old(State()), SchedulerModel.Initialize, State())
    {
      pendingTasks, runningTasks := [], [];
    }

    method Shutdown()
      modifies this
      ensures Next(old(State()), SchedulerModel.Shutdown, State())
    {
      pendingTasks, runningTasks := [], [];
    }

    /** Moves the first pending task to the end of the running ones. */
    method ExecuteNextTask()
      modifies this
      ensures maxConcurrentTasks == old(maxConcurrentTasks)
      ensures if old(pendingTasks) == [] then State() == old(State())
              else pendingTasks == old(pendingTasks)[1..]
                   && runningTasks == old(runningTasks) + [Start(old(pendingTasks)[0])]
    {
      if pendingTasks == [] {
        return;
      }
      var task := pendingTasks[0];
      pendingTasks := pendingTasks[1..];
      runningTasks := runningTasks + [task.(running := true, startTime := 0)];
    }

    /** Starts tasks while there are free slots, and only then reaps the cancelled ones. */
    method Tick()
      modifies this
      ensures Next(old(State()), DoTick, State())
      ensures exists n :: TickMoves(old(State()), State(), n)
    {
      ghost var n := Starts(State());
      ghost var k := 0;
      while |runningTasks| < maxConcurrentTasks && pendingTasks != []
        invariant k <= n && maxConcurrentTasks == old(maxConcurrentTasks)
        invariant pendingTasks == old(pendingTasks)[k..]
        invariant runningTasks == old(runningTasks) + StartAll(old(pendingTasks)[..k])
        decreases |pendingTasks|
      {
        ExecuteNextTask();
        k := k + 1;
        assert StartAll(old(pendingTasks)[..k])
            == StartAll(old(pendingTasks)[..k - 1]) + [Start(old(pendingTasks)[k - 1])];
      }
      assert k == n;
      Reap();
      LiveAppend(old(runningTasks), StartAll(old(pendingTasks)[..n]));
      AllLive(StartAll(old(pendingTasks)[..n]));
      ghost var moved := TickStarts(old(State()), State());
    }

    /** The second loop of `tick`: erases in place every task that is no longer wanted. */
    method Reap()
      modifies this`runningTasks
      ensures runningTasks == Live(old(runningTasks))
    {
      var i := 0;
      assert runningTasks[..0] == [] == Live([]);
      ghost var done := 0;
      while i < |runningTasks|
        invariant i <= |runningTasks| && done <= |old(runningTasks)|
        invariant runningTasks[..i] == Live(old(runningTasks)[..done])
        invariant runningTasks[i..] == old(runningTasks)[done..]
        decreases |runningTasks| - i
      {
        Reached(runningTasks, i, old(runningTasks), done);
        LiveSnoc(old(runningTasks)[..done], runningTasks[i]);
        if !runningTasks[i].running {
          runningTasks := runningTasks[..i] + runningTasks[i + 1..];
        } else {
          i := i + 1;
        }
        done := done + 1;
      }
      assert runningTasks[..i] == runningTasks;
      assert old(runningTasks)[..done] == old(runningTasks);
    }

    /** Appends a task whose id is the number of tasks in both lists plus one, and re-sorts. */
    method ScheduleTask(taskType: TaskType, priority: nat, deadlineMs: nat) returns (id: nat)
      modifies this
      ensures Next(old(State()), Schedule(taskType, priority, deadlineMs), State())
      ensures id == |old(pendingTasks)| + |old(runningTasks)| + 1
      ensures multiset(pendingTasks)
              == multiset(old(pendingTasks)) + multiset{Task(id, taskType, priority, deadlineMs, false, 0)}
    {
      id := |pendingTasks| + |runningTasks| + 1;
      var task := Task(id, taskType, priority, deadlineMs, false, 0);
      pendingTasks := pendingTasks + [task];
      pendingTasks := StdSort(pendingTasks);
    }

    /** Removes a pending task at once; only marks a running one. */
    method CancelTask(id: nat) returns (found: bool)
      modifies this
      ensures Next(old(State()), Cancel(id), State())
      ensures found <==> exists t :: (t in old(pendingTasks) || t in old(runningTasks)) && t.taskId == id
    {
      var i := FindIf(pendingTasks, id);
      if i < |pendingTasks| {
        pendingTasks := pendingTasks[..i] + pendingTasks[i + 1..];
        return true;
      }
      var j := FindIf(runningTasks, id);
      if j < |runningTasks| {
        runningTasks := runningTasks[j := runningTasks[j].(running := false)];
        return true;
      }
      return false;
    }

    method IsTaskRunning(id: nat) returns (running: bool)
      ensures running <==> IsRunning(State(), id)
    {
      var i := 0;
      while i < |runningTasks|
        invariant i <= |runningTasks|
        invariant Find(runningTasks, id) >= i
      {
        if runningTasks[i].taskId == id {
          return runningTasks[i].running;
        }
        i := i + 1;
      }
      return false;
    }

    method GetPendingTaskCount() returns (n: nat)
      ensures n == |State().pending|
    {
      n := |pendingTasks|;
    }

    method SetMaxConcurrentTasks(max: nat)
      modifies this
      ensures Next(old(State()), SetCap(max), State())
      ensures State() == old(State()).(cap := max)
    {
      maxConcurrentTasks := max;
    }
  }

  /** What `Reap` has at hand when `ts` from `i` on is what is left of `was` from `done` on. */
  lemma Reached(ts: seq<Task>, i: nat, was: seq<Task>, done: nat)
    requires i < |ts| && done <= |was| && ts[i..] == was[done..]
    ensures done < |was| && ts[i] == was[done] && was[..done + 1] == was[..done] + [ts[i]]
    ensures ts[i + 1..] == was[done + 1..] && ts[..i + 1] == ts[..i] + [ts[i]]
    ensures (ts[..i] + ts[i + 1..])[..i] == ts[..i] && (ts[..i] + ts[i + 1..])[i..] == ts[i + 1..]
  {
    assert ts[i] == ts[i..][0] == was[done..][0];
    assert ts[i + 1..] == ts[i..][1..] == was[done..][1..] == was[done + 1..];
  }

  /** `std::find_if` for a task id. */
  method FindIf(ts: seq<Task>, id: nat) returns (i: nat)
    ensures i == Find(ts, id)
  {
    i := 0;
    while i < |ts| && ts[i].taskId != id
      invariant i <= |ts| && Find(ts, id) >= i
    {
      i := i + 1;
    }
  }

  /** One possible `std::sort`; callers know only that the result is a sorted permutation. */
  method StdSort(ts: seq<Task>) returns (sorted: seq<Task>)
    ensures IsSortOf(ts, sorted)
  {
    sorted := [];
    var i := 0;
    while i < |ts|
      invariant i <= |ts| && IsSortOf(ts[..i], sorted)
    {
      sorted := Insert(sorted, ts[i]);
      assert ts[..i + 1] == ts[..i] + [ts[i]];
      i := i + 1;
    }
    assert ts[..i] == ts;
  }

  method Insert(sorted: seq<Task>, t: Task) returns (r: seq<Task>)
    requires Sorted(sorted)
    ensures IsSortOf(sorted + [t], r)
  {
    var k := |sorted|;
    while k > 0 && Precedes(t, sorted[k - 1])
      invariant 0 <= k <= |sorted|
      invariant forall j :: k <= j < |sorted| ==> Precedes(t, sorted[j])
    {
      k := k - 1;
    }
    r := sorted[..k] + [t] + sorted[k..];
    assert sorted == sorted[..k] + sorted[k..];
    InsertedSorted(sorted, t, k);
  }

  lemma InsertedSorted(sorted: seq<Task>, t: Task, k: nat)
    requires Sorted(sorted) && k <= |sorted|
    requires k > 0 ==> !Precedes(t, sorted[k - 1])
    requires forall j :: k <= j < |sorted| ==> Precedes(t, sorted[j])
    ensures Sorted(sorted[..k] + [t] + sorted[k..])
  {
    var r := sorted[..k] + [t] + sorted[k..];
    forall j | 0 <= j < k
      ensures !Precedes(t, sorted[j])
    {
      assert j < k - 1 ==> !Precedes(sorted[k - 1], sorted[j]);
    }
    forall i, j | 0 <= i < j < |r|
      ensures !Precedes(r[j], r[i])
    {
      var a, b := if i < k then i else i - 1, if j < k then j else j - 1;
      assert i != k ==> r[i] == sorted[a];
      assert j != k ==> r[j] == sorted[b];
      assert i != k && j != k ==> !Precedes(sorted[b], sorted[a]);
    }
  }
}
