/**
 Task ids are the number of tasks in both lists plus one: certainly unique until the first task
 leaves the lists, and from then on exactly as long as that number is not in use.
 */
module SchedulerIds {
  import opened SchedulerModel
  import opened SchedulerRuns

  /** The ids of `m` are exactly 1 to `n`, each once. */
  ghost predicate Numbered(m: multiset<Task>, n: nat) {
    && |m| == n
    && (forall t :: t in m ==> 1 <= t.taskId <= n && m[t] == 1)
    && (forall t, u :: t in m && u in m && t.taskId == u.taskId ==> t == u)
    && (forall id :: 1 <= id <= n ==> HasId(m, id))
  }

  ghost predicate HasId(m: multiset<Task>, id: nat) {
    exists t :: t in m && t.taskId == id
  }

  lemma NumberedNext(m: multiset<Task>, n: nat, t: Task)
    requires Numbered(m, n) && t.taskId == n + 1
    ensures Numbered(m + multiset{t}, n + 1)
  {
    var m' := m + multiset{t};
    assert t in m';
    forall id | 1 <= id <= n + 1
      ensures HasId(m', id)
    {
      if id <= n {
        assert HasId(m, id);
        var u :| u in m && u.taskId == id;
        assert u in m';
      }
    }
  }

  /** While nothing has left, the scheduled tasks are those in the lists. */
  lemma ListsAreScheduled(ops: seq<Op>, trace: seq<State>, n: nat)
    requires IsRun(ops, trace) && n <= |ops| && Books(ops, trace, n).removed == multiset{}
    ensures var s, l := trace[n], Books(ops, trace, n);
            && l.scheduled == multiset(s.pending) + multiset(IdleAll(s.running))
            && |l.scheduled| == |s.pending| + |s.running|
  {
    hide Books, Next;
    Conservation(ops, trace, n);
  }

  /** Nothing has left before if nothing has left after, unless the lists were emptied. */
  lemma RemovedGrows(l: Ledger, s: State, op: Op)
    requires Post(l, s, op).removed == multiset{} && !op.Initialize? && !op.Shutdown?
    ensures l.removed == multiset{}
    ensures !op.Schedule? ==> Post(l, s, op).scheduled == l.scheduled
  {
    hide IdleAll, Dead, Find;
    assert l.removed <= Post(l, s, op).removed;
  }

  lemma ScheduledNumberedStep(l: Ledger, s: State, op: Op)
    requires op.Schedule? && Numbered(l.scheduled, |l.scheduled|) && |l.scheduled| == |s.pending| + |s.running|
    ensures Numbered(Post(l, s, op).scheduled, |Post(l, s, op).scheduled|)
  {
    hide Numbered;
    NumberedNext(l.scheduled, |l.scheduled|, NewTask(s, op.taskType, op.priority, op.deadlineMs));
  }

  lemma PostNumbered(l: Ledger, s: State, op: Op)
    requires Post(l, s, op).removed == multiset{}
    requires l.removed == multiset{} ==>
               Numbered(l.scheduled, |l.scheduled|) && |l.scheduled| == |s.pending| + |s.running|
    ensures Numbered(Post(l, s, op).scheduled, |Post(l, s, op).scheduled|)
  {
    if op.Initialize? || op.Shutdown? {
      assert Post(l, s, op) == BLANK;
    } else {
      RemovedGrows(l, s, op);
      hide Numbered, Post;
      if op.Schedule? {
        ScheduledNumberedStep(l, s, op);
      }
    }
  }

  /** While nothing has left, the ids of the scheduled tasks are their numbers. */
  ghost predicate BooksNumbered(ops: seq<Op>, trace: seq<State>, n: nat)
    requires IsRun(ops, trace) && n <= |ops|
  {
    var l := Books(ops, trace, n);
    l.removed == multiset{} ==> Numbered(l.scheduled, |l.scheduled|)
  }

  lemma NoBooksNumbered(ops: seq<Op>, trace: seq<State>)
    requires IsRun(ops, trace)
    ensures BooksNumbered(ops, trace, 0)
  {
    assert Books(ops, trace, 0) == BLANK;
  }

  lemma BooksNumberedNext(ops: seq<Op>, trace: seq<State>, n: nat)
    requires IsRun(ops, trace) && n < |ops| && BooksNumbered(ops, trace, n)
    ensures BooksNumbered(ops, trace, n + 1)
  {
    BooksNext(ops, trace, n);
    hide Numbered, Post, Next, Books;
    var l := Books(ops, trace, n);
    if l.removed == multiset{} {
      ListsAreScheduled(ops, trace, n);
    }
    hide IsRun;
    if Post(l, trace[n], ops[n]).removed == multiset{} {
      PostNumbered(l, trace[n], ops[n]);
    }
  }

  lemma {:induction false} ScheduledNumbered(ops: seq<Op>, trace: seq<State>, n: nat)
    requires IsRun(ops, trace) && n <= |ops|
    ensures BooksNumbered(ops, trace, n)
  {
    hide BooksNumbered;
    if n == 0 {
      NoBooksNumbered(ops, trace);
    } else {
      ScheduledNumbered(ops, trace, n - 1);
      BooksNumberedNext(ops, trace, n - 1);
    }
  }

  // ---------------------------------------------------------------- by position

  /** Both lists as one, without run flags. */
  function Tasks(s: State): seq<Task> {
    s.pending + IdleAll(s.running)
  }

  /** No two tasks of the two lists have the same id. */
  ghost predicate DistinctIds(s: State) {
    forall i, j :: 0 <= i < j < |Tasks(s)| ==> Tasks(s)[i].taskId != Tasks(s)[j].taskId
  }

  ghost predicate HasTask(s: State, id: nat) {
    exists t :: (t in s.pending || t in s.running) && t.taskId == id
  }

  lemma Twice(ts: seq<Task>, i: nat, j: nat)
    requires i < j < |ts| && ts[i] == ts[j]
    ensures multiset(ts)[ts[i]] >= 2
  {
    assert ts == ts[..j] + [ts[j]] + ts[j + 1..];
    assert ts[i] in ts[..j];
  }

  lemma NumberedSeq(ts: seq<Task>)
    requires Numbered(multiset(ts), |ts|)
    ensures forall i, j :: 0 <= i < j < |ts| ==> ts[i].taskId != ts[j].taskId
  {
    forall i, j | 0 <= i < j < |ts|
      ensures ts[i].taskId != ts[j].taskId
    {
      assert ts[i] in multiset(ts) && ts[j] in multiset(ts);
      if ts[i] == ts[j] {
        Twice(ts, i, j);
      }
    }
  }

  lemma TasksAt(s: State)
    ensures |Tasks(s)| == |s.pending| + |s.running|
    ensures forall i :: 0 <= i < |s.pending| ==> Tasks(s)[i] == s.pending[i]
    ensures forall j :: 0 <= j < |s.running| ==> Tasks(s)[|s.pending| + j] == Idle(s.running[j])
  {
  }

  lemma NumberedLists(s: State)
    requires Numbered(multiset(Tasks(s)), |Tasks(s)|)
    ensures forall id: nat :: 1 <= id <= |Tasks(s)| <==> HasTask(s, id)
  {
    hide Tasks, Numbered, HasTask;
    forall id: nat
      ensures 1 <= id <= |Tasks(s)| <==> HasTask(s, id)
    {
      if 1 <= id <= |Tasks(s)| {
        NumberIsUsed(s, id);
      }
      if HasTask(s, id) {
        UsedIsNumber(s, id);
      }
    }
  }

  lemma NumberIsUsed(s: State, id: nat)
    requires Numbered(multiset(Tasks(s)), |Tasks(s)|) && 1 <= id <= |Tasks(s)|
    ensures HasTask(s, id)
  {
    TasksAt(s);
    assert HasId(multiset(Tasks(s)), id);
    hide Tasks, IdleAll, Numbered;
    var u :| u in multiset(Tasks(s)) && u.taskId == id;
    var k :| 0 <= k < |Tasks(s)| && Tasks(s)[k] == u;
    if k < |s.pending| {
      assert s.pending[k] in s.pending;
    } else {
      assert Tasks(s)[|s.pending| + (k - |s.pending|)] == Idle(s.running[k - |s.pending|]);
      assert s.running[k - |s.pending|] in s.running;
    }
  }

  lemma NumberedBound(m: multiset<Task>, n: nat, t: Task)
    requires Numbered(m, n) && t in m
    ensures 1 <= t.taskId <= n
  {
  }

  lemma PlaceOf(s: State, t: Task) returns (k: nat)
    requires t in s.pending || t in s.running
    ensures k < |Tasks(s)| && Tasks(s)[k].taskId == t.taskId
  {
    TasksAt(s);
    hide Tasks;
    if t in s.pending {
      k :| 0 <= k < |s.pending| && s.pending[k] == t;
    } else {
      var j :| 0 <= j < |s.running| && s.running[j] == t;
      k := |s.pending| + j;
      assert Tasks(s)[k] == Idle(t);
    }
  }

  lemma UsedIsNumber(s: State, id: nat)
    requires Numbered(multiset(Tasks(s)), |Tasks(s)|) && HasTask(s, id)
    ensures 1 <= id <= |Tasks(s)|
  {
    var t :| (t in s.pending || t in s.running) && t.taskId == id;
    hide Tasks, Numbered, HasTask;
    var k := PlaceOf(s, t);
    assert Tasks(s)[k] in multiset(Tasks(s));
    NumberedBound(multiset(Tasks(s)), |Tasks(s)|, Tasks(s)[k]);
  }

  /** As long as no task has left the lists since they were last emptied, the ids in them are
      exactly 1 to the number of tasks, each once. */
  lemma IdsAreNumbers(ops: seq<Op>, trace: seq<State>, n: nat)
    requires IsRun(ops, trace) && n <= |ops| && Books(ops, trace, n).removed == multiset{}
    ensures DistinctIds(trace[n])
    ensures forall id: nat :: 1 <= id <= |trace[n].pending| + |trace[n].running| <==> HasTask(trace[n], id)
  {
    ScheduledNumbered(ops, trace, n);
    ListsAreScheduled(ops, trace, n);
    assert multiset(Tasks(trace[n])) == multiset(trace[n].pending) + multiset(IdleAll(trace[n].running));
    TasksAt(trace[n]);
    NumberedSeq(Tasks(trace[n]));
    hide Numbered, Books, Next, HasTask, Tasks;
    NumberedLists(trace[n]);
  }

  // ---------------------------------------------------------------- exactly when ids stay distinct

  /** The ids of some tasks, each as often as it occurs. */
  function Ids(ts: seq<Task>): multiset<nat> {
    if ts == [] then multiset{} else multiset{ts[0].taskId} + Ids(ts[1..])
  }

  function AllIds(s: State): multiset<nat> {
    Ids(s.pending) + Ids(s.running)
  }

  lemma {:induction false} IdsAppend(ts: seq<Task>, us: seq<Task>)
    ensures Ids(ts + us) == Ids(ts) + Ids(us)
  {
    if ts == [] {
      assert ts + us == us;
    } else {
      assert (ts + us)[1..] == ts[1..] + us;
      IdsAppend(ts[1..], us);
    }
  }

  lemma IdsHead(t: Task, ts: seq<Task>)
    ensures Ids([t] + ts) == multiset{t.taskId} + Ids(ts)
  {
    assert ([t] + ts)[1..] == ts;
  }

  /** Taking one task out. */
  lemma IdsWithout(ts: seq<Task>, i: nat)
    requires i < |ts|
    ensures Ids(ts) == Ids(ts[..i] + ts[i + 1..]) + multiset{ts[i].taskId}
  {
    hide Ids;
    var tail := [ts[i]] + ts[i + 1..];
    assert ts == ts[..i] + tail;
    IdsHead(ts[i], ts[i + 1..]);
    IdsAppend(ts[..i], tail);
    IdsAppend(ts[..i], ts[i + 1..]);
  }

  lemma SameRest<T>(m: multiset<T>, n: multiset<T>, t: T)
    requires m + multiset{t} == n + multiset{t}
    ensures m == n
  {
    assert m == (m + multiset{t}) - multiset{t};
    assert n == (n + multiset{t}) - multiset{t};
  }

  lemma {:induction false} IdsOfPermutation(ts: seq<Task>, us: seq<Task>)
    requires multiset(ts) == multiset(us)
    ensures Ids(ts) == Ids(us)
    decreases |ts|
  {
    if ts == [] {
      assert |multiset(us)| == 0;
    } else {
      hide Ids;
      assert ts[..0] + ts[1..] == ts[1..] && ts[0] in multiset(us);
      var i :| 0 <= i < |us| && us[i] == ts[0];
      TakeOut(ts, 0);
      TakeOut(us, i);
      IdsWithout(ts, 0);
      IdsWithout(us, i);
      SameRest(multiset(ts[1..]), multiset(us[..i] + us[i + 1..]), ts[0]);
      IdsOfPermutation(ts[1..], us[..i] + us[i + 1..]);
    }
  }

  lemma {:induction false} IdsOfCopies(ts: seq<Task>, us: seq<Task>)
    requires |ts| == |us| && forall i :: 0 <= i < |ts| ==> ts[i].taskId == us[i].taskId
    ensures Ids(ts) == Ids(us)
  {
    if ts != [] {
      IdsOfCopies(ts[1..], us[1..]);
    }
  }

  lemma {:induction false} IdsOfLive(ts: seq<Task>)
    ensures Ids(Live(ts)) <= Ids(ts)
  {
    if ts != [] {
      IdsOfLive(ts[1..]);
      IdsAppend([ts[0]], Live(ts[1..]));
    }
  }

  lemma TickIds(s: State)
    ensures AllIds(Tick(s)) <= AllIds(s)
  {
    var n := Starts(s);
    hide Ids, Live, Starts;
    IdsOfLive(s.running);
    IdsAppend(Live(s.running), StartAll(s.pending[..n]));
    IdsOfCopies(s.pending[..n], StartAll(s.pending[..n]));
    assert s.pending == s.pending[..n] + s.pending[n..];
    IdsAppend(s.pending[..n], s.pending[n..]);
  }

  lemma CancelIds(s: State, id: nat)
    ensures AllIds(CancelTask(s, id)) <= AllIds(s)
  {
    hide Ids, Find;
    var i, j := Find(s.pending, id), Find(s.running, id);
    if i < |s.pending| {
      IdsWithout(s.pending, i);
    } else if j < |s.running| {
      IdsOfCopies(s.running, s.running[j := s.running[j].(running := false)]);
    }
  }

  lemma ScheduleIds(s: State, op: Op, s': State)
    requires op.Schedule? && Next(s, op, s')
    ensures AllIds(s') == AllIds(s) + multiset{|s.pending| + |s.running| + 1}
  {
    var t := NewTask(s, op.taskType, op.priority, op.deadlineMs);
    assert t.taskId == |s.pending| + |s.running| + 1;
    hide Ids, Sorted, NewTask;
    IdsWith(s.pending, t, s'.pending);
  }

  lemma IdsWith(ts: seq<Task>, t: Task, us: seq<Task>)
    requires multiset(us) == multiset(ts + [t])
    ensures Ids(us) == Ids(ts) + multiset{t.taskId}
  {
    assert Ids([t]) == multiset{t.taskId} by { assert [t][1..] == []; }
    hide Ids;
    IdsOfPermutation(ts + [t], us);
    IdsAppend(ts, [t]);
  }

  /** The ids of `m` are distinct. */
  ghost predicate NoneTwice(m: multiset<nat>) {
    forall id :: m[id] <= 1
  }

  lemma {:induction false} IdOccurs(ts: seq<Task>, id: nat)
    ensures id in Ids(ts) <==> exists i :: 0 <= i < |ts| && ts[i].taskId == id
  {
    if ts != [] {
      IdOccurs(ts[1..], id);
      if i :| 0 <= i < |ts| && ts[i].taskId == id {
        assert i > 0 ==> ts[1..][i - 1].taskId == id;
      }
    }
  }

  lemma {:induction false} NoneTwiceByPosition(ts: seq<Task>)
    ensures NoneTwice(Ids(ts)) <==> forall i, j :: 0 <= i < j < |ts| ==> ts[i].taskId != ts[j].taskId
  {
    if ts != [] {
      var us := ts[1..];
      NoneTwiceByPosition(us);
      IdOccurs(us, ts[0].taskId);
      assert forall i :: 0 <= i < |us| ==> us[i] == ts[i + 1];
      if NoneTwice(Ids(ts)) {
        assert Ids(ts)[ts[0].taskId] <= 1;
        assert forall id :: Ids(us)[id] <= Ids(ts)[id];
        forall i, j | 0 <= i < j < |ts|
          ensures ts[i].taskId != ts[j].taskId
        {
          assert ts[j] == us[j - 1] && (i > 0 ==> ts[i] == us[i - 1]);
        }
      } else if NoneTwice(Ids(us)) {
        assert ts[0].taskId in Ids(us);
      }
    }
  }

  lemma DistinctByIds(s: State)
    ensures DistinctIds(s) <==> NoneTwice(AllIds(s))
  {
    NoneTwiceByPosition(Tasks(s));
    IdsAppend(s.pending, IdleAll(s.running));
    IdsOfCopies(s.running, IdleAll(s.running));
  }

  lemma UsedByIds(s: State, id: nat)
    ensures HasTask(s, id) <==> id in AllIds(s)
  {
    IdOccurs(s.pending, id);
    IdOccurs(s.running, id);
  }

  /** The call is about to give a new task an id that is still in use: a caller can tell by the
      number of tasks in the lists. */
  ghost predicate Collides(s: State, op: Op) {
    op.Schedule? && HasTask(s, |s.pending| + |s.running| + 1)
  }

  lemma StepIds(s: State, op: Op, s': State)
    requires Next(s, op, s')
    ensures op.Schedule? ==> AllIds(s') == AllIds(s) + multiset{|s.pending| + |s.running| + 1}
    ensures !op.Schedule? ==> AllIds(s') <= AllIds(s)
  {
    match op
    case Schedule(_, _, _) => ScheduleIds(s, op, s');
    case DoTick => TickIds(s);
    case Cancel(id) => CancelIds(s, id);
    case _ =>
  }

  /** One call keeps distinct ids distinct exactly when it does not collide. */
  lemma StepDistinct(s: State, op: Op, s': State)
    requires Next(s, op, s') && DistinctIds(s)
    ensures DistinctIds(s') <==> !Collides(s, op)
  {
    var id := |s.pending| + |s.running| + 1;
    StepIds(s, op, s');
    DistinctByIds(s);
    DistinctByIds(s');
    UsedByIds(s, id);
    hide Next, AllIds, DistinctIds, HasTask;
    if op.Schedule? && id in AllIds(s) {
      assert AllIds(s')[id] >= 2;
    }
  }

  /** Ids are distinct in every state of a run up to the `n`-th exactly when no call before it
      schedules a task while the id it is about to get is in use. */
  lemma {:induction false} DistinctIff(ops: seq<Op>, trace: seq<State>, n: nat)
    requires IsRun(ops, trace) && n <= |ops|
    ensures (forall i :: 0 <= i <= n ==> DistinctIds(trace[i])) <==> forall i :: 0 <= i < n ==> !Collides(trace[i], ops[i])
    decreases n
  {
    if n > 0 {
      assert Next(trace[n - 1], ops[n - 1], trace[n]);
      hide Next, DistinctIds, Collides;
      DistinctIff(ops, trace, n - 1);
      if DistinctIds(trace[n - 1]) {
        StepDistinct(trace[n - 1], ops[n - 1], trace[n]);
      }
    }
  }

  // ---------------------------------------------------------------- what distinct ids buy

  lemma FindPending(s: State, i: nat)
    requires DistinctIds(s) && i < |s.pending|
    ensures Find(s.pending, s.pending[i].taskId) == i
  {
    TasksAt(s);
    var k := Find(s.pending, s.pending[i].taskId);
    assert Tasks(s)[k].taskId == Tasks(s)[i].taskId;
  }

  lemma FindRunning(s: State, j: nat)
    requires DistinctIds(s) && j < |s.running|
    ensures Find(s.running, s.running[j].taskId) == j
    ensures Find(s.pending, s.running[j].taskId) == |s.pending|
  {
    TasksAt(s);
    var id, p := s.running[j].taskId, |s.pending|;
    var k := Find(s.running, id);
    assert Tasks(s)[p + k].taskId == Tasks(s)[p + j].taskId == id;
    assert forall i :: 0 <= i < p ==> Tasks(s)[i].taskId != Tasks(s)[p + j].taskId;
  }

  lemma NotFound(ts: seq<Task>, id: nat)
    requires forall t :: t in ts ==> t.taskId != id
    ensures Find(ts, id) == |ts|
  {
    assert forall i :: 0 <= i < |ts| ==> ts[i] in ts;
  }

  /** With distinct ids, cancelling by id affects exactly the task at hand: a pending one is taken
      out, a running one is marked, and every other task keeps its place. */
  lemma CancelHitsItsTask(s: State)
    requires DistinctIds(s)
    ensures forall i :: 0 <= i < |s.pending| ==>
              CancelTask(s, s.pending[i].taskId) == s.(pending := s.pending[..i] + s.pending[i + 1..])
    ensures forall j :: 0 <= j < |s.running| ==>
              CancelTask(s, s.running[j].taskId) == s.(running := s.running[j := s.running[j].(running := false)])
    ensures forall id :: (forall t :: t in s.pending || t in s.running ==> t.taskId != id) ==> CancelTask(s, id) == s
  {
    forall i | 0 <= i < |s.pending|
      ensures CancelTask(s, s.pending[i].taskId) == s.(pending := s.pending[..i] + s.pending[i + 1..])
    {
      FindPending(s, i);
    }
    forall j | 0 <= j < |s.running|
      ensures CancelTask(s, s.running[j].taskId) == s.(running := s.running[j := s.running[j].(running := false)])
    {
      FindRunning(s, j);
    }
    forall id | forall t :: t in s.pending || t in s.running ==> t.taskId != id
      ensures CancelTask(s, id) == s
    {
      NotFound(s.pending, id);
      NotFound(s.running, id);
    }
  }

  /** With distinct ids, the query answers with the flag of the very task that has the id. */
  lemma IsRunningByTask(s: State)
    requires DistinctIds(s)
    ensures forall j :: 0 <= j < |s.running| ==> IsRunning(s, s.running[j].taskId) == s.running[j].running
    ensures forall id :: (forall t :: t in s.running ==> t.taskId != id) ==> !IsRunning(s, id)
  {
    forall j | 0 <= j < |s.running|
      ensures IsRunning(s, s.running[j].taskId) == s.running[j].running
    {
      FindRunning(s, j);
    }
    forall id | forall t :: t in s.running ==> t.taskId != id
      ensures !IsRunning(s, id)
    {
      NotFound(s.running, id);
    }
  }

  // ---------------------------------------------------------------- reuse

  /** Any calls can be made in a row: `std::sort` always has a result to give. */
  lemma {:induction false} RunExists(ops: seq<Op>, cap: nat) returns (trace: seq<State>)
    ensures IsRun(ops, trace) && trace[0].cap == cap
    decreases |ops|
  {
    if ops == [] {
      trace := [State([], [], cap)];
    } else {
      var last := |ops| - 1;
      var before := RunExists(ops[..last], cap);
      var s' := NextExists(before[last], ops[last]);
      trace := before + [s'];
      hide Next;
      forall i | 0 <= i < |ops|
        ensures Next(trace[i], ops[i], trace[i + 1])
      {
        assert i < last ==> ops[i] == ops[..last][i];
      }
    }
  }

  lemma NextExists(s: State, op: Op) returns (s': State)
    ensures Next(s, op, s')
  {
    match op
    case Initialize => s' := State([], [], s.cap);
    case Shutdown => s' := State([], [], s.cap);
    case DoTick => s' := Tick(s);
    case Schedule(taskType, priority, deadlineMs) =>
      var sorted := SortExists(s.pending + [NewTask(s, taskType, priority, deadlineMs)]);
      s' := s.(pending := sorted);
    case Cancel(id) => s' := CancelTask(s, id);
    case SetCap(cap) => s' := s.(cap := cap);
  }

  lemma {:induction false} SortExists(ts: seq<Task>) returns (sorted: seq<Task>)
    ensures IsSortOf(ts, sorted)
  {
    if ts == [] {
      sorted := [];
    } else {
      var rest := SortExists(ts[1..]);
      sorted := InsertExists(ts[0], rest);
      assert ts == [ts[0]] + ts[1..];
    }
  }

  lemma {:induction false} InsertExists(t: Task, ts: seq<Task>) returns (sorted: seq<Task>)
    requires Sorted(ts)
    ensures multiset(sorted) == multiset([t] + ts) && Sorted(sorted)
  {
    if ts == [] || !Precedes(ts[0], t) {
      sorted := [t] + ts;
    } else {
      var rest := InsertExists(t, ts[1..]);
      sorted := [ts[0]] + rest;
      InsertedBehind(t, ts, rest);
    }
  }

  /** Putting the head back in front of the others and `t`, which it precedes. */
  lemma InsertedBehind(t: Task, ts: seq<Task>, rest: seq<Task>)
    requires ts != [] && Precedes(ts[0], t) && Sorted(ts)
    requires multiset(rest) == multiset([t] + ts[1..]) && Sorted(rest)
    ensures multiset([ts[0]] + rest) == multiset([t] + ts) && Sorted([ts[0]] + rest)
  {
    hide Precedes;
    assert [t] + ts == [t] + [ts[0]] + ts[1..];
    forall u | u in rest
      ensures !Precedes(u, ts[0])
    {
      assert u in multiset([t] + ts[1..]);
      NotBoth(ts[0], t);
    }
    PrependSorted(ts[0], rest);
  }

  lemma NotBoth(a: Task, b: Task)
    ensures Precedes(a, b) ==> !Precedes(b, a)
  {
  }

  lemma PrependSorted(t: Task, ts: seq<Task>)
    requires Sorted(ts) && forall u :: u in ts ==> !Precedes(u, t)
    ensures Sorted([t] + ts)
  {
    hide Precedes;
  }

  /** Once a task has left, ids are handed out again: after scheduling two tasks, cancelling the
      first and scheduling a third, both pending tasks have id 2, in every run of these calls. */
  lemma IdReused(a: Op, b: Op, c: Op, cap: nat)
    requires a.Schedule? && b.Schedule? && c.Schedule?
    ensures exists trace: seq<State> :: IsRun([a, b, Cancel(1), c], trace) && trace[0].cap == cap
    ensures forall trace: seq<State> :: IsRun([a, b, Cancel(1), c], trace) ==>
              Collides(trace[3], c) && |trace[4].pending| == 2 && forall t :: t in trace[4].pending ==> t.taskId == 2
  {
    var _ := RunExists([a, b, Cancel(1), c], cap);
    forall trace: seq<State> | IsRun([a, b, Cancel(1), c], trace)
      ensures Collides(trace[3], c) && |trace[4].pending| == 2 && forall t :: t in trace[4].pending ==> t.taskId == 2
    {
      ReusedIn(a, b, c, trace);
    }
  }

  lemma ReusedIn(a: Op, b: Op, c: Op, trace: seq<State>)
    requires a.Schedule? && b.Schedule? && c.Schedule?
    requires IsRun([a, b, Cancel(1), c], trace)
    ensures Collides(trace[3], c) && |trace[4].pending| == 2 && forall t :: t in trace[4].pending ==> t.taskId == 2
  {
    hide IsSortOf, Find;
    var ops := [a, b, Cancel(1), c];
    assert Next(trace[0], ops[0], trace[1]) && Next(trace[1], ops[1], trace[2]);
    assert Next(trace[2], ops[2], trace[3]) && Next(trace[3], ops[3], trace[4]);
    FirstTwo(trace[0], a, trace[1], b, trace[2], trace[3]);
    ScheduledPair(trace[3], c, trace[4]);
    assert trace[3].pending[0] in trace[3].pending;
  }

  lemma FirstTwo(s0: State, a: Op, s1: State, b: Op, s2: State, s3: State)
    requires s0.pending == [] && s0.running == [] && a.Schedule? && b.Schedule?
    requires Next(s0, a, s1) && Next(s1, b, s2) && Next(s2, Cancel(1), s3)
    ensures |s3.pending| == 1 && s3.pending[0].taskId == 2 && s3.running == []
  {
    var t1 := NewTask(s0, a.taskType, a.priority, a.deadlineMs);
    OnePending(s0.pending, t1, s1.pending);
    ScheduledPair(s1, b, s2);
    var t2 := NewTask(s1, b.taskType, b.priority, b.deadlineMs);
    TwoPending(t1, t2, s2.pending);
  }

  /** Scheduling onto one pending task. */
  lemma ScheduledPair(s: State, op: Op, s': State)
    requires |s.pending| == 1 && op.Schedule? && Next(s, op, s')
    ensures var t := NewTask(s, op.taskType, op.priority, op.deadlineMs);
            s'.pending == [s.pending[0], t] || s'.pending == [t, s.pending[0]]
  {
    assert s.pending == [s.pending[0]];
    TwoPending(s.pending[0], NewTask(s, op.taskType, op.priority, op.deadlineMs), s'.pending);
  }

  lemma OnePending(none: seq<Task>, t: Task, p: seq<Task>)
    requires none == [] && multiset(p) == multiset(none + [t])
    ensures p == [t]
  {
    assert |p| == |multiset(p)| == 1;
    assert p[0] in multiset(p);
  }

  lemma TwoPending(t: Task, u: Task, p: seq<Task>)
    requires multiset(p) == multiset([t] + [u])
    ensures p == [t, u] || p == [u, t]
  {
    assert |p| == |multiset(p)| == 2;
    assert p == [p[0], p[1]];
    assert multiset{p[0], p[1]} == multiset{t, u};
    assert p[0] in multiset{t, u} && p[1] in multiset{t, u};
  }
}
