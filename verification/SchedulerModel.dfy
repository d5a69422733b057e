/**
 The edge scheduler as a value, with a step relation: sorting is by `std::sort`, which may put
 equivalent tasks in any order, so scheduling has many possible successors.
 */
module SchedulerModel {
  datatype TaskType = Localization | KalmanUpdate | SpatialFilter | LocalAi | DataCaching | SyncPending

  datatype Task = Task(taskId: nat, taskType: TaskType, priority: nat, deadlineMs: nat, running: bool, startTime: nat)

  datatype State = State(pending: seq<Task>, running: seq<Task>, cap: nat)

  const DEFAULT_CAP: nat := 4

  // ---------------------------------------------------------------- order of tasks

  /** `a` must start before `b`: higher priority, or the same and an earlier deadline. */
  predicate Precedes(a: Task, b: Task) {
    if a.priority != b.priority then a.priority > b.priority else a.deadlineMs < b.deadlineMs
  }

  predicate Sorted(ts: seq<Task>) {
    forall i, j :: 0 <= i < j < |ts| ==> !Precedes(ts[j], ts[i])
  }

  /** What `std::sort` promises: some sorted permutation. */
  predicate IsSortOf(ts: seq<Task>, sorted: seq<Task>) {
    multiset(sorted) == multiset(ts) && Sorted(sorted)
  }

  // ---------------------------------------------------------------- parts of operations

  /** The index of the first task with an id, or the length if there is none. */
  function Find(ts: seq<Task>, id: nat): (i: nat)
    ensures i <= |ts|
    ensures i < |ts| ==> ts[i].taskId == id
    ensures forall j :: 0 <= j < i ==> ts[j].taskId != id
  {
    if ts == [] || ts[0].taskId == id then 0 else 1 + Find(ts[1..], id)
  }

  function NewTask(s: State, taskType: TaskType, priority: nat, deadlineMs: nat): Task {
    Task(|s.pending| + |s.running| + 1, taskType, priority, deadlineMs, false, 0)
  }

  /** The tasks still wanted, in order. */
  function Live(ts: seq<Task>): seq<Task> {
    if ts == [] then []
    else if ts[0].running then [ts[0]] + Live(ts[1..])
    else Live(ts[1..])
  }

  /** The cancelled tasks not yet reaped, in order. */
  function Dead(ts: seq<Task>): seq<Task> {
    if ts == [] then []
    else if ts[0].running then Dead(ts[1..])
    else [ts[0]] + Dead(ts[1..])
  }

  lemma {:induction false} LiveAppend(ts: seq<Task>, us: seq<Task>)
    ensures Live(ts + us) == Live(ts) + Live(us)
  {
    if ts == [] {
      assert ts + us == us;
    } else {
      assert (ts + us)[1..] == ts[1..] + us;
      LiveAppend(ts[1..], us);
    }
  }

  lemma LiveSnoc(ts: seq<Task>, t: Task)
    ensures Live(ts + [t]) == if t.running then Live(ts) + [t] else Live(ts)
  {
    LiveAppend(ts, [t]);
    assert [t][1..] == [];
  }

  lemma {:induction false} AllLive(ts: seq<Task>)
    requires forall i :: 0 <= i < |ts| ==> ts[i].running
    ensures Live(ts) == ts
  {
    if ts != [] {
      AllLive(ts[1..]);
    }
  }

  function Start(t: Task): Task {
    t.(running := true, startTime := 0)
  }

  function StartAll(ts: seq<Task>): (r: seq<Task>)
    ensures |r| == |ts| && forall i :: 0 <= i < |ts| ==> r[i] == Start(ts[i])
  {
    seq(|ts|, i requires 0 <= i < |ts| => Start(ts[i]))
  }

  /** How many tasks a tick starts. Cancelled tasks occupy their slots until they are reaped. */
  function Starts(s: State): (n: nat)
    ensures n <= |s.pending|
  {
    var free := if s.cap > |s.running| then s.cap - |s.running| else 0;
    if |s.pending| < free then |s.pending| else free
  }

  /** A tick in closed form: the first pending tasks start, then the cancelled ones go. */
  function Tick(s: State): State {
    var n := Starts(s);
    State(s.pending[n..], Live(s.running) + StartAll(s.pending[..n]), s.cap)
  }

  function CancelTask(s: State, id: nat): State {
    var i, j := Find(s.pending, id), Find(s.running, id);
    if i < |s.pending| then s.(pending := s.pending[..i] + s.pending[i + 1..])
    else if j < |s.running| then s.(running := s.running[j := s.running[j].(running := false)])
    else s
  }

  function IsRunning(s: State, id: nat): bool {
    var j := Find(s.running, id);
    j < |s.running| && s.running[j].running
  }

  // ---------------------------------------------------------------- the step relation

  datatype Op =
    | Initialize
    | Shutdown
    | DoTick
    | Schedule(taskType: TaskType, priority: nat, deadlineMs: nat)
    | Cancel(id: nat)
    | SetCap(cap: nat)

  predicate Next(s: State, op: Op, s': State) {
    match op
    case Initialize => s' == State([], [], s.cap)
    case Shutdown => s' == State([], [], s.cap)
    case DoTick => s' == Tick(s)
    case Schedule(taskType, priority, deadlineMs) =>
      && s'.running == s.running && s'.cap == s.cap
      && IsSortOf(s.pending + [NewTask(s, taskType, priority, deadlineMs)], s'.pending)
    case Cancel(id) => s' == CancelTask(s, id)
    case SetCap(cap) => s' == s.(cap := cap)
  }

  /** States `trace` and the operations between them, from an empty scheduler. */
  predicate IsRun(ops: seq<Op>, trace: seq<State>) {
    && |trace| == |ops| + 1
    && trace[0].pending == [] && trace[0].running == []
    && forall i :: 0 <= i < |ops| ==> Next(trace[i], ops[i], trace[i + 1])
  }
}
