/**
 What holds of the edge cache over whole runs of operations.
 */
module CacheRuns {
  import opened Wire
  import opened CacheModel

  // ---------------------------------------------------------------- accounting

  /** The bytes the counter has lost sight of: those stored when it was last zeroed by
      `initialize`, which does not clear the map. */
  function DebtStep(c: Cache, op: Op, debt: nat): nat {
    match op
    case Initialize(_) => Total(c.entries)
    case Shutdown => 0
    case Clear => 0
    case _ => debt
  }

  function Debt(c: Cache, ops: seq<Op>, debt: nat): nat
    decreases ops
  {
    if ops == [] then debt else Debt(Step(c, ops[0]), ops[1..], DebtStep(c, ops[0], debt))
  }

  lemma {:induction false} EvictAccounted(c: Cache, debt: nat)
    requires Accounted(c, debt)
    ensures Accounted(Evict(c), debt)
    decreases |c.entries|
  {
    if OverBudget(c) {
      hide Accounted;
      DropAccounted(c, LeastKey(c.entries.Keys), debt);
      EvictAccounted(Drop(c, LeastKey(c.entries.Keys)), debt);
    }
  }

  lemma StoreAccounted(c: Cache, k: Key, data: Bytes, debt: nat)
    requires Accounted(c, debt)
    ensures Accounted(Store(c, k, data), debt)
  {
    var e := Entry(k, data, 0, 0);
    var rest := if k in c.entries then Drop(c, k) else c;
    if k in c.entries {
      DropAccounted(c, k, debt);
    }
    assert c.entries[k := e] == rest.entries[k := e];
    TotalInsert(rest.entries, k, e);
    hide Total;
    Wrap(Total(rest.entries) - debt, |data|);
  }

  lemma TotalTouched(entries: map<Key, Entry>, k: Key, e: Entry)
    requires k in entries && e.data == entries[k].data
    ensures Total(entries[k := e]) == Total(entries)
  {
    TotalRemove(entries, k);
    assert entries[k := e] == (entries - {k})[k := e];
    TotalInsert(entries - {k}, k, e);
  }

  lemma StepAccounted(c: Cache, op: Op, debt: nat)
    requires Accounted(c, debt)
    ensures Accounted(Step(c, op), DebtStep(c, op, debt))
  {
    match op
    case Put(k, data) =>
      EvictAccounted(c, debt);
      StoreAccounted(Evict(c), k, data, debt);
    case Get(k) =>
      if k in c.entries {
        TotalTouched(c.entries, k, Touch(c, k).entries[k]);
      }
    case Remove(k) =>
      if k in c.entries {
        DropAccounted(c, k, debt);
      }
    case SetMaxSize(m) => EvictAccounted(c.(maxSize := m), debt);
    case _ =>
  }

  lemma {:induction false} RunAccounted(c: Cache, ops: seq<Op>, debt: nat)
    requires Accounted(c, debt)
    ensures Accounted(Run(c, ops), Debt(c, ops, debt))
    decreases ops
  {
    if ops != [] {
      hide Accounted, Step, DebtStep;
      StepAccounted(c, ops[0], debt);
      RunAccounted(Step(c, ops[0]), ops[1..], DebtStep(c, ops[0], debt));
    }
  }

  /** After any run at all, the counter is the number of bytes stored, modulo 2^64, exactly when
      nothing (modulo 2^64) was stored at the last `initialize` not undone by a clear. */
  lemma CounterIsTotal(ops: seq<Op>)
    ensures var c := Run(FRESH, ops);
            c.currentSize == Total(c.entries) % TWO_64 <==> Debt(FRESH, ops, 0) % TWO_64 == 0
  {
    RunAccounted(FRESH, ops, 0);
  }

  /** Initializing a cache that holds one byte and then removing it leaves an empty cache whose
      counter has wrapped around to 2^64 - 1. */
  lemma InitializeLosesCount(m: SizeT)
    ensures var c := Run(FRESH, [Put(1, [0]), Initialize(m), Remove(1)]);
            c.entries == map[] && c.currentSize == UINT64_MAX
  {
    var ops := [Put(1, [0]), Initialize(m), Remove(1)];
    assert ops[1..] == [Initialize(m), Remove(1)] && ops[1..][1..] == [Remove(1)] && ops[1..][1..][1..] == [];
    var c1 := Step(FRESH, ops[0]);
    var c2 := Step(c1, ops[1]);
    var c3 := Step(c2, ops[2]);
    assert c1.entries == map[1 := Entry(1, [0], 0, 0)];
    assert c3.entries == map[];
    assert Run(FRESH, ops) == Run(c1, ops[1..]) == Run(c2, [Remove(1)]);
    assert Run(c2, [Remove(1)]) == Run(c3, []) by { assert [Remove(1)][1..] == []; }
  }

  // ---------------------------------------------------------------- the bound

  predicate Exact(c: Cache) {
    c.currentSize == Total(c.entries)
  }

  /** The counter can follow the next call: `initialize` zeroes it only when no bytes are stored,
      and what a put leaves stored, the rest after eviction and the new data, fits a `size_t`. */
  predicate Countable(c: Cache, op: Op) {
    && (op.Initialize? ==> Total(c.entries) == 0)
    && (op.Put? ==> Total(Evict(c).entries - {op.key}) + |op.data| < TWO_64)
  }

  /** Every call of a run is countable. */
  predicate Disciplined(c: Cache, ops: seq<Op>)
    decreases ops
  {
    ops == [] || (Countable(c, ops[0]) && Disciplined(Step(c, ops[0]), ops[1..]))
  }

  /** The counter is exact in every state of a run. */
  predicate ExactThroughout(c: Cache, ops: seq<Op>)
    decreases ops
  {
    Exact(c) && (ops == [] || ExactThroughout(Step(c, ops[0]), ops[1..]))
  }

  function LastPut(ops: seq<Op>, size: nat): nat
    decreases ops
  {
    if ops == [] then size else LastPut(ops[1..], if ops[0].Put? then |ops[0].data| else size)
  }

  /** The counter is exact, and at most one put, the last one, reaches over the limit. */
  predicate WithinBudget(c: Cache, last: nat) {
    && c.currentSize == Total(c.entries)
    && c.currentSize <= c.maxSize + last
    && (c.maxSize > 0 ==> c.currentSize < c.maxSize + last)
  }

  lemma EvictExact(c: Cache)
    requires c.currentSize == Total(c.entries)
    ensures Evict(c).currentSize == Total(Evict(c).entries)
    ensures Evict(c).currentSize < c.maxSize || Evict(c).currentSize == 0
  {
    EmptyTotal();
    TotalMonotone(Evict(c).entries, c.entries);
    hide Total, Evict, Accounted;
    ExactIsAccounted(c);
    EvictAccounted(c, 0);
    ExactIsAccounted(Evict(c));
  }

  /** An exact counter is one without debt over a total that fits a `size_t`. */
  lemma ExactIsAccounted(c: Cache)
    ensures c.currentSize == Total(c.entries) <==> Accounted(c, 0) && Total(c.entries) < TWO_64
  {
    hide Total;
  }

  lemma EmptyTotal()
    ensures Total(map[]) == 0
  {
  }

  lemma StoreExactIff(c: Cache, k: Key, data: Bytes)
    requires Exact(c)
    ensures Exact(Store(c, k, data)) <==> Total(c.entries - {k}) + |data| < TWO_64
    ensures Exact(Store(c, k, data)) ==> Store(c, k, data).currentSize <= c.currentSize + |data|
  {
    var e := Entry(k, data, 0, 0);
    var rest := if k in c.entries then Drop(c, k) else c;
    if k in c.entries {
      DropExact(c, k);
    }
    hide Total, Drop;
    assert rest.entries == c.entries - {k} by { DropEntries(c, k); }
    assert c.entries[k := e] == rest.entries[k := e];
    TotalInsert(rest.entries, k, e);
  }

  lemma DropEntries(c: Cache, k: Key)
    ensures k in c.entries ==>
              Drop(c, k).entries == c.entries - {k} && Drop(c, k).currentSize == Minus(c.currentSize, |c.entries[k].data|)
    ensures k !in c.entries ==> c.entries - {k} == c.entries
  {
  }

  /** A call keeps an exact counter exact just when it is countable. */
  lemma StepExactIff(c: Cache, op: Op)
    requires Exact(c)
    ensures Exact(Step(c, op)) <==> Countable(c, op)
  {
    EmptyTotal();
    hide Total;
    match op
    case Put(k, data) =>
      EvictExact(c);
      StoreExactIff(Evict(c), k, data);
    case Get(k) =>
      if k in c.entries {
        TotalTouched(c.entries, k, Touch(c, k).entries[k]);
      }
    case Remove(k) =>
      if k in c.entries {
        DropExact(c, k);
      }
    case SetMaxSize(m) => EvictExact(c.(maxSize := m));
    case _ =>
  }

  lemma {:induction false} ExactIffFrom(c: Cache, ops: seq<Op>)
    requires Exact(c)
    ensures ExactThroughout(c, ops) <==> Disciplined(c, ops)
    decreases ops
  {
    if ops != [] {
      hide Exact, Step, Countable;
      StepExactIff(c, ops[0]);
      if Exact(Step(c, ops[0])) {
        ExactIffFrom(Step(c, ops[0]), ops[1..]);
      }
    }
  }

  /** The counter is the number of bytes stored in every state of a run just when all its calls
      are countable. */
  lemma ExactIff(ops: seq<Op>)
    ensures ExactThroughout(FRESH, ops) <==> Disciplined(FRESH, ops)
  {
    EmptyTotal();
    ExactIffFrom(FRESH, ops);
  }

  // ---------------------------------------------------------------- no underflow

  /** No subtraction of the eviction loop underflows. */
  predicate EvictSafe(c: Cache)
    decreases |c.entries|
  {
    OverBudget(c) ==>
      var k := LeastKey(c.entries.Keys);
      |c.entries[k].data| <= c.currentSize && EvictSafe(Drop(c, k))
  }

  /** Taking `k` out, if it is there, does not underflow. */
  predicate DropSafe(c: Cache, k: Key) {
    k in c.entries ==> |c.entries[k].data| <= c.currentSize
  }

  /** No subtraction a call makes underflows, those of the evictions it causes included. */
  predicate StepSafe(c: Cache, op: Op) {
    match op
    case Put(k, _) => EvictSafe(c) && DropSafe(Evict(c), k)
    case Remove(k) => DropSafe(c, k)
    case SetMaxSize(m) => EvictSafe(c.(maxSize := m))
    case _ => true
  }

  predicate SafeThroughout(c: Cache, ops: seq<Op>)
    decreases ops
  {
    ops == [] || (StepSafe(c, ops[0]) && SafeThroughout(Step(c, ops[0]), ops[1..]))
  }

  /** Taking out an entry underflows exactly when what remains does not cover the debt. */
  lemma DropSafeIff(c: Cache, k: Key, debt: nat)
    requires Accounted(c, debt) && debt <= Total(c.entries) < TWO_64
    ensures DropSafe(c, k) <==> debt <= Total(c.entries - {k})
  {
    if k in c.entries {
      TotalRemove(c.entries, k);
    } else {
      assert c.entries - {k} == c.entries;
    }
    hide Total;
  }

  /** So does eviction as a whole. */
  lemma {:induction false} EvictSafeIff(c: Cache, debt: nat)
    requires Accounted(c, debt) && debt <= Total(c.entries) < TWO_64
    ensures EvictSafe(c) <==> debt <= Total(Evict(c).entries)
    decreases |c.entries|
  {
    if OverBudget(c) {
      var k := LeastKey(c.entries.Keys);
      DropSafeIff(c, k, debt);
      DropAccounted(c, k, debt);
      TotalRemove(c.entries, k);
      TotalMonotone(Evict(Drop(c, k)).entries, Drop(c, k).entries);
      hide Total, Accounted;
      if debt <= Total(Drop(c, k).entries) {
        EvictSafeIff(Drop(c, k), debt);
      }
    }
  }

  /** What a call leaves of the stored entries before it stores anything new. */
  function Left(c: Cache, op: Op): map<Key, Entry> {
    match op
    case Put(k, _) => Evict(c).entries - {k}
    case Remove(k) => c.entries - {k}
    case SetMaxSize(m) => Evict(c.(maxSize := m)).entries
    case _ => c.entries
  }

  /** Some subtraction of a call underflows exactly when what the call leaves does not cover the
      bytes `initialize` made the counter lose sight of. */
  lemma StepSafeIff(c: Cache, op: Op, debt: nat)
    requires Accounted(c, debt) && debt <= Total(c.entries) < TWO_64
    ensures StepSafe(c, op) <==> debt <= Total(Left(c, op))
  {
    match op
    case Put(k, _) =>
      EvictSafeIff(c, debt);
      EvictAccounted(c, debt);
      TotalMonotone(Evict(c).entries, c.entries);
      TotalMonotone(Evict(c).entries - {k}, Evict(c).entries);
      hide Total, Accounted, Evict;
      if debt <= Total(Evict(c).entries) {
        DropSafeIff(Evict(c), k, debt);
      }
    case Remove(k) => DropSafeIff(c, k, debt);
    case SetMaxSize(m) => EvictSafeIff(c.(maxSize := m), debt);
    case _ =>
  }

  /** What every put of a run leaves stored fits a `size_t`. */
  predicate AllFit(c: Cache, ops: seq<Op>)
    decreases ops
  {
    ops == [] || ((ops[0].Put? ==> Total(Left(c, ops[0])) + |ops[0].data| < TWO_64) && AllFit(Step(c, ops[0]), ops[1..]))
  }

  /** Every call of a run leaves enough stored to cover the debt. */
  predicate Covered(c: Cache, ops: seq<Op>, debt: nat)
    decreases ops
  {
    ops == []
    || (debt <= Total(Left(c, ops[0])) && Covered(Step(c, ops[0]), ops[1..], DebtStep(c, ops[0], debt)))
  }

  /** A call that leaves enough to cover the debt ends with enough to cover the new one. */
  lemma StaysCovered(c: Cache, op: Op, debt: nat)
    requires debt <= Total(Left(c, op)) && Total(c.entries) < TWO_64
    requires op.Put? ==> Total(Left(c, op)) + |op.data| < TWO_64
    ensures DebtStep(c, op, debt) <= Total(Step(c, op).entries) < TWO_64
  {
    EmptyTotal();
    match op
    case Put(k, data) =>
      var e := Entry(k, data, 0, 0);
      assert Evict(c).entries[k := e] == Left(c, op)[k := e];
      TotalInsert(Left(c, op), k, e);
    case Get(k) =>
      if k in c.entries {
        TotalTouched(c.entries, k, Touch(c, k).entries[k]);
      }
    case Remove(k) =>
      assert k !in c.entries ==> c.entries - {k} == c.entries;
      TotalMonotone(Left(c, op), c.entries);
    case SetMaxSize(_) => TotalMonotone(Left(c, op), c.entries);
    case _ =>
  }

  lemma {:induction false} SafeIffFrom(c: Cache, ops: seq<Op>, debt: nat)
    requires Accounted(c, debt) && debt <= Total(c.entries) < TWO_64 && AllFit(c, ops)
    ensures SafeThroughout(c, ops) <==> Covered(c, ops, debt)
    decreases ops
  {
    if ops != [] {
      hide Accounted, Step, StepSafe, Total, Left, DebtStep;
      StepSafeIff(c, ops[0], debt);
      if debt <= Total(Left(c, ops[0])) {
        StaysCovered(c, ops[0], debt);
        StepAccounted(c, ops[0], debt);
        SafeIffFrom(Step(c, ops[0]), ops[1..], DebtStep(c, ops[0], debt));
      }
    }
  }

  /** In a run whose data fits a `size_t`, no subtraction ever underflows exactly when every call
      leaves at least as many bytes stored as `initialize` has made the counter lose sight of. */
  lemma SafeIff(ops: seq<Op>)
    requires AllFit(FRESH, ops)
    ensures SafeThroughout(FRESH, ops) <==> Covered(FRESH, ops, 0)
  {
    EmptyTotal();
    SafeIffFrom(FRESH, ops, 0);
  }

  lemma ExactIsSafe(c: Cache, op: Op)
    requires Exact(c)
    ensures StepSafe(c, op)
  {
    StepSafeIff(c, op, 0);
  }

  lemma {:induction false} RunIsSafe(c: Cache, ops: seq<Op>)
    requires ExactThroughout(c, ops)
    ensures SafeThroughout(c, ops)
    decreases ops
  {
    if ops != [] {
      hide Exact, Step, StepSafe;
      ExactIsSafe(c, ops[0]);
      RunIsSafe(Step(c, ops[0]), ops[1..]);
    }
  }

  // ---------------------------------------------------------------- within the budget

  lemma StepWithinBudget(c: Cache, op: Op, last: nat)
    requires WithinBudget(c, last) && Countable(c, op)
    ensures WithinBudget(Step(c, op), if op.Put? then |op.data| else last)
  {
    StepExactIff(c, op);
    match op
    case Put(k, data) =>
      EvictExact(c);
      StoreExactIff(Evict(c), k, data);
    case SetMaxSize(m) => EvictExact(c.(maxSize := m));
    case Remove(k) =>
      if k in c.entries {
        DropExact(c, k);
      }
    case _ =>
  }

  lemma {:induction false} RunWithinBudget(c: Cache, ops: seq<Op>, last: nat)
    requires WithinBudget(c, last) && Disciplined(c, ops)
    ensures WithinBudget(Run(c, ops), LastPut(ops, last))
    decreases ops
  {
    if ops != [] {
      hide WithinBudget, Step, Countable;
      StepWithinBudget(c, ops[0], last);
      RunWithinBudget(Step(c, ops[0]), ops[1..], if ops[0].Put? then |ops[0].data| else last);
    }
  }

  /** The argument of the last `initialize` or `setMaxSize`, or `limit` if there is none. */
  function LastLimit(ops: seq<Op>, limit: SizeT): SizeT
    decreases ops
  {
    if ops == [] then limit
    else LastLimit(ops[1..], if ops[0].Initialize? || ops[0].SetMaxSize? then ops[0].maxSize else limit)
  }

  /** The limit after a run: 100 MiB until another one is set. */
  function Limit(ops: seq<Op>): SizeT {
    LastLimit(ops, 104857600)
  }

  lemma StepLimit(c: Cache, op: Op)
    ensures Step(c, op).maxSize == if op.Initialize? || op.SetMaxSize? then op.maxSize else c.maxSize
  {
  }

  lemma {:induction false} LimitFrom(c: Cache, ops: seq<Op>)
    ensures Run(c, ops).maxSize == LastLimit(ops, c.maxSize)
    decreases ops
  {
    if ops != [] {
      hide Step;
      StepLimit(c, ops[0]);
      LimitFrom(Step(c, ops[0]), ops[1..]);
    }
  }

  /** The limit in force is the one that was last set, whatever else was called since. */
  lemma LimitIsLastSet(ops: seq<Op>)
    ensures Run(FRESH, ops).maxSize == Limit(ops)
  {
    LimitFrom(FRESH, ops);
  }

  /** In every disciplined run the counter is exact, no subtraction ever underflows, and the
      counter exceeds the limit by no more than the last put, by less if the limit is positive. */
  lemma BudgetKept(ops: seq<Op>)
    requires Disciplined(FRESH, ops)
    ensures SafeThroughout(FRESH, ops)
    ensures var c := Run(FRESH, ops);
            && c.currentSize == Total(c.entries)
            && c.currentSize <= Limit(ops) + LastPut(ops, 0)
            && (Limit(ops) > 0 ==> c.currentSize < Limit(ops) + LastPut(ops, 0))
  {
    EmptyTotal();
    hide Total, Limit;
    LimitIsLastSet(ops);
    RunWithinBudget(FRESH, ops, 0);
    ExactIff(ops);
    RunIsSafe(FRESH, ops);
  }

  /** A limit of 2^64 - 1 does not stand in the way. */
  lemma UnlimitedIsDisciplined(k: Key, data: Bytes)
    requires |data| < TWO_64
    ensures Disciplined(FRESH, [SetMaxSize(UINT64_MAX), Put(k, data)])
  {
    var ops := [SetMaxSize(UINT64_MAX), Put(k, data)];
    var c := FRESH.(maxSize := UINT64_MAX);
    assert ops[1..] == [Put(k, data)] && ops[1..][1..] == [];
    assert Step(FRESH, ops[0]) == c && Evict(c) == c;
    assert c.entries - {k} == map[];
    EmptyTotal();
    assert Disciplined(c, ops[1..]);
  }

  lemma {:induction false} RunNext(c: Cache, ops: seq<Op>, op: Op)
    ensures Run(c, ops + [op]) == Step(Run(c, ops), op)
    decreases ops
  {
    hide Step;
    if ops == [] {
      assert [] + [op] == [op] && [op][1..] == [];
    } else {
      assert (ops + [op])[1..] == ops[1..] + [op];
      RunNext(Step(c, ops[0]), ops[1..], op);
    }
  }

  /** A cache after an eviction of its `cut` least keys, and the entry a put stores then. */
  predicate EvictedFirst(c: Cache, after: Cache, op: Op, cut: nat)
    requires cut <= |Ascending(c.entries.Keys)|
  {
    var kept := Only(c.entries, Ascending(c.entries.Keys)[cut..]);
    after.entries == if op.Put? then kept[op.key := Entry(op.key, op.data, 0, 0)] else kept
  }

  lemma StepEvicts(c: Cache, op: Op, debt: nat) returns (cut: nat)
    requires Accounted(c, debt) && (op.Put? || op.SetMaxSize?)
    ensures cut <= |Ascending(c.entries.Keys)| && EvictedFirst(c, Step(c, op), op, cut)
    ensures var ks, limit := Ascending(c.entries.Keys), if op.SetMaxSize? then op.maxSize else c.maxSize;
            && Evicted(c, op) == ks[..cut]
            && (cut < |ks| ==> Seen(Only(c.entries, ks[cut..]), debt) < limit)
            && (forall i :: 0 <= i < cut ==> Seen(Only(c.entries, ks[i..]), debt) >= limit)
  {
    hide Evict, Victims, Seen, Only, Ascending;
    cut := EvictByCounter(if op.SetMaxSize? then c.(maxSize := op.maxSize) else c, debt);
  }

  /** After any run, a put or a new limit first drops the least number of least keys that brings the
      counter, which leaves out the debt, below the limit then in force; nothing else goes. */
  lemma EvictionInAnyRun(ops: seq<Op>, op: Op) returns (cut: nat)
    requires op.Put? || op.SetMaxSize?
    ensures cut <= |Ascending(Run(FRESH, ops).entries.Keys)|
    ensures EvictedFirst(Run(FRESH, ops), Run(FRESH, ops + [op]), op, cut)
    ensures var c, debt, limit := Run(FRESH, ops), Debt(FRESH, ops, 0), Limit(ops + [op]);
            var ks := Ascending(c.entries.Keys);
            && Evicted(c, op) == ks[..cut]
            && (cut < |ks| ==> Seen(Only(c.entries, ks[cut..]), debt) < limit)
            && (forall i :: 0 <= i < cut ==> Seen(Only(c.entries, ks[i..]), debt) >= limit)
  {
    EmptyTotal();
    RunAccounted(FRESH, ops, 0);
    hide Evicted, Only, Seen, Ascending, Limit, EvictedFirst, Accounted, Total;
    RunNext(FRESH, ops, op);
    StepLimit(Run(FRESH, ops), op);
    LimitIsLastSet(ops + [op]);
    cut := StepEvicts(Run(FRESH, ops), op, Debt(FRESH, ops, 0));
  }

  /** In a disciplined run there is no debt, so the total itself falls below the limit. */
  lemma EvictionInRuns(ops: seq<Op>, op: Op) returns (cut: nat)
    requires Disciplined(FRESH, ops) && (op.Put? || op.SetMaxSize?)
    ensures cut <= |Ascending(Run(FRESH, ops).entries.Keys)|
    ensures EvictedFirst(Run(FRESH, ops), Run(FRESH, ops + [op]), op, cut)
    ensures var c, limit := Run(FRESH, ops), Limit(ops + [op]);
            var ks := Ascending(c.entries.Keys);
            && Evicted(c, op) == ks[..cut]
            && (cut < |ks| ==> Total(Only(c.entries, ks[cut..])) < limit)
            && (forall i :: 0 <= i < cut ==> Total(Only(c.entries, ks[i..])) >= limit)
  {
    NoDebt(FRESH, ops);
    BudgetKept(ops);
    hide Evicted, Only, Seen, Ascending, Limit, EvictedFirst, Total, Run, Debt, Disciplined, SafeThroughout;
    cut := EvictionInAnyRun(ops, op);
    var c := Run(FRESH, ops);
    forall i | 0 <= i <= cut
      ensures Seen(Only(c.entries, Ascending(c.entries.Keys)[i..]), 0) == Total(Only(c.entries, Ascending(c.entries.Keys)[i..]))
    {
      SeenWithoutDebt(c.entries, Ascending(c.entries.Keys)[i..]);
    }
  }

  lemma {:induction false} NoDebt(c: Cache, ops: seq<Op>)
    requires Disciplined(c, ops)
    ensures Debt(c, ops, 0) == 0
    decreases ops
  {
    if ops != [] {
      NoDebt(Step(c, ops[0]), ops[1..]);
    }
  }

  /** With a debt the total may stay over the limit: two bytes are stored under a limit of 1, and
      nothing is evicted. */
  lemma DebtDefeatsEviction()
    ensures var c := Run(FRESH, [Put(1, [0]), Put(2, [0]), Initialize(1)]);
            Total(c.entries) == 2 && c.maxSize == 1 && Victims(c) == []
  {
    var ops := [Put(1, [0]), Put(2, [0]), Initialize(1)];
    assert ops[1..] == [Put(2, [0]), Initialize(1)] && ops[1..][1..] == [Initialize(1)] && ops[1..][1..][1..] == [];
    var c1 := Step(FRESH, ops[0]);
    var c2 := Step(c1, ops[1]);
    assert Run(FRESH, ops) == Run(c1, ops[1..]) == Run(c2, [Initialize(1)]) == Step(c2, ops[2]);
    var e, f := Entry(1, [0], 0, 0), Entry(2, [0], 0, 0);
    assert c2.entries == map[][1 := e][2 := f];
    EmptyTotal();
    TotalInsert(map[], 1, e);
    TotalInsert(map[][1 := e], 2, f);
  }

  // ---------------------------------------------------------------- never stale

  /** A plain map given the same puts, removes and clears. */
  function PlainStep(m: map<Key, Bytes>, op: Op): map<Key, Bytes> {
    match op
    case Put(k, data) => m[k := data]
    case Remove(k) => m - {k}
    case Shutdown => map[]
    case Clear => map[]
    case _ => m
  }

  function PlainRun(m: map<Key, Bytes>, ops: seq<Op>): map<Key, Bytes>
    decreases ops
  {
    if ops == [] then m else PlainRun(PlainStep(m, ops[0]), ops[1..])
  }

  /** The keys evicted and neither put, removed nor cleared since. */
  function LostStep(lost: set<Key>, c: Cache, op: Op): set<Key> {
    var all := lost + (set k | k in Evicted(c, op));
    match op
    case Put(k, _) => all - {k}
    case Remove(k) => all - {k}
    case Shutdown => {}
    case Clear => {}
    case _ => all
  }

  function Lost(lost: set<Key>, c: Cache, ops: seq<Op>): set<Key>
    decreases ops
  {
    if ops == [] then lost else Lost(LostStep(lost, c, ops[0]), Step(c, ops[0]), ops[1..])
  }

  /** The cache holds what the plain map holds, but for the lost keys. */
  predicate Mirrors(c: Cache, m: map<Key, Bytes>, lost: set<Key>) {
    && lost <= m.Keys
    && c.entries.Keys == m.Keys - lost
    && forall k :: k in c.entries ==> c.entries[k].data == m[k]
  }

  lemma OneMore(k: Key, ks: seq<Key>, lost: set<Key>)
    ensures lost + {k} + (set j | j in ks) == lost + (set j | j in [k] + ks)
  {
  }

  lemma DropMirrors(c: Cache, m: map<Key, Bytes>, lost: set<Key>, k: Key)
    requires Mirrors(c, m, lost) && k in c.entries
    ensures Mirrors(Drop(c, k), m, lost + {k})
  {
  }

  lemma {:induction false} EvictMirrors(c: Cache, m: map<Key, Bytes>, lost: set<Key>)
    requires Mirrors(c, m, lost)
    ensures Mirrors(Evict(c), m, lost + (set k | k in Victims(c)))
    decreases |c.entries|
  {
    hide Mirrors;
    if OverBudget(c) {
      var k := LeastKey(c.entries.Keys);
      DropMirrors(c, m, lost, k);
      EvictMirrors(Drop(c, k), m, lost + {k});
      OneMore(k, Victims(Drop(c, k)), lost);
    } else {
      assert lost + (set k | k in Victims(c)) == lost;
    }
  }

  lemma StepMirrors(c: Cache, m: map<Key, Bytes>, lost: set<Key>, op: Op)
    requires Mirrors(c, m, lost)
    ensures Mirrors(Step(c, op), PlainStep(m, op), LostStep(lost, c, op))
  {
    match op
    case Put(k, data) =>
      EvictMirrors(c, m, lost);
    case SetMaxSize(n) =>
      EvictMirrors(c.(maxSize := n), m, lost);
    case _ =>
      assert lost + (set k | k in []) == lost;
  }

  lemma {:induction false} RunMirrors(c: Cache, m: map<Key, Bytes>, lost: set<Key>, ops: seq<Op>)
    requires Mirrors(c, m, lost)
    ensures Mirrors(Run(c, ops), PlainRun(m, ops), Lost(lost, c, ops))
    decreases ops
  {
    if ops != [] {
      hide Mirrors, Step, PlainStep, LostStep;
      StepMirrors(c, m, lost, ops[0]);
      RunMirrors(Step(c, ops[0]), PlainStep(m, ops[0]), LostStep(lost, c, ops[0]), ops[1..]);
    }
  }

  /** After any run, a `get` hits exactly when the key is in the plain map and was not evicted
      since it was last put, and then it returns the data of that latest put. */
  lemma NeverStale(ops: seq<Op>, k: Key)
    ensures var plain := PlainRun(map[], ops);
            Lookup(Run(FRESH, ops), k) ==
            if k in plain && k !in Lost({}, FRESH, ops) then Some(plain[k]) else None
  {
    RunMirrors(FRESH, map[], {}, ops);
  }

  /** A `get` right after its `put` hits, whatever the budget. */
  lemma GetAfterPut(c: Cache, k: Key, data: Bytes)
    ensures Lookup(Step(c, Put(k, data)), k) == Some(data)
  {
  }

  // ---------------------------------------------------------------- access counts

  /** How often `k` was asked for since it was last put, starting from `n`. */
  function GetsSincePut(ops: seq<Op>, k: Key, n: nat): nat
    decreases ops
  {
    if ops == [] then n
    else GetsSincePut(ops[1..], k,
                      if ops[0].Put? && ops[0].key == k then 0
                      else if ops[0].Get? && ops[0].key == k then n + 1
                      else n)
  }

  lemma {:induction false} CountFrom(c: Cache, ops: seq<Op>, k: Key, n: nat)
    requires k in c.entries ==> c.entries[k].accessCount == n % TWO_64
    ensures k in Run(c, ops).entries ==> Run(c, ops).entries[k].accessCount == GetsSincePut(ops, k, n) % TWO_64
    decreases ops
  {
    if ops != [] {
      var m := if ops[0].Put? && ops[0].key == k then 0 else if ops[0].Get? && ops[0].key == k then n + 1 else n;
      CountStep(c, ops[0], k, n, m);
      hide Step;
      CountFrom(Step(c, ops[0]), ops[1..], k, m);
    }
  }

  lemma CountStep(c: Cache, op: Op, k: Key, n: nat, m: nat)
    requires k in c.entries ==> c.entries[k].accessCount == n % TWO_64
    requires m == if op.Put? && op.key == k then 0 else if op.Get? && op.key == k then n + 1 else n
    ensures k in Step(c, op).entries ==> Step(c, op).entries[k].accessCount == m % TWO_64
  {
    hide Evict;
    Wrap(n, 1);
  }

  /** A stored entry has been counted once for every `get` since its `put`. */
  lemma AccessesCounted(ops: seq<Op>, k: Key)
    ensures var c := Run(FRESH, ops);
            k in c.entries ==> c.entries[k].accessCount == GetsSincePut(ops, k, 0) % TWO_64
  {
    CountFrom(FRESH, ops, k, 0);
  }

  // ---------------------------------------------------------------- reads

  function WithoutGets(ops: seq<Op>): seq<Op> {
    if ops == [] then []
    else if ops[0].Get? then WithoutGets(ops[1..])
    else [ops[0]] + WithoutGets(ops[1..])
  }

  /** The same state up to access counts. */
  predicate SameButCounts(c: Cache, d: Cache) {
    && c.maxSize == d.maxSize && c.currentSize == d.currentSize && c.entries.Keys == d.entries.Keys
    && forall k :: k in c.entries ==>
         c.entries[k].(accessCount := 0) == d.entries[k].(accessCount := 0)
  }

  lemma {:induction false} EvictSame(c: Cache, d: Cache)
    requires SameButCounts(c, d)
    ensures SameButCounts(Evict(c), Evict(d)) && Victims(c) == Victims(d)
    decreases |c.entries|
  {
    assert c.entries == map[] <==> c.entries.Keys == {};
    assert d.entries == map[] <==> d.entries.Keys == {};
    if OverBudget(c) {
      var k := LeastKey(c.entries.Keys);
      assert c.entries[k].(accessCount := 0) == d.entries[k].(accessCount := 0);
      EvictSame(Drop(c, k), Drop(d, k));
    }
  }

  lemma StoreSame(c: Cache, d: Cache, k: Key, data: Bytes)
    requires SameButCounts(c, d)
    ensures SameButCounts(Store(c, k, data), Store(d, k, data))
  {
    assert k in c.entries ==> c.entries[k].(accessCount := 0) == d.entries[k].(accessCount := 0);
  }

  lemma StepSame(c: Cache, d: Cache, op: Op)
    requires SameButCounts(c, d)
    ensures SameButCounts(Step(c, op), Step(d, op)) && Evicted(c, op) == Evicted(d, op)
  {
    match op
    case Put(k, data) =>
      hide SameButCounts, Evict, Victims, Store;
      EvictSame(c, d);
      StoreSame(Evict(c), Evict(d), k, data);
    case SetMaxSize(m) => EvictSame(c.(maxSize := m), d.(maxSize := m));
    case Get(k) =>
      assert k in c.entries ==> c.entries[k].(accessCount := 0) == d.entries[k].(accessCount := 0);
    case Remove(k) =>
      assert k in c.entries ==> c.entries[k].(accessCount := 0) == d.entries[k].(accessCount := 0);
    case _ =>
  }

  lemma GetChangesCountsOnly(c: Cache, d: Cache, k: Key)
    requires SameButCounts(c, d) && WellKept(c.entries)
    ensures SameButCounts(Step(c, Get(k)), d) && Evicted(c, Get(k)) == []
  {
    assert k in c.entries ==> c.entries[k].(accessCount := 0) == d.entries[k].(accessCount := 0);
  }

  lemma {:induction false} RunSame(c: Cache, d: Cache, ops: seq<Op>)
    requires SameButCounts(c, d) && WellKept(c.entries)
    ensures SameButCounts(Run(c, ops), Run(d, WithoutGets(ops)))
    ensures EvictionLog(c, ops) == EvictionLog(d, WithoutGets(ops))
    decreases ops
  {
    if ops != [] {
      hide SameButCounts, Step, Evicted, WellKept;
      var op, rest := ops[0], ops[1..];
      StepWellKept(c, op);
      if op.Get? {
        GetChangesCountsOnly(c, d, op.key);
        RunSame(Step(c, op), d, rest);
        assert EvictionLog(c, ops) == [] + EvictionLog(Step(c, op), rest);
      } else {
        StepSame(c, d, op);
        RunSame(Step(c, op), Step(d, op), rest);
        assert ([op] + WithoutGets(rest))[1..] == WithoutGets(rest);
      }
    }
  }

  /** Deleting every `get` from any sequence of operations leaves the final keys, data and
      counter, and the order of evictions, as they were: reads do not protect an entry. */
  lemma ReadsDoNotAffectEviction(ops: seq<Op>)
    ensures SameButCounts(Run(FRESH, ops), Run(FRESH, WithoutGets(ops)))
    ensures EvictionLog(FRESH, ops) == EvictionLog(FRESH, WithoutGets(ops))
  {
    RunSame(FRESH, FRESH, ops);
  }
}
