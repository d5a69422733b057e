/**
 The edge cache as a value: a byte-budgeted map whose every operation is a function on states.
 Sizes are C++ `size_t`: additions and subtractions wrap around at 2^64.
 */
module CacheModel {
  import opened Wire

  type Key = UInt64
  type SizeT = UInt64

  const UINT64_MAX: int := TWO_64 - 1
  const DEFAULT_MAX_SIZE: int := 1024 * 1024 * 100

  datatype Entry = Entry(key: Key, data: Bytes, timestamp: UInt64, accessCount: UInt64)

  datatype Cache = Cache(entries: map<Key, Entry>, maxSize: SizeT, currentSize: SizeT)

  const FRESH: Cache := Cache(map[], DEFAULT_MAX_SIZE, 0)

  // ---------------------------------------------------------------- key order

  lemma {:induction false} FindLeast(s: set<Key>) returns (k: Key)
    requires s != {}
    ensures k in s && forall j :: j in s ==> k <= j
  {
    k :| k in s;
    if s != {k} {
      var l := FindLeast(s - {k});
      assert forall j :: j in s ==> j == k || j in s - {k};
      k := if k <= l then k else l;
    }
  }

  lemma HasLeast(s: set<Key>)
    requires s != {}
    ensures exists k :: k in s && forall j :: j in s ==> k <= j
  {
    var k := FindLeast(s);
  }

  function LeastKey(s: set<Key>): (k: Key)
    requires s != {}
    ensures k in s && forall j :: j in s ==> k <= j
  {
    HasLeast(s);
    var k :| k in s && forall j :: j in s ==> k <= j;
    k
  }

  /** The order in which a `std::map` is iterated. */
  function Ascending(s: set<Key>): seq<Key>
    decreases |s|
  {
    if s == {} then []
    else
      var k := LeastKey(s);
      [k] + Ascending(s - {k})
  }

  lemma {:induction false} AscendingKeys(s: set<Key>)
    ensures forall k :: k in Ascending(s) <==> k in s
    ensures forall i, j :: 0 <= i < j < |Ascending(s)| ==> Ascending(s)[i] < Ascending(s)[j]
    decreases |s|
  {
    if s != {} {
      var rest := Ascending(s - {LeastKey(s)});
      AscendingKeys(s - {LeastKey(s)});
      assert Ascending(s) == [LeastKey(s)] + rest;
      assert forall j :: 0 <= j < |rest| ==> rest[j] in rest;
    }
  }

  // ---------------------------------------------------------------- sizes

  function Plus(a: SizeT, b: nat): SizeT {
    (a + b) % TWO_64
  }

  function Minus(a: SizeT, b: nat): SizeT {
    (a - b) % TWO_64
  }

  /** The bytes stored, counted without a counter. */
  function Total(entries: map<Key, Entry>): nat
    decreases |entries|
  {
    if entries == map[] then 0
    else
      var k := LeastKey(entries.Keys);
      |entries[k].data| + Total(entries - {k})
  }

  lemma {:induction false} TotalRemove(entries: map<Key, Entry>, k: Key)
    requires k in entries
    ensures Total(entries) == |entries[k].data| + Total(entries - {k})
    decreases |entries|
  {
    var least := LeastKey(entries.Keys);
    if k != least {
      TotalRemove(entries - {least}, k);
      assert least in (entries - {k}).Keys && LeastKey((entries - {k}).Keys) == least;
      assert entries - {least} - {k} == entries - {k} - {least};
      TotalRemove(entries - {k}, least);
    }
  }

  lemma TotalInsert(entries: map<Key, Entry>, k: Key, e: Entry)
    requires k !in entries
    ensures Total(entries[k := e]) == Total(entries) + |e.data|
  {
    TotalRemove(entries[k := e], k);
    assert entries[k := e] - {k} == entries;
  }

  // ---------------------------------------------------------------- operations

  datatype Op =
    | Initialize(maxSize: SizeT)
    | Shutdown
    | Put(key: Key, data: Bytes)
    | Get(key: Key)
    | Remove(key: Key)
    | Clear
    | SetMaxSize(maxSize: SizeT)

  /** Taking one present entry out. */
  function Drop(c: Cache, k: Key): Cache
    requires k in c.entries
  {
    Cache(c.entries - {k}, c.maxSize, Minus(c.currentSize, |c.entries[k].data|))
  }

  predicate OverBudget(c: Cache) {
    c.currentSize >= c.maxSize && c.entries != map[]
  }

  /** `evictIfNeeded`: while the budget is used up, the entry with the least key goes. */
  function Evict(c: Cache): (r: Cache)
    ensures !OverBudget(r) && r.maxSize == c.maxSize
    ensures r.entries.Keys <= c.entries.Keys && forall k :: k in r.entries ==> r.entries[k] == c.entries[k]
    decreases |c.entries|
  {
    if OverBudget(c) then Evict(Drop(c, LeastKey(c.entries.Keys))) else c
  }

  /** The keys evicted, in order. */
  function Victims(c: Cache): seq<Key>
    decreases |c.entries|
  {
    if OverBudget(c) then
      var k := LeastKey(c.entries.Keys);
      [k] + Victims(Drop(c, k))
    else []
  }

  /** Storing an entry, after any eviction. */
  function Store(c: Cache, k: Key, data: Bytes): Cache {
    var freed := if k in c.entries then Minus(c.currentSize, |c.entries[k].data|) else c.currentSize;
    Cache(c.entries[k := Entry(k, data, 0, 0)], c.maxSize, Plus(freed, |data|))
  }

  /** Counting an access. */
  function Touch(c: Cache, k: Key): Cache
    requires k in c.entries
  {
    var e := c.entries[k];
    c.(entries := c.entries[k := e.(accessCount := Plus(e.accessCount, 1), timestamp := 0)])
  }

  function Step(c: Cache, op: Op): Cache {
    match op
    case Initialize(m) => Cache(c.entries, m, 0)
    case Shutdown => Cache(map[], c.maxSize, 0)
    case Put(k, data) => Store(Evict(c), k, data)
    case Get(k) => if k in c.entries then Touch(c, k) else c
    case Remove(k) => if k in c.entries then Drop(c, k) else c
    case Clear => Cache(map[], c.maxSize, 0)
    case SetMaxSize(m) => Evict(c.(maxSize := m))
  }

  /** What a `get` returns: the data, or nothing on a miss. */
  function Lookup(c: Cache, k: Key): Option<Bytes> {
    if k in c.entries then Some(c.entries[k].data) else None
  }

  /** The keys an operation evicts, in order. */
  function Evicted(c: Cache, op: Op): seq<Key> {
    match op
    case Put(_, _) => Victims(c)
    case SetMaxSize(m) => Victims(c.(maxSize := m))
    case _ => []
  }

  function Run(c: Cache, ops: seq<Op>): Cache
    decreases ops
  {
    if ops == [] then c else Run(Step(c, ops[0]), ops[1..])
  }

  /** All keys evicted during a run, in order. */
  function EvictionLog(c: Cache, ops: seq<Op>): seq<Key>
    decreases ops
  {
    if ops == [] then [] else Evicted(c, ops[0]) + EvictionLog(Step(c, ops[0]), ops[1..])
  }

  // ---------------------------------------------------------------- the shape of entries

  /** Every timestamp is 0, and so below `UINT64_MAX`, and every entry knows its key. */
  predicate WellKept(entries: map<Key, Entry>) {
    forall k :: k in entries ==> entries[k].timestamp == 0 && entries[k].key == k
  }

  lemma StepWellKept(c: Cache, op: Op)
    requires WellKept(c.entries)
    ensures WellKept(Step(c, op).entries)
  {
  }

  lemma {:induction false} RunWellKept(c: Cache, ops: seq<Op>)
    requires WellKept(c.entries)
    ensures WellKept(Run(c, ops).entries)
    decreases ops
  {
    if ops != [] {
      StepWellKept(c, ops[0]);
      RunWellKept(Step(c, ops[0]), ops[1..]);
    }
  }

  // ---------------------------------------------------------------- which entries survive

  /** The part of a map on a sequence of its keys. */
  function Only(entries: map<Key, Entry>, ks: seq<Key>): map<Key, Entry> {
    map k | k in ks && k in entries :: entries[k]
  }

  /** The map without its `n` least keys. */
  function Suffix(entries: map<Key, Entry>, n: nat): map<Key, Entry>
    decreases n
  {
    if n == 0 || entries == map[] then entries else Suffix(entries - {LeastKey(entries.Keys)}, n - 1)
  }

  lemma AscendingHead(entries: map<Key, Entry>)
    requires entries != map[]
    ensures var k := LeastKey(entries.Keys);
            Ascending(entries.Keys) == [k] + Ascending((entries - {k}).Keys)
  {
    assert (entries - {LeastKey(entries.Keys)}).Keys == entries.Keys - {LeastKey(entries.Keys)};
  }

  lemma OnlyOthers(entries: map<Key, Entry>, k: Key, ks: seq<Key>)
    requires k !in ks
    ensures Only(entries - {k}, ks) == Only(entries, ks)
  {
  }

  lemma EverythingIsOnly(entries: map<Key, Entry>)
    ensures Suffix(entries, 0) == Only(entries, Ascending(entries.Keys)[0..])
  {
    AscendingKeys(entries.Keys);
    hide Ascending;
    assert Ascending(entries.Keys)[0..] == Ascending(entries.Keys);
  }

  lemma {:induction false} SuffixIsOnly(entries: map<Key, Entry>, n: nat)
    requires n <= |Ascending(entries.Keys)|
    ensures Suffix(entries, n) == Only(entries, Ascending(entries.Keys)[n..])
    decreases n
  {
    if n == 0 {
      EverythingIsOnly(entries);
    } else {
      assert entries != map[];
      hide Only, Ascending, LeastKey, Suffix;
      SuffixNext(entries, n - 1);
      AscendingHead(entries);
      SuffixIsOnly(entries - {LeastKey(entries.Keys)}, n - 1);
      OnlyNext(entries, n - 1);
    }
  }

  lemma OnlyNext(entries: map<Key, Entry>, n: nat)
    requires entries != map[] && n < |Ascending(entries.Keys)|
    ensures var rest := entries - {LeastKey(entries.Keys)};
            Only(entries, Ascending(entries.Keys)[n + 1..]) == Only(rest, Ascending(rest.Keys)[n..])
  {
    var k := LeastKey(entries.Keys);
    var ks := Ascending((entries - {k}).Keys);
    AscendingHead(entries);
    AscendingKeys((entries - {k}).Keys);
    hide Only, Ascending, LeastKey;
    assert ([k] + ks)[n + 1..] == ks[n..];
    OnlyOthers(entries, k, ks[n..]);
  }

  lemma SuffixNext(entries: map<Key, Entry>, n: nat)
    requires entries != map[]
    ensures Suffix(entries, n + 1) == Suffix(entries - {LeastKey(entries.Keys)}, n) && Suffix(entries, 0) == entries
  {
  }

  lemma DropExact(c: Cache, k: Key)
    requires c.currentSize == Total(c.entries) && k in c.entries
    ensures Drop(c, k).currentSize == Total(c.entries - {k}) && |c.entries[k].data| <= c.currentSize
  {
    TotalRemove(c.entries, k);
  }

  // ---------------------------------------------------------------- what the counter sees

  /** The bytes of some entries less a debt of bytes the counter has lost sight of, as a `size_t`. */
  function Seen(entries: map<Key, Entry>, debt: nat): SizeT {
    (Total(entries) - debt) % TWO_64
  }

  predicate Accounted(c: Cache, debt: nat) {
    c.currentSize == Seen(c.entries, debt)
  }

  lemma DropAccounted(c: Cache, k: Key, debt: nat)
    requires Accounted(c, debt) && k in c.entries
    ensures Accounted(Drop(c, k), debt)
  {
    TotalRemove(c.entries, k);
    hide Total;
    Wrap(Total(c.entries) - debt, -|c.entries[k].data|);
  }

  lemma Wrap(a: int, b: int)
    ensures (a % TWO_64 + b) % TWO_64 == (a + b) % TWO_64
  {
  }

  lemma {:induction false} EvictIsSuffix(c: Cache, debt: nat) returns (cut: nat)
    requires Accounted(c, debt)
    ensures cut <= |Ascending(c.entries.Keys)| && Victims(c) == Ascending(c.entries.Keys)[..cut]
    ensures Evict(c).entries == Suffix(c.entries, cut)
    ensures cut < |Ascending(c.entries.Keys)| ==> Seen(Suffix(c.entries, cut), debt) < c.maxSize
    ensures forall i :: 0 <= i < cut ==> Seen(Suffix(c.entries, i), debt) >= c.maxSize
    decreases |c.entries|
  {
    if OverBudget(c) {
      var k := LeastKey(c.entries.Keys);
      DropAccounted(c, k, debt);
      AscendingHead(c.entries);
      hide Seen, Ascending, LeastKey, Suffix;
      var less := EvictIsSuffix(Drop(c, k), debt);
      cut := less + 1;
      forall i: nat
        ensures Suffix(c.entries, i + 1) == Suffix(c.entries - {k}, i) && Suffix(c.entries, 0) == c.entries
      {
        SuffixNext(c.entries, i);
      }
      assert forall i: nat :: 0 < i < cut ==> Suffix(c.entries, i) == Suffix(c.entries - {k}, i - 1);
    } else {
      cut := 0;
      hide Seen;
    }
  }

  /** Eviction goes by what the counter sees: the least number of least keys go that makes the
      counter fall below the limit, or all of them if no number does. */
  lemma EvictByCounter(c: Cache, debt: nat) returns (cut: nat)
    requires Accounted(c, debt)
    ensures cut <= |Ascending(c.entries.Keys)|
    ensures var ks := Ascending(c.entries.Keys);
            && Victims(c) == ks[..cut]
            && Evict(c).entries == Only(c.entries, ks[cut..])
            && (cut < |ks| ==> Seen(Only(c.entries, ks[cut..]), debt) < c.maxSize)
            && (forall i :: 0 <= i < cut ==> Seen(Only(c.entries, ks[i..]), debt) >= c.maxSize)
  {
    hide Seen, Suffix, Evict, Ascending, Only, Victims;
    cut := EvictIsSuffix(c, debt);
    forall i | 0 <= i <= cut
      ensures Suffix(c.entries, i) == Only(c.entries, Ascending(c.entries.Keys)[i..])
    {
      SuffixIsOnly(c.entries, i);
    }
  }

  lemma {:induction false} TotalMonotone(small: map<Key, Entry>, big: map<Key, Entry>)
    requires small.Keys <= big.Keys && forall k :: k in small ==> small[k] == big[k]
    ensures Total(small) <= Total(big)
    decreases |big|
  {
    if big == map[] {
      assert small == map[];
    } else {
      var k := LeastKey(big.Keys);
      TotalRemove(big, k);
      if k in small {
        TotalRemove(small, k);
        TotalMonotone(small - {k}, big - {k});
      } else {
        TotalMonotone(small, big - {k});
      }
    }
  }

  /** With an exact counter, eviction keeps the longest run of greatest keys whose total is below
      the limit: the first `cut` keys in ascending order go, and no fewer would do. */
  lemma EvictKeepsLongestSuffix(c: Cache) returns (cut: nat)
    requires c.currentSize == Total(c.entries)
    ensures cut <= |Ascending(c.entries.Keys)|
    ensures var ks := Ascending(c.entries.Keys);
            && Victims(c) == ks[..cut]
            && Evict(c).entries == Only(c.entries, ks[cut..])
            && (cut < |ks| ==> Total(Only(c.entries, ks[cut..])) < c.maxSize)
            && (forall i :: 0 <= i < cut ==> Total(Only(c.entries, ks[i..])) >= c.maxSize)
  {
    hide Total, Evict, Ascending, Victims, Only;
    cut := EvictByCounter(c, 0);
    var ks := Ascending(c.entries.Keys);
    hide Seen;
    forall i | 0 <= i <= cut
      ensures Seen(Only(c.entries, ks[i..]), 0) == Total(Only(c.entries, ks[i..]))
    {
      SeenWithoutDebt(c.entries, ks[i..]);
    }
  }

  lemma SeenWithoutDebt(entries: map<Key, Entry>, ks: seq<Key>)
    requires Total(entries) < TWO_64
    ensures Seen(Only(entries, ks), 0) == Total(Only(entries, ks))
  {
    TotalMonotone(Only(entries, ks), entries);
    hide Total, Only;
  }
}
