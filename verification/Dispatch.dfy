/**
 The part every generated message shares: its parser folds one action over the wire
 records up to the limit or a stopping tag. Also the projections of a record sequence
 by which the messages say, without any loop, what a parse yields.
 */
module Dispatch {
  import opened Wire
  import opened Fields

  datatype Parsed<+M> = Failed | Parsed(msg: M, end: End)

  /** Applies the records one by one; `None` as soon as one is refused. */
  function Fold<M>(apply: (M, Field) -> Option<M>, m: M, fs: seq<Field>): Option<M> {
    if fs == [] then Some(m)
    else match apply(m, fs[0])
      case None => None
      case Some(m') => Fold(apply, m', fs[1..])
  }

  /** One-record-per-tag dispatch over the bytes up to the limit. */
  function Parse<M>(apply: (M, Field) -> Option<M>, m: M, s: Bytes): Parsed<M> {
    var scan := ScanFields(s);
    if scan.end.Broken? then Failed
    else match Fold(apply, m, scan.fields)
      case None => Failed
      case Some(m') => Parsed(m', scan.end)
  }

  /** A whole message: the parser must have stopped exactly at the limit. */
  function ParseWhole<M>(apply: (M, Field) -> Option<M>, m: M, s: Bytes): Option<M> {
    match Parse(apply, m, s)
    case Parsed(m', AtLimit) => Some(m')
    case _ => None
  }

  lemma {:induction false} FoldAppend<M>(apply: (M, Field) -> Option<M>, m: M, fs: seq<Field>, gs: seq<Field>)
    ensures Fold(apply, m, fs + gs) ==
            match Fold(apply, m, fs) { case None => None case Some(m') => Fold(apply, m', gs) }
  {
    if fs == [] {
      assert fs + gs == gs;
    } else {
      assert (fs + gs)[1..] == fs[1..] + gs;
      match apply(m, fs[0])
      case None =>
      case Some(m') => FoldAppend(apply, m', fs[1..], gs);
    }
  }

  lemma FoldTwo<M>(apply: (M, Field) -> Option<M>, m: M, f: Field, g: Field)
    ensures Fold(apply, m, [f]) == apply(m, f)
    ensures Fold(apply, m, [f, g]) == if apply(m, f).None? then None else apply(apply(m, f).value, g)
  {
    assert [f][1..] == [] && [f, g][1..] == [g] && [g][1..] == [];
    if apply(m, f).Some? {
      assert Fold(apply, apply(m, f).value, [g]) == apply(apply(m, f).value, g);
    }
  }

  /** What one turn of the parser's outer loop does to the result. */
  lemma ParseStep<M>(apply: (M, Field) -> Option<M>, m: M, s: Bytes)
    requires s != []
    ensures ReadField(s).Malformed? ==> Parse(apply, m, s) == Failed
    ensures ReadField(s).Stop? ==> Parse(apply, m, s) == Parsed(m, AtTag(ReadField(s).tag, ReadField(s).left))
    ensures ReadField(s).Got? && apply(m, ReadField(s).field) == None ==> Parse(apply, m, s) == Failed
    ensures ReadField(s).Got? && apply(m, ReadField(s).field).Some? ==>
              Parse(apply, m, s) == Parse(apply, apply(m, ReadField(s).field).value, s[ReadField(s).taken..])
  {
    if ReadField(s).Got? {
      var f := ReadField(s).field;
      var more := ScanFields(s[ReadField(s).taken..]);
      assert ScanFields(s).fields == [f] + more.fields;
      assert ([f] + more.fields)[1..] == more.fields;
    }
  }

  lemma ParseNothing<M>(apply: (M, Field) -> Option<M>, m: M)
    ensures Parse(apply, m, []) == Parsed(m, AtLimit)
  {
  }

  lemma OneByteTag(tag: Byte, s: Bytes)
    requires tag < 0x80
    ensures ReadTag([tag] + s) == Read(tag, 1) && ([tag] + s)[1..] == s
  {
  }

  /** It does not matter to the result whether a one-byte tag was padded to more bytes. */
  lemma ShortTag<M>(apply: (M, Field) -> Option<M>, m: M, s: Bytes, tag: Byte)
    requires tag < 0x80 && !IsStop(tag)
    requires ReadTag(s).Read? && ReadTag(s).value == tag
    ensures Parse(apply, m, s) == Parse(apply, m, [tag] + s[ReadTag(s).taken..])
  {
    var n := ReadTag(s).taken;
    var t := [tag] + s[n..];
    OneByteTag(tag, s[n..]);
    hide ReadTag, ReadPayload, ScanFields, Parse;
    ParseStep(apply, m, s);
    ParseStep(apply, m, t);
    if ReadField(s).Got? {
      var k := ReadField(s).taken - n;
      assert s[n + k..] == s[n..][k..] == t[1 + k..];
    }
  }

  /** Parsing a concatenation is parsing its second half into the result of the first. */
  lemma ParseAppend<M>(apply: (M, Field) -> Option<M>, m: M, s: Bytes, t: Bytes)
    requires ParseWhole(apply, m, s).Some?
    ensures Parse(apply, m, s + t) == Parse(apply, ParseWhole(apply, m, s).value, t)
  {
    ScanAppend(s, t);
    FoldAppend(apply, m, ScanFields(s).fields, ScanFields(t).fields);
  }

  /** Tag 0, or an end-group tag, ends the loop where it stands, keeping what was read so far; as
      that is not the limit, a whole message is refused. */
  lemma StopTagRefused<M>(apply: (M, Field) -> Option<M>, m: M, s: Bytes, t: Bytes)
    requires ParseWhole(apply, m, s).Some?
    requires ReadTag(t).Read? && (ReadTag(t).value == 0 || ReadTag(t).value % 8 == 4)
    ensures Parse(apply, m, s + t)
            == Parsed(ParseWhole(apply, m, s).value, AtTag(ReadTag(t).value, |t| - ReadTag(t).taken))
    ensures ParseWhole(apply, m, s + t) == None
  {
    ParseAppend(apply, m, s, t);
    ParseStep(apply, ParseWhole(apply, m, s).value, t);
  }

  /** Two whole records `e` and `d` in the middle of the input. */
  lemma ParsePair<M>(apply: (M, Field) -> Option<M>, m: M,
                     before: Bytes, e: Bytes, d: Bytes, after: Bytes, f: Field, g: Field)
    requires ScanFields(before).end == AtLimit
    requires ReadField(e) == Got(f, |e|) && ReadField(d) == Got(g, |d|)
    ensures var first := ParseWhole(apply, m, before);
            ParseWhole(apply, m, before + (e + d + after)) ==
            if first.None? || ScanFields(after).end != AtLimit then None
            else Fold(apply, first.value, [f, g] + ScanFields(after).fields)
  {
    hide ScanFields, ReadField;
    ScanPair(e, d, after, f, g);
    ScanAppend(before, e + d + after);
    FoldAppend(apply, m, ScanFields(before).fields, [f, g] + ScanFields(after).fields);
  }

  /** Printed records parse to what folding them gives. */
  lemma ParseEncoded<M>(apply: (M, Field) -> Option<M>, m: M, fs: seq<Field>)
    requires AllWellFormed(fs)
    ensures ParseWhole(apply, m, EncodeAll(fs)) == Fold(apply, m, fs)
  {
    FieldsRoundTrip(fs);
  }

  /** What every single record keeps, a whole parse keeps. */
  lemma {:induction false} FoldKeeps<M(!new)>(apply: (M, Field) -> Option<M>, good: M -> bool, m: M, fs: seq<Field>)
    requires good(m) && AllWellFormed(fs)
    requires forall a, f :: good(a) && WellFormed(f) && apply(a, f).Some? ==> good(apply(a, f).value)
    ensures Fold(apply, m, fs).Some? ==> good(Fold(apply, m, fs).value)
    decreases fs
  {
    if fs != [] && apply(m, fs[0]).Some? {
      FoldKeeps(apply, good, apply(m, fs[0]).value, fs[1..]);
    }
  }

  lemma ParseKeeps<M(!new)>(apply: (M, Field) -> Option<M>, good: M -> bool, m: M, s: Bytes)
    requires good(m)
    requires forall a, f :: good(a) && WellFormed(f) && apply(a, f).Some? ==> good(apply(a, f).value)
    ensures ParseWhole(apply, m, s).Some? ==> good(ParseWhole(apply, m, s).value)
  {
    ScanIsWellFormed(s);
    FoldKeeps(apply, good, m, ScanFields(s).fields);
  }

  // ---------------------------------------------------------------- projections

  /** The value of the last varint record of field `n`. */
  function LastVarint(fs: seq<Field>, n: int): Option<UInt64> {
    if fs == [] then None
    else match LastVarint(fs[1..], n)
      case Some(v) => Some(v)
      case None => if fs[0].VarintField? && fs[0].number == n then Some(fs[0].value) else None
  }

  /** The contents of the last length-delimited record of field `n`. */
  function LastBytes(fs: seq<Field>, n: int): Option<Bytes> {
    if fs == [] then None
    else match LastBytes(fs[1..], n)
      case Some(v) => Some(v)
      case None => if fs[0].BytesField? && fs[0].number == n then Some(fs[0].data) else None
  }

  /** The contents of all length-delimited records of field `n`, in input order. */
  function EveryBytes(fs: seq<Field>, n: int): seq<Bytes> {
    if fs == [] then []
    else if fs[0].BytesField? && fs[0].number == n then [fs[0].data] + EveryBytes(fs[1..], n)
    else EveryBytes(fs[1..], n)
  }

  /** The records that satisfy `p`, in input order. */
  function Keep(p: Field -> bool, fs: seq<Field>): seq<Field> {
    if fs == [] then []
    else if p(fs[0]) then [fs[0]] + Keep(p, fs[1..])
    else Keep(p, fs[1..])
  }

  function LastInt32(fs: seq<Field>, n: int, otherwise: Int32): Int32 {
    match LastVarint(fs, n) case None => otherwise case Some(v) => ToInt32(v)
  }

  function LastBool(fs: seq<Field>, n: int, otherwise: bool): bool {
    match LastVarint(fs, n) case None => otherwise case Some(v) => v != 0
  }

  lemma ProjectHead(f: Field, fs: seq<Field>, n: int)
    ensures LastVarint([f] + fs, n) ==
            if LastVarint(fs, n).Some? then LastVarint(fs, n)
            else if f.VarintField? && f.number == n then Some(f.value) else None
    ensures LastBytes([f] + fs, n) ==
            if LastBytes(fs, n).Some? then LastBytes(fs, n)
            else if f.BytesField? && f.number == n then Some(f.data) else None
    ensures EveryBytes([f] + fs, n) ==
            (if f.BytesField? && f.number == n then [f.data] else []) + EveryBytes(fs, n)
  {
    assert ([f] + fs)[1..] == fs;
  }

  lemma KeepHead(p: Field -> bool, f: Field, fs: seq<Field>)
    ensures Keep(p, [f] + fs) == (if p(f) then [f] else []) + Keep(p, fs)
  {
    assert ([f] + fs)[1..] == fs;
  }

  function OrElse<T>(x: Option<T>, otherwise: T): T {
    match x case None => otherwise case Some(v) => v
  }

  // Merging a singular field: the incoming value, unless it is the default.

  function IntOr(theirs: Int32, mine: Int32): Int32 {
    if theirs != 0 then theirs else mine
  }

  function TextOr(theirs: Bytes, mine: Bytes): Bytes {
    if theirs != [] then theirs else mine
  }

  lemma {:induction false} LastVarintAppend(fs: seq<Field>, gs: seq<Field>, n: int)
    ensures LastVarint(fs + gs, n) == if LastVarint(gs, n).Some? then LastVarint(gs, n) else LastVarint(fs, n)
  {
    if fs == [] {
      assert fs + gs == gs;
    } else {
      assert (fs + gs)[1..] == fs[1..] + gs;
      LastVarintAppend(fs[1..], gs, n);
    }
  }

  lemma {:induction false} LastBytesAppend(fs: seq<Field>, gs: seq<Field>, n: int)
    ensures LastBytes(fs + gs, n) == if LastBytes(gs, n).Some? then LastBytes(gs, n) else LastBytes(fs, n)
  {
    if fs == [] {
      assert fs + gs == gs;
    } else {
      assert (fs + gs)[1..] == fs[1..] + gs;
      LastBytesAppend(fs[1..], gs, n);
    }
  }

  lemma {:induction false} EveryBytesAppend(fs: seq<Field>, gs: seq<Field>, n: int)
    ensures EveryBytes(fs + gs, n) == EveryBytes(fs, n) + EveryBytes(gs, n)
  {
    if fs == [] {
      assert fs + gs == gs;
    } else {
      assert (fs + gs)[1..] == fs[1..] + gs;
      EveryBytesAppend(fs[1..], gs, n);
    }
  }

  lemma {:induction false} KeepAppend(p: Field -> bool, fs: seq<Field>, gs: seq<Field>)
    ensures Keep(p, fs + gs) == Keep(p, fs) + Keep(p, gs)
  {
    if fs == [] {
      assert fs + gs == gs;
    } else {
      assert (fs + gs)[1..] == fs[1..] + gs;
      KeepAppend(p, fs[1..], gs);
    }
  }

  /** Exchanging two neighbouring records of different fields changes no projection. */
  lemma ProjectSwap(f: Field, g: Field, fs: seq<Field>, n: int)
    requires f.number != g.number
    ensures LastVarint([f, g] + fs, n) == LastVarint([g, f] + fs, n)
    ensures LastBytes([f, g] + fs, n) == LastBytes([g, f] + fs, n)
    ensures EveryBytes([f, g] + fs, n) == EveryBytes([g, f] + fs, n)
  {
    hide LastVarint, LastBytes, EveryBytes;
    assert [f, g] + fs == [f] + ([g] + fs) && [g, f] + fs == [g] + ([f] + fs);
    ProjectHead(f, [g] + fs, n);
    ProjectHead(g, fs, n);
    ProjectHead(g, [f] + fs, n);
    ProjectHead(f, fs, n);
  }

  lemma KeepSwap(p: Field -> bool, f: Field, g: Field, fs: seq<Field>)
    ensures multiset(Keep(p, [f, g] + fs)) == multiset(Keep(p, [g, f] + fs))
  {
    KeepAppend(p, [f, g], fs);
    KeepAppend(p, [g, f], fs);
    hide Keep;
    KeepPair(p, f, g);
    KeepPair(p, g, f);
    assert multiset(Keep(p, [f, g])) == multiset(Keep(p, [g, f]));
  }

  lemma KeepPair(p: Field -> bool, f: Field, g: Field)
    ensures Keep(p, [f, g]) == (if p(f) then [f] else []) + (if p(g) then [g] else [])
  {
    assert [f, g][1..] == [g] && [g][1..] == [];
    assert Keep(p, [g]) == if p(g) then [g] else [];
  }

  // ---------------------------------------------------------------- printed messages

  /** An integer field is printed unless it holds its default, 0. */
  function IntRecord(n: FieldNumber, v: Int64): seq<Field> {
    if v == 0 then [] else [VarintField(n, SignExtend(v))]
  }

  function BoolRecord(n: FieldNumber, v: bool): seq<Field> {
    if v then [VarintField(n, 1)] else []
  }

  /** A string field is printed unless it is empty. */
  function TextRecord(n: FieldNumber, v: Bytes): seq<Field> {
    if v == [] then [] else [BytesField(n, v)]
  }

  /** A repeated field is printed element by element. */
  function BytesRecords(n: FieldNumber, vs: seq<Bytes>): (r: seq<Field>)
    ensures |r| == |vs|
  {
    if vs == [] then [] else [BytesField(n, vs[0])] + BytesRecords(n, vs[1..])
  }

  /** A message is printed part by part, one part for each field. */
  function Concat(parts: seq<seq<Field>>): seq<Field> {
    if parts == [] then [] else parts[0] + Concat(parts[1..])
  }

  lemma ConcatThree(a: seq<Field>, b: seq<Field>, c: seq<Field>)
    ensures Concat([a, b, c]) == a + (b + c)
  {
    assert [a, b, c][1..] == [b, c] && [b, c][1..] == [c] && [c][1..] == [];
    assert Concat([c]) == c;
    assert Concat([b, c]) == b + c;
  }

  lemma {:induction false} InConcat(parts: seq<seq<Field>>, f: Field)
    ensures f in Concat(parts) <==> exists j :: 0 <= j < |parts| && f in parts[j]
  {
    if parts != [] {
      InConcat(parts[1..], f);
      if j :| 0 <= j < |parts| && f in parts[j] {
        assert j > 0 ==> parts[1..][j - 1] == parts[j];
      }
      if j :| 0 <= j < |parts[1..]| && f in parts[1..][j] {
        assert parts[1..][j] == parts[j + 1];
      }
    }
  }

  lemma InBytesRecords(n: FieldNumber, vs: seq<Bytes>, f: Field)
    ensures f in BytesRecords(n, vs) <==> f.BytesField? && f.number == n && f.data in vs
  {
    if vs != [] {
      InBytesRecords(n, vs[1..], f);
      assert vs == [vs[0]] + vs[1..];
    }
  }

  lemma {:induction false} EveryBytesRecords(n: FieldNumber, vs: seq<Bytes>)
    ensures EveryBytes(BytesRecords(n, vs), n) == vs
  {
    if vs != [] {
      EveryBytesRecords(n, vs[1..]);
      assert BytesRecords(n, vs)[1..] == BytesRecords(n, vs[1..]);
    }
  }

  // A projection that only part `i` contributes to sees that part alone.

  lemma {:induction false} OnlyVarint(parts: seq<seq<Field>>, n: int, i: int)
    requires forall j :: 0 <= j < |parts| && j != i ==> LastVarint(parts[j], n) == None
    ensures LastVarint(Concat(parts), n) == if 0 <= i < |parts| then LastVarint(parts[i], n) else None
    decreases |parts|
  {
    if parts != [] {
      assert Concat(parts) == parts[0] + Concat(parts[1..]);
      hide LastVarint, Concat;
      assert LastVarint(parts[0], n) == None || i == 0;
      forall j | 0 <= j < |parts[1..]| && j != i - 1
        ensures LastVarint(parts[1..][j], n) == None
      {
        assert parts[1..][j] == parts[j + 1];
      }
      OnlyVarint(parts[1..], n, i - 1);
      LastVarintAppend(parts[0], Concat(parts[1..]), n);
    }
  }

  lemma {:induction false} OnlyBytes(parts: seq<seq<Field>>, n: int, i: int)
    requires forall j :: 0 <= j < |parts| && j != i ==> LastBytes(parts[j], n) == None
    ensures LastBytes(Concat(parts), n) == if 0 <= i < |parts| then LastBytes(parts[i], n) else None
    decreases |parts|
  {
    if parts != [] {
      assert Concat(parts) == parts[0] + Concat(parts[1..]);
      hide LastBytes, Concat;
      assert LastBytes(parts[0], n) == None || i == 0;
      forall j | 0 <= j < |parts[1..]| && j != i - 1
        ensures LastBytes(parts[1..][j], n) == None
      {
        assert parts[1..][j] == parts[j + 1];
      }
      OnlyBytes(parts[1..], n, i - 1);
      LastBytesAppend(parts[0], Concat(parts[1..]), n);
    }
  }

  lemma {:induction false} OnlyEvery(parts: seq<seq<Field>>, n: int, i: int)
    requires forall j :: 0 <= j < |parts| && j != i ==> EveryBytes(parts[j], n) == []
    ensures EveryBytes(Concat(parts), n) == if 0 <= i < |parts| then EveryBytes(parts[i], n) else []
    decreases |parts|
  {
    if parts != [] {
      assert Concat(parts) == parts[0] + Concat(parts[1..]);
      hide EveryBytes, Concat;
      assert EveryBytes(parts[0], n) == [] || i == 0;
      forall j | 0 <= j < |parts[1..]| && j != i - 1
        ensures EveryBytes(parts[1..][j], n) == []
      {
        assert parts[1..][j] == parts[j + 1];
      }
      OnlyEvery(parts[1..], n, i - 1);
      EveryBytesAppend(parts[0], Concat(parts[1..]), n);
    }
  }

  lemma {:induction false} OnlyKept(p: Field -> bool, parts: seq<seq<Field>>, i: int)
    requires forall j :: 0 <= j < |parts| && j != i ==> Keep(p, parts[j]) == []
    ensures Keep(p, Concat(parts)) == if 0 <= i < |parts| then Keep(p, parts[i]) else []
    decreases |parts|
  {
    if parts != [] {
      assert Concat(parts) == parts[0] + Concat(parts[1..]);
      hide Keep, Concat;
      assert Keep(p, parts[0]) == [] || i == 0;
      forall j | 0 <= j < |parts[1..]| && j != i - 1
        ensures Keep(p, parts[1..][j]) == []
      {
        assert parts[1..][j] == parts[j + 1];
      }
      OnlyKept(p, parts[1..], i - 1);
      KeepAppend(p, parts[0], Concat(parts[1..]));
    }
  }

  lemma {:induction false} KeepAll(p: Field -> bool, fs: seq<Field>)
    ensures (forall f :: f in fs ==> p(f)) ==> Keep(p, fs) == fs
    ensures (forall f :: f in fs ==> !p(f)) ==> Keep(p, fs) == []
  {
    if fs != [] {
      KeepAll(p, fs[1..]);
      assert fs[0] in fs && (forall f :: f in fs[1..] ==> f in fs);
    }
  }

  /** Records of which none is a varint, or none is length-delimited, of field `n`. */
  lemma {:induction false} HasNone(fs: seq<Field>, n: int)
    ensures (forall f :: f in fs && f.VarintField? ==> f.number != n) ==> LastVarint(fs, n) == None
    ensures (forall f :: f in fs && f.BytesField? ==> f.number != n) ==>
              LastBytes(fs, n) == None && EveryBytes(fs, n) == []
  {
    if fs != [] {
      HasNone(fs[1..], n);
      assert fs[0] in fs && (forall f :: f in fs[1..] ==> f in fs);
    }
  }

  lemma {:induction false} ConcatEmpty(parts: seq<seq<Field>>)
    requires forall j :: 0 <= j < |parts| ==> parts[j] == []
    ensures Concat(parts) == []
  {
    if parts != [] {
      assert forall j :: 0 <= j < |parts[1..]| ==> parts[1..][j] == parts[j + 1];
      ConcatEmpty(parts[1..]);
    }
  }

  /** Growing one part by one record grows the whole by one record. */
  lemma {:induction false} ConcatGrows(parts: seq<seq<Field>>, grown: seq<seq<Field>>, k: int)
    requires |parts| == |grown|
    requires forall j :: 0 <= j < |parts| ==> |grown[j]| <= |parts[j]| + if j == k then 1 else 0
    ensures |Concat(grown)| <= |Concat(parts)| + if 0 <= k < |parts| then 1 else 0
    decreases |parts|
  {
    if parts != [] {
      forall j | 0 <= j < |parts[1..]|
        ensures |grown[1..][j]| <= |parts[1..][j]| + if j == k - 1 then 1 else 0
      {
        assert grown[1..][j] == grown[j + 1] && parts[1..][j] == parts[j + 1];
      }
      ConcatGrows(parts[1..], grown[1..], k - 1);
      assert |grown[0]| <= |parts[0]| + if 0 == k then 1 else 0;
    }
  }

  lemma {:induction false} EncodeConcat(parts: seq<seq<Field>>, last: seq<Field>)
    ensures EncodeAll(Concat(parts + [last])) == EncodeAll(Concat(parts)) + EncodeAll(last)
  {
    hide Encode;
    if parts == [] {
      assert parts + [last] == [last];
      assert last + [] == last;
    } else {
      assert (parts + [last])[1..] == parts[1..] + [last];
      EncodeConcat(parts[1..], last);
      EncodeAllAppend(parts[0], Concat(parts[1..] + [last]));
      EncodeAllAppend(parts[0], Concat(parts[1..]));
    }
  }
}
