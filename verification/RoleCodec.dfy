/**
 `admin.Role` as a value: like `User`, with a repeated string among its fields.
 */
module RoleCodec {
  import opened Wire
  import opened Utf8
  import opened Fields
  import opened Dispatch
  import opened Printing

  datatype RoleData = RoleData(
    id: Int32,
    name: Bytes,
    description: Bytes,
    permissions: seq<Bytes>,
    active: bool,
    createdAt: Bytes,
    unknown: seq<Field>)

  const EMPTY: RoleData := RoleData(0, [], [], [], false, [], [])

  // ---------------------------------------------------------------- the three operations

  /** What the parser does with one record; `None` when the record makes it fail. */
  function Apply(r: RoleData, f: Field): Option<RoleData> {
    match f
    case VarintField(n, v) =>
      if n == 1 then Some(r.(id := ToInt32(v)))
      else if n == 5 then Some(r.(active := v != 0))
      else Some(r.(unknown := r.unknown + [f]))
    case BytesField(n, s) =>
      if !IsTextNumber(n) && n != 4 then Some(r.(unknown := r.unknown + [f]))
      else if !ValidUtf8(s) then None
      else if n == 4 then Some(r.(permissions := r.permissions + [s]))
      else Some(SetText(r, n, s))
    case _ => Some(r.(unknown := r.unknown + [f]))
  }

  predicate IsTextNumber(n: int) {
    n == 2 || n == 3 || n == 6
  }

  function Text(r: RoleData, n: int): Bytes
    requires IsTextNumber(n)
  {
    match n
    case 2 => r.name
    case 3 => r.description
    case _ => r.createdAt
  }

  function SetText(r: RoleData, n: int, s: Bytes): RoleData
    requires IsTextNumber(n)
  {
    match n
    case 2 => r.(name := s)
    case 3 => r.(description := s)
    case _ => r.(createdAt := s)
  }

  /** What is printed for field `j + 1`, or for the unknown fields when `j` is 6. Every
      permission is printed, empty ones too. */
  function Part(r: RoleData, j: nat): seq<Field> {
    match j
    case 0 => IntRecord(1, r.id)
    case 3 => BytesRecords(4, r.permissions)
    case 4 => BoolRecord(5, r.active)
    case _ => if IsTextNumber(j + 1) then TextRecord(j + 1, Text(r, j + 1)) else r.unknown
  }

  function Parts(r: RoleData): (ps: seq<seq<Field>>)
    ensures |ps| == 7 && forall j: nat :: j < 7 ==> ps[j] == Part(r, j)
  {
    seq(7, (j: nat) => Part(r, j))
  }

  function Records(r: RoleData): seq<Field> {
    Concat(Parts(r))
  }

  function Print(r: RoleData): Bytes {
    EncodeAll(Records(r))
  }

  function Merge(a: RoleData, b: RoleData): RoleData {
    RoleData(
      IntOr(b.id, a.id),
      TextOr(b.name, a.name),
      TextOr(b.description, a.description),
      a.permissions + b.permissions,
      b.active || a.active,
      TextOr(b.createdAt, a.createdAt),
      a.unknown + b.unknown)
  }

  function ParseInto(r: RoleData, s: Bytes): Option<RoleData> {
    ParseWhole(Apply, r, s)
  }

  // ---------------------------------------------------------------- what a parse yields

  predicate IsKnown(f: Field) {
    match f
    case VarintField(n, _) => n == 1 || n == 5
    case BytesField(n, _) => IsTextNumber(n) || n == 4
    case _ => false
  }

  predicate IsUnknown(f: Field) {
    !IsKnown(f)
  }

  predicate TextsValid(fs: seq<Field>) {
    forall f :: f in fs && f.BytesField? && IsKnown(f) ==> ValidUtf8(f.data)
  }

  /** The message records `fs` denote on top of `r`: the last record of each singular field,
      every permission in input order, and the records that match no field in input order. */
  function Overlay(r: RoleData, fs: seq<Field>): RoleData {
    RoleData(
      LastInt32(fs, 1, r.id),
      OrElse(LastBytes(fs, 2), r.name),
      OrElse(LastBytes(fs, 3), r.description),
      r.permissions + EveryBytes(fs, 4),
      LastBool(fs, 5, r.active),
      OrElse(LastBytes(fs, 6), r.createdAt),
      r.unknown + Keep(IsUnknown, fs))
  }

  lemma OverlayStepScalars(r: RoleData, f: Field, fs: seq<Field>)
    requires Apply(r, f).Some?
    ensures var r' := Apply(r, f).value;
            && LastInt32(fs, 1, r'.id) == LastInt32([f] + fs, 1, r.id)
            && LastBool(fs, 5, r'.active) == LastBool([f] + fs, 5, r.active)
  {
    hide ValidUtf8, LastVarint;
    ProjectHead(f, fs, 1);
    ProjectHead(f, fs, 5);
  }

  lemma OverlayStepText(r: RoleData, f: Field, fs: seq<Field>, n: int)
    requires Apply(r, f).Some? && IsTextNumber(n)
    ensures OrElse(LastBytes(fs, n), Text(Apply(r, f).value, n)) == OrElse(LastBytes([f] + fs, n), Text(r, n))
  {
    hide ValidUtf8, LastBytes;
    ProjectHead(f, fs, n);
  }

  lemma OverlayStepRepeated(r: RoleData, f: Field, fs: seq<Field>)
    requires Apply(r, f).Some?
    ensures var r' := Apply(r, f).value;
            && r'.permissions + EveryBytes(fs, 4) == r.permissions + EveryBytes([f] + fs, 4)
            && r'.unknown + Keep(IsUnknown, fs) == r.unknown + Keep(IsUnknown, [f] + fs)
  {
    hide ValidUtf8, EveryBytes, Keep;
    ProjectHead(f, fs, 4);
    KeepHead(IsUnknown, f, fs);
  }

  lemma OverlayStep(r: RoleData, f: Field, fs: seq<Field>)
    requires Apply(r, f).Some?
    ensures Overlay(Apply(r, f).value, fs) == Overlay(r, [f] + fs)
  {
    hide Apply, LastInt32, LastBool, OrElse;
    OverlayStepScalars(r, f, fs);
    OverlayStepText(r, f, fs, 2);
    OverlayStepText(r, f, fs, 3);
    OverlayStepText(r, f, fs, 6);
    OverlayStepRepeated(r, f, fs);
  }

  /** The parser's fold is the loop-free reading: the last record of a singular field wins and
      the permissions keep their order. */
  lemma {:induction false} FoldIsOverlay(r: RoleData, fs: seq<Field>)
    ensures Fold(Apply, r, fs) == if TextsValid(fs) then Some(Overlay(r, fs)) else None
    decreases fs
  {
    if fs == [] {
      assert r.permissions + EveryBytes(fs, 4) == r.permissions && r.unknown + Keep(IsUnknown, fs) == r.unknown;
    } else {
      var f := fs[0];
      assert fs == [f] + fs[1..];
      assert TextsValid(fs) <==> Apply(r, f).Some? && TextsValid(fs[1..]);
      if Apply(r, f).Some? {
        hide Overlay;
        FoldIsOverlay(Apply(r, f).value, fs[1..]);
        OverlayStep(r, f, fs[1..]);
      }
    }
  }

  // ---------------------------------------------------------------- what can be read back

  predicate TextsReadable(r: RoleData) {
    && IsText(r.name) && IsText(r.description) && IsText(r.createdAt)
    && (forall s :: s in r.permissions ==> IsText(s))
  }

  /** The messages a parser can produce. */
  predicate Readable(r: RoleData) {
    && TextsReadable(r)
    && AllWellFormed(r.unknown)
    && (forall f :: f in r.unknown ==> IsUnknown(f))
  }

  lemma ApplyTexts(r: RoleData, f: Field)
    requires TextsReadable(r) && WellFormed(f) && Apply(r, f).Some?
    ensures TextsReadable(Apply(r, f).value)
  {
    hide ValidUtf8;
  }

  lemma ApplyUnknown(r: RoleData, f: Field)
    requires Apply(r, f).Some?
    ensures Apply(r, f).value.unknown == r.unknown + if IsUnknown(f) then [f] else []
  {
    hide ValidUtf8;
  }

  lemma ApplyReadable(r: RoleData, f: Field)
    requires Readable(r) && WellFormed(f) && Apply(r, f).Some?
    ensures Readable(Apply(r, f).value)
  {
    ApplyTexts(r, f);
    hide Apply, TextsReadable, WellFormed, IsUnknown;
    ApplyUnknown(r, f);
  }

  lemma ParsedIsReadable(r: RoleData, s: Bytes)
    requires Readable(r)
    ensures ParseInto(r, s).Some? ==> Readable(ParseInto(r, s).value)
  {
    forall a, f | Readable(a) && WellFormed(f) && Apply(a, f).Some?
      ensures Readable(Apply(a, f).value)
    {
      ApplyReadable(a, f);
    }
    hide Readable, Apply, ParseWhole;
    ParseKeeps(Apply, Readable, r, s);
  }

  // ---------------------------------------------------------------- printing, then parsing

  /** A part before the unknown fields holds only records of its own field. */
  lemma PartOf(r: RoleData, j: nat, f: Field)
    requires j < 6 && f in Part(r, j)
    ensures f.number == j + 1 && (f.VarintField? || f.BytesField?) && IsKnown(f)
    ensures f.BytesField? && j == 3 ==> f.data in r.permissions
    ensures f.BytesField? && j != 3 ==> IsTextNumber(f.number) && f.data == Text(r, f.number)
  {
    InBytesRecords(4, r.permissions, f);
  }

  lemma OtherParts(r: RoleData, n: int, j: nat)
    requires j < 7 && j != n - 1 && (forall f :: f in r.unknown ==> IsUnknown(f))
    ensures n == 1 || n == 5 ==> LastVarint(Parts(r)[j], n) == None
    ensures IsTextNumber(n) || n == 4 ==> LastBytes(Parts(r)[j], n) == None && EveryBytes(Parts(r)[j], n) == []
  {
    forall f | f in Parts(r)[j]
      ensures j < 6 ==> f.number != n
      ensures j == 6 ==> IsUnknown(f)
    {
      if j < 6 {
        PartOf(r, j, f);
      }
    }
    hide Parts, LastVarint, LastBytes, EveryBytes;
    HasNone(Parts(r)[j], n);
  }

  lemma PrintedRecord(r: RoleData, j: nat, f: Field)
    requires Readable(r) && j < 7 && f in Part(r, j)
    ensures WellFormed(f) && (f.BytesField? && IsKnown(f) ==> ValidUtf8(f.data))
  {
    if j < 6 {
      PartOf(r, j, f);
      hide Part, ValidUtf8;
      assert f.BytesField? ==> IsText(f.data);
    } else {
      assert f in r.unknown && IsUnknown(f);
    }
  }

  lemma RecordsReadable(r: RoleData)
    requires Readable(r)
    ensures AllWellFormed(Records(r)) && TextsValid(Records(r))
  {
    forall f | f in Records(r)
      ensures WellFormed(f) && (f.BytesField? && IsKnown(f) ==> ValidUtf8(f.data))
    {
      InConcat(Parts(r), f);
      var j :| 0 <= j < 7 && f in Part(r, j);
      PrintedRecord(r, j, f);
    }
  }

  lemma PrintedText(r: RoleData, n: int)
    requires IsTextNumber(n) && (forall f :: f in r.unknown ==> IsUnknown(f))
    ensures LastBytes(Records(r), n) == if Text(r, n) == [] then None else Some(Text(r, n))
  {
    assert LastBytes(Part(r, n - 1), n) == if Text(r, n) == [] then None else Some(Text(r, n));
    hide Part, LastBytes, Text;
    forall j: nat | j < 7 && j != n - 1
      ensures LastBytes(Parts(r)[j], n) == None
    {
      OtherParts(r, n, j);
    }
    OnlyBytes(Parts(r), n, n - 1);
  }

  lemma PrintedPermissions(r: RoleData)
    requires forall f :: f in r.unknown ==> IsUnknown(f)
    ensures EveryBytes(Records(r), 4) == r.permissions
  {
    hide EveryBytes;
    forall j: nat | j < 7 && j != 3
      ensures EveryBytes(Parts(r)[j], 4) == []
    {
      OtherParts(r, 4, j);
    }
    OnlyEvery(Parts(r), 4, 3);
    EveryBytesRecords(4, r.permissions);
  }

  lemma PrintedVarint(r: RoleData, n: int)
    requires (n == 1 || n == 5) && (forall f :: f in r.unknown ==> IsUnknown(f))
    ensures LastVarint(Records(r), n) == LastVarint(Part(r, n - 1), n)
  {
    hide Part, LastVarint;
    forall j: nat | j < 7 && j != n - 1
      ensures LastVarint(Parts(r)[j], n) == None
    {
      OtherParts(r, n, j);
    }
    OnlyVarint(Parts(r), n, n - 1);
  }

  lemma PrintedUnknown(r: RoleData)
    requires forall f :: f in r.unknown ==> IsUnknown(f)
    ensures Keep(IsUnknown, Records(r)) == r.unknown
  {
    hide Keep, IsKnown;
    forall j: nat | j < 6
      ensures Keep(IsUnknown, Parts(r)[j]) == []
    {
      forall f | f in Parts(r)[j]
        ensures !IsUnknown(f)
      {
        PartOf(r, j, f);
      }
      KeepAll(IsUnknown, Parts(r)[j]);
    }
    KeepAll(IsUnknown, r.unknown);
    OnlyKept(IsUnknown, Parts(r), 6);
  }

  lemma OverlayRecords(a: RoleData, b: RoleData)
    requires forall f :: f in b.unknown ==> IsUnknown(f)
    ensures Overlay(a, Records(b)) == Merge(a, b)
  {
    SignExtendUndone(b.id);
    assert LastVarint(Part(b, 0), 1) == if b.id == 0 then None else Some(SignExtend(b.id));
    assert LastVarint(Part(b, 4), 5) == if b.active then Some(1) else None;
    hide LastVarint, LastBytes, EveryBytes, Keep, Part;
    PrintedVarint(b, 1);
    PrintedText(b, 2);
    PrintedText(b, 3);
    PrintedPermissions(b);
    PrintedVarint(b, 5);
    PrintedText(b, 6);
    PrintedUnknown(b);
  }

  // ---------------------------------------------------------------- the laws

  lemma MergeUnit(r: RoleData)
    ensures Merge(EMPTY, r) == r && Merge(r, EMPTY) == r
  {
    assert [] + r.permissions == r.permissions && r.permissions + [] == r.permissions;
    assert [] + r.unknown == r.unknown && r.unknown + [] == r.unknown;
  }

  lemma MergeAssociative(a: RoleData, b: RoleData, c: RoleData)
    ensures Merge(Merge(a, b), c) == Merge(a, Merge(b, c))
  {
    assert (a.permissions + b.permissions) + c.permissions == a.permissions + (b.permissions + c.permissions);
    assert (a.unknown + b.unknown) + c.unknown == a.unknown + (b.unknown + c.unknown);
  }

  /** Parsing what `b` prints into `a` merges `b` into `a`. */
  lemma ParsePrintIsMerge(a: RoleData, b: RoleData)
    requires Readable(b)
    ensures ParseInto(a, Print(b)) == Some(Merge(a, b))
  {
    RecordsReadable(b);
    ParseEncoded(Apply, a, Records(b));
    hide Records, Overlay, Merge, WellFormed, ValidUtf8;
    FoldIsOverlay(a, Records(b));
    OverlayRecords(a, b);
  }

  /** A printed role is read back exactly when its strings, permissions included, are valid UTF-8
      of a length a prefix may announce and its unknown fields are well formed and really unknown. */
  lemma RoundTrip(r: RoleData)
    ensures ParseInto(EMPTY, Print(r)) == Some(r) <==> Readable(r)
  {
    if Readable(r) {
      ParsePrintIsMerge(EMPTY, r);
      MergeUnit(r);
    }
    hide ParseInto, Print;
    ParsedIsReadable(EMPTY, Print(r));
  }

  /** Whatever the parser accepts prints to a form that parses back to the same message. */
  lemma Canonical(s: Bytes)
    requires ParseInto(EMPTY, s).Some?
    ensures ParseInto(EMPTY, Print(ParseInto(EMPTY, s).value)) == ParseInto(EMPTY, s)
  {
    hide ParseInto, Print;
    ParsedIsReadable(EMPTY, s);
    RoundTrip(ParseInto(EMPTY, s).value);
  }

  /** Records `fs` put a singular field that `a` holds away from its default back to the default. */
  predicate Resets(a: RoleData, fs: seq<Field>) {
    || (a.id != 0 && LastInt32(fs, 1, a.id) == 0)
    || (a.name != [] && LastBytes(fs, 2) == Some([]))
    || (a.description != [] && LastBytes(fs, 3) == Some([]))
    || (a.active && !LastBool(fs, 5, a.active))
    || (a.createdAt != [] && LastBytes(fs, 6) == Some([]))
  }

  lemma OverlayIsMerge(a: RoleData, fs: seq<Field>)
    ensures Overlay(a, fs) == Merge(a, Overlay(EMPTY, fs)) <==> !Resets(a, fs)
  {
    hide LastVarint, LastBytes, EveryBytes, Keep;
    assert [] + Keep(IsUnknown, fs) == Keep(IsUnknown, fs) && [] + EveryBytes(fs, 4) == EveryBytes(fs, 4);
  }

  /** Behind an accepted input, any input is accepted just as it is alone. Parsing the two back to
      back merges the second message into the first, except exactly when the second input writes
      a default over a field the first had set. */
  lemma ConcatenationIsMerge(s: Bytes, t: Bytes)
    requires ParseInto(EMPTY, s).Some?
    ensures ParseInto(EMPTY, s + t).Some? <==> ParseInto(EMPTY, t).Some?
    ensures ParseInto(EMPTY, t).Some? ==>
              var a, b := ParseInto(EMPTY, s).value, ParseInto(EMPTY, t).value;
              ParseInto(EMPTY, s + t) == Some(Merge(a, b)) <==> !Resets(a, ScanFields(t).fields)
  {
    hide Resets, Overlay, Merge, TextsValid, Apply, ScanFields;
    var a := ParseInto(EMPTY, s).value;
    var fs := ScanFields(t).fields;
    ParseAppend(Apply, EMPTY, s, t);
    FoldIsOverlay(EMPTY, fs);
    FoldIsOverlay(a, fs);
    OverlayIsMerge(a, fs);
  }

  /** Printed messages never reset anything: their bytes in a row are always the merge. */
  lemma PrintedConcatenation(a: RoleData, b: RoleData)
    requires Readable(a) && Readable(b)
    ensures ParseInto(EMPTY, Print(a) + Print(b)) == Some(Merge(a, b))
  {
    RoundTrip(a);
    ParsePrintIsMerge(a, b);
    hide Readable, Print, Merge;
    ParseAppend(Apply, EMPTY, Print(a), Print(b));
  }

  /** The message without its unknown fields. */
  function Known(r: RoleData): RoleData {
    r.(unknown := [])
  }

  /** Swapping two neighbouring records of different fields changes neither acceptance nor any
      known field, the order of permissions included, and the unknown fields only in their order. */
  lemma SwapRecords(before: Bytes, e: Bytes, d: Bytes, after: Bytes, f: Field, g: Field)
    requires ScanFields(before).end == AtLimit
    requires ReadField(e) == Got(f, |e|) && ReadField(d) == Got(g, |d|) && f.number != g.number
    ensures var p, q := ParseInto(EMPTY, before + (e + d + after)), ParseInto(EMPTY, before + (d + e + after));
            && (p.Some? <==> q.Some?)
            && (p.Some? ==> Known(p.value) == Known(q.value))
            && (p.Some? ==> multiset(p.value.unknown) == multiset(q.value.unknown))
  {
    ParsePair(Apply, EMPTY, before, e, d, after, f, g);
    ParsePair(Apply, EMPTY, before, d, e, after, g, f);
    var m, gs := ParseInto(EMPTY, before), ScanFields(after).fields;
    if m.Some? {
      FoldIsOverlay(m.value, [f, g] + gs);
      FoldIsOverlay(m.value, [g, f] + gs);
      hide Overlay, ScanFields, ReadField, Known, ValidUtf8, ParseWhole;
      OverlaySwap(m.value, f, g, gs);
      assert TextsValid([f, g] + gs) <==> TextsValid([g, f] + gs);
    }
  }

  lemma OverlaySwap(r: RoleData, f: Field, g: Field, fs: seq<Field>)
    requires f.number != g.number
    ensures Known(Overlay(r, [f, g] + fs)) == Known(Overlay(r, [g, f] + fs))
    ensures multiset(Overlay(r, [f, g] + fs).unknown) == multiset(Overlay(r, [g, f] + fs).unknown)
  {
    hide LastVarint, LastBytes, EveryBytes, Keep;
    forall n: int
      ensures LastVarint([f, g] + fs, n) == LastVarint([g, f] + fs, n)
      ensures LastBytes([f, g] + fs, n) == LastBytes([g, f] + fs, n)
      ensures EveryBytes([f, g] + fs, n) == EveryBytes([g, f] + fs, n)
    {
      ProjectSwap(f, g, fs, n);
    }
    KeepSwap(IsUnknown, f, g, fs);
  }

  // ---------------------------------------------------------------- size

  /** The parts, field by field. */
  lemma PartsAre(r: RoleData)
    ensures |Parts(r)| == 7 && EncodeAll(Concat(Parts(r))) == Print(r)
    ensures Parts(r)[0] == IntRecord(1, r.id) && Parts(r)[1] == TextRecord(2, r.name)
    ensures Parts(r)[2] == TextRecord(3, r.description) && Parts(r)[3] == BytesRecords(4, r.permissions)
    ensures Parts(r)[4] == BoolRecord(5, r.active) && Parts(r)[5] == TextRecord(6, r.createdAt)
    ensures Parts(r)[6] == r.unknown
  {
  }

  /** The loop over the permissions: their string sizes, without the tags. */
  function StringSizes(ss: seq<Bytes>): nat {
    if ss == [] then 0 else StringSizes(ss[..|ss| - 1]) + DelimitedSize(|ss[|ss| - 1]|)
  }

  lemma StringSizesNext(ss: seq<Bytes>, i: nat)
    requires i < |ss|
    ensures StringSizes(ss[..i + 1]) == StringSizes(ss[..i]) + DelimitedSize(|ss[i]|)
  {
    hide DelimitedSize;
    assert ss[..i + 1][..i] == ss[..i];
  }

  lemma NoStrings()
    ensures StringSizes([]) == 0
  {
  }

  lemma {:induction false} PermissionsSize(ss: seq<Bytes>)
    ensures |EncodeAll(BytesRecords(4, ss))| == |ss| + StringSizes(ss)
    decreases |ss|
  {
    if ss != [] {
      hide EncodeAll, DelimitedSize, BytesRecords;
      var init, last := ss[..|ss| - 1], ss[|ss| - 1];
      assert ss == init + [last];
      PermissionsSize(init);
      EncodeBytesRecords(4, init, last);
      TextSizeExact(4, last);
    }
  }

  lemma PartSizes(r: RoleData)
    ensures var ps := Parts(r);
            |Print(r)| == |EncodeAll(ps[0])| + |EncodeAll(ps[1])| + |EncodeAll(ps[2])| + |EncodeAll(ps[3])|
                          + |EncodeAll(ps[4])| + |EncodeAll(ps[5])| + |EncodeAll(ps[6])|
  {
    PrintedEnds(Parts(r));
    hide EncodeAll, Concat, Parts, PrintedUpTo;
    PartsSizeExact(Parts(r), 7);
  }

  /** The sum `ByteSizeLong` computes, in its order, is the length of the printed message. */
  lemma PrintedLength(r: RoleData)
    ensures |Print(r)| ==
            |r.permissions| + StringSizes(r.permissions)
            + SizeIf(r.name != [], 1 + DelimitedSize(|r.name|))
            + SizeIf(r.description != [], 1 + DelimitedSize(|r.description|))
            + SizeIf(r.createdAt != [], 1 + DelimitedSize(|r.createdAt|))
            + SizeIf(r.id != 0, IntSize(r.id) + 1)
            + SizeIf(r.active, 1 + 1)
            + SizeIf(r.unknown != [], FieldsSize(r.unknown))
  {
    PartSizes(r);
    PartsAre(r);
    hide EncodeAll, Concat, Parts, Print, IntRecord, TextRecord, BoolRecord, BytesRecords;
    hide DelimitedSize, IntSize, FieldsSize, StringSizes;
    IntSizeExact(1, r.id);
    TextRecordSize(2, r.name);
    TextRecordSize(3, r.description);
    PermissionsSize(r.permissions);
    BoolSizeExact(5, r.active);
    TextRecordSize(6, r.createdAt);
    FieldsSizeExact(r.unknown);
    EncodeNothing();
  }
}
