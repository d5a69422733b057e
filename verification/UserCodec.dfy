/**
 `admin.User` as a value: what its parser does with one record, what its printer emits,
 how two of them merge, and the laws connecting the three.
 */
module UserCodec {
  import opened Wire
  import opened Utf8
  import opened Fields
  import opened Dispatch
  import opened Printing

  datatype UserData = UserData(
    id: Int32,
    username: Bytes,
    email: Bytes,
    name: Bytes,
    roleId: Int32,
    roleName: Bytes,
    active: bool,
    createdAt: Bytes,
    updatedAt: Bytes,
    unknown: seq<Field>)

  const EMPTY: UserData := UserData(0, [], [], [], 0, [], false, [], [], [])

  // ---------------------------------------------------------------- the three operations

  /** What the parser does with one record; `None` when the record makes it fail.
      A known number under another wire type goes to the unknown fields. */
  function Apply(u: UserData, f: Field): Option<UserData> {
    match f
    case VarintField(n, v) =>
      if n == 1 then Some(u.(id := ToInt32(v)))
      else if n == 5 then Some(u.(roleId := ToInt32(v)))
      else if n == 7 then Some(u.(active := v != 0))
      else Some(u.(unknown := u.unknown + [f]))
    case BytesField(n, s) =>
      if !IsTextNumber(n) then Some(u.(unknown := u.unknown + [f]))
      else if ValidUtf8(s) then Some(SetText(u, n, s))
      else None
    case _ => Some(u.(unknown := u.unknown + [f]))
  }

  predicate IsTextNumber(n: int) {
    n == 2 || n == 3 || n == 4 || n == 6 || n == 8 || n == 9
  }

  function Text(u: UserData, n: int): Bytes
    requires IsTextNumber(n)
  {
    match n
    case 2 => u.username
    case 3 => u.email
    case 4 => u.name
    case 6 => u.roleName
    case 8 => u.createdAt
    case _ => u.updatedAt
  }

  function SetText(u: UserData, n: int, s: Bytes): UserData
    requires IsTextNumber(n)
  {
    match n
    case 2 => u.(username := s)
    case 3 => u.(email := s)
    case 4 => u.(name := s)
    case 6 => u.(roleName := s)
    case 8 => u.(createdAt := s)
    case _ => u.(updatedAt := s)
  }

  /** What is printed for field `j + 1`, or for the unknown fields when `j` is 9. */
  function Part(u: UserData, j: nat): seq<Field> {
    match j
    case 0 => IntRecord(1, u.id)
    case 4 => IntRecord(5, u.roleId)
    case 6 => BoolRecord(7, u.active)
    case _ => if IsTextNumber(j + 1) then TextRecord(j + 1, Text(u, j + 1)) else u.unknown
  }

  /** The fields in number order, then the unknown fields. */
  function Parts(u: UserData): (r: seq<seq<Field>>)
    ensures |r| == 10 && forall j: nat :: j < 10 ==> r[j] == Part(u, j)
  {
    seq(10, (j: nat) => Part(u, j))
  }

  function Records(u: UserData): seq<Field> {
    Concat(Parts(u))
  }

  function Print(u: UserData): Bytes {
    EncodeAll(Records(u))
  }

  /** `MergeImpl`: fields `b` holds away from their default win, unknown fields are appended. */
  function Merge(a: UserData, b: UserData): UserData {
    UserData(
      IntOr(b.id, a.id),
      TextOr(b.username, a.username),
      TextOr(b.email, a.email),
      TextOr(b.name, a.name),
      IntOr(b.roleId, a.roleId),
      TextOr(b.roleName, a.roleName),
      b.active || a.active,
      TextOr(b.createdAt, a.createdAt),
      TextOr(b.updatedAt, a.updatedAt),
      a.unknown + b.unknown)
  }

  /** Parsing a whole `User` into `u`. */
  function ParseInto(u: UserData, s: Bytes): Option<UserData> {
    ParseWhole(Apply, u, s)
  }

  // ---------------------------------------------------------------- what a parse yields

  predicate IsKnown(f: Field) {
    match f
    case VarintField(n, _) => n == 1 || n == 5 || n == 7
    case BytesField(n, _) => IsTextNumber(n)
    case _ => false
  }

  predicate IsUnknown(f: Field) {
    !IsKnown(f)
  }

  /** Every record of a string field, overwritten or not, must be valid UTF-8. */
  predicate TextsValid(fs: seq<Field>) {
    forall f :: f in fs && f.BytesField? && IsTextNumber(f.number) ==> ValidUtf8(f.data)
  }

  /** The message records `fs` denote on top of `u`: the last record of each singular field
      decides it, and the records that match no field are appended in input order. */
  function Overlay(u: UserData, fs: seq<Field>): UserData {
    UserData(
      LastInt32(fs, 1, u.id),
      OrElse(LastBytes(fs, 2), u.username),
      OrElse(LastBytes(fs, 3), u.email),
      OrElse(LastBytes(fs, 4), u.name),
      LastInt32(fs, 5, u.roleId),
      OrElse(LastBytes(fs, 6), u.roleName),
      LastBool(fs, 7, u.active),
      OrElse(LastBytes(fs, 8), u.createdAt),
      OrElse(LastBytes(fs, 9), u.updatedAt),
      u.unknown + Keep(IsUnknown, fs))
  }

  lemma OverlayStepScalars(u: UserData, f: Field, fs: seq<Field>)
    requires Apply(u, f).Some?
    ensures var u' := Apply(u, f).value;
            && LastInt32(fs, 1, u'.id) == LastInt32([f] + fs, 1, u.id)
            && LastInt32(fs, 5, u'.roleId) == LastInt32([f] + fs, 5, u.roleId)
            && LastBool(fs, 7, u'.active) == LastBool([f] + fs, 7, u.active)
  {
    hide ValidUtf8, LastVarint;
    ProjectHead(f, fs, 1);
    ProjectHead(f, fs, 5);
    ProjectHead(f, fs, 7);
  }

  lemma OverlayStepText(u: UserData, f: Field, fs: seq<Field>, n: int)
    requires Apply(u, f).Some? && IsTextNumber(n)
    ensures OrElse(LastBytes(fs, n), Text(Apply(u, f).value, n)) == OrElse(LastBytes([f] + fs, n), Text(u, n))
  {
    hide ValidUtf8, LastBytes;
    ProjectHead(f, fs, n);
  }

  lemma OverlayStep(u: UserData, f: Field, fs: seq<Field>)
    requires Apply(u, f).Some?
    ensures Overlay(Apply(u, f).value, fs) == Overlay(u, [f] + fs)
  {
    hide ValidUtf8, LastBytes, LastInt32, LastBool, OrElse;
    OverlayStepScalars(u, f, fs);
    OverlayStepText(u, f, fs, 2);
    OverlayStepText(u, f, fs, 3);
    OverlayStepText(u, f, fs, 4);
    OverlayStepText(u, f, fs, 6);
    OverlayStepText(u, f, fs, 8);
    OverlayStepText(u, f, fs, 9);
    assert ([f] + fs)[1..] == fs;
  }

  /** The parser's fold is the loop-free reading: the last record of a field wins. */
  lemma {:induction false} FoldIsOverlay(u: UserData, fs: seq<Field>)
    ensures Fold(Apply, u, fs) == if TextsValid(fs) then Some(Overlay(u, fs)) else None
    decreases fs
  {
    if fs == [] {
      assert u.unknown + Keep(IsUnknown, fs) == u.unknown;
    } else {
      var f := fs[0];
      assert fs == [f] + fs[1..];
      assert TextsValid(fs) <==> Apply(u, f).Some? && TextsValid(fs[1..]);
      if Apply(u, f).Some? {
        FoldIsOverlay(Apply(u, f).value, fs[1..]);
        OverlayStep(u, f, fs[1..]);
      }
    }
  }

  // ---------------------------------------------------------------- what can be read back

  /** The messages a parser can produce. */
  predicate Readable(u: UserData) {
    && TextsReadable(u)
    && AllWellFormed(u.unknown)
    && (forall f :: f in u.unknown ==> IsUnknown(f))
  }

  predicate TextsReadable(u: UserData) {
    && IsText(u.username) && IsText(u.email) && IsText(u.name)
    && IsText(u.roleName) && IsText(u.createdAt) && IsText(u.updatedAt)
  }

  lemma ApplyReadable(u: UserData, f: Field)
    requires Readable(u) && WellFormed(f) && Apply(u, f).Some?
    ensures Readable(Apply(u, f).value)
  {
    ApplyTexts(u, f);
    hide Apply, TextsReadable, WellFormed, IsUnknown;
    ApplyUnknown(u, f);
  }

  lemma ApplyTexts(u: UserData, f: Field)
    requires TextsReadable(u) && WellFormed(f) && Apply(u, f).Some?
    ensures TextsReadable(Apply(u, f).value)
  {
    hide ValidUtf8;
  }

  lemma ApplyUnknown(u: UserData, f: Field)
    requires Apply(u, f).Some?
    ensures Apply(u, f).value.unknown == u.unknown + if IsUnknown(f) then [f] else []
  {
    hide ValidUtf8;
  }

  lemma ParsedIsReadable(u: UserData, s: Bytes)
    requires Readable(u)
    ensures ParseInto(u, s).Some? ==> Readable(ParseInto(u, s).value)
  {
    forall a, f | Readable(a) && WellFormed(f) && Apply(a, f).Some?
      ensures Readable(Apply(a, f).value)
    {
      ApplyReadable(a, f);
    }
    hide Readable, Apply, ParseWhole;
    ParseKeeps(Apply, Readable, u, s);
  }

  /** A part before the unknown fields holds at most the one record of its field. */
  lemma PartOf(u: UserData, j: nat, f: Field)
    requires j < 9 && f in Part(u, j)
    ensures f.number == j + 1 && (f.VarintField? || f.BytesField?) && IsKnown(f)
    ensures f.BytesField? ==> f.data == Text(u, f.number)
  {
  }

  /** Only part `n - 1` says anything about field `n`. */
  lemma OtherParts(u: UserData, n: int, j: nat)
    requires j < 10 && j != n - 1 && (forall f :: f in u.unknown ==> IsUnknown(f))
    ensures n == 1 || n == 5 || n == 7 ==> LastVarint(Parts(u)[j], n) == None
    ensures IsTextNumber(n) ==> LastBytes(Parts(u)[j], n) == None
  {
    forall f | f in Part(u, j)
      ensures j < 9 ==> f.number != n
      ensures j == 9 ==> IsUnknown(f)
    {
      if j < 9 {
        PartOf(u, j, f);
      }
    }
    hide Parts, LastVarint, LastBytes;
    HasNone(Parts(u)[j], n);
  }

  lemma RecordsWellFormed(u: UserData)
    requires Readable(u)
    ensures AllWellFormed(Records(u)) && TextsValid(Records(u))
  {
    forall f | f in Records(u)
      ensures WellFormed(f) && (f.BytesField? && IsTextNumber(f.number) ==> ValidUtf8(f.data))
    {
      InConcat(Parts(u), f);
      var j :| 0 <= j < 10 && f in Part(u, j);
      PrintedRecord(u, j, f);
    }
  }

  lemma PrintedRecord(u: UserData, j: nat, f: Field)
    requires Readable(u) && j < 10 && f in Part(u, j)
    ensures WellFormed(f) && (f.BytesField? && IsTextNumber(f.number) ==> ValidUtf8(f.data))
  {
    if j < 9 {
      PartOf(u, j, f);
      hide Parts, ValidUtf8;
      assert f.BytesField? ==> IsText(Text(u, f.number));
    } else {
      assert f in u.unknown && IsUnknown(f);
    }
  }

  // ---------------------------------------------------------------- printing, then parsing

  lemma PrintedBytes(u: UserData, n: int)
    requires IsTextNumber(n) && (forall f :: f in u.unknown ==> IsUnknown(f))
    ensures LastBytes(Records(u), n) == if Text(u, n) == [] then None else Some(Text(u, n))
  {
    assert LastBytes(Parts(u)[n - 1], n) == if Text(u, n) == [] then None else Some(Text(u, n));
    hide Parts, LastBytes, Text;
    forall j: nat | j < 10 && j != n - 1
      ensures LastBytes(Parts(u)[j], n) == None
    {
      OtherParts(u, n, j);
    }
    OnlyBytes(Parts(u), n, n - 1);
  }

  lemma PrintedVarint(u: UserData, n: int)
    requires (n == 1 || n == 5 || n == 7) && (forall f :: f in u.unknown ==> IsUnknown(f))
    ensures LastVarint(Records(u), n) == LastVarint(Parts(u)[n - 1], n)
  {
    hide Parts, LastVarint;
    forall j: nat | j < 10 && j != n - 1
      ensures LastVarint(Parts(u)[j], n) == None
    {
      OtherParts(u, n, j);
    }
    OnlyVarint(Parts(u), n, n - 1);
  }

  lemma PrintedUnknown(u: UserData)
    requires forall f :: f in u.unknown ==> IsUnknown(f)
    ensures Keep(IsUnknown, Records(u)) == u.unknown
  {
    assert Parts(u)[9] == u.unknown;
    hide Parts, Keep, IsKnown;
    forall j: nat | j < 9
      ensures Keep(IsUnknown, Parts(u)[j]) == []
    {
      forall f | f in Part(u, j)
        ensures !IsUnknown(f)
      {
        PartOf(u, j, f);
      }
      KeepAll(IsUnknown, Parts(u)[j]);
    }
    KeepAll(IsUnknown, u.unknown);
    OnlyKept(IsUnknown, Parts(u), 9);
  }

  /** Printed records denote the message they were printed from. */
  lemma OverlayRecords(a: UserData, b: UserData)
    requires forall f :: f in b.unknown ==> IsUnknown(f)
    ensures Overlay(a, Records(b)) == Merge(a, b)
  {
    SignExtendUndone(b.id);
    SignExtendUndone(b.roleId);
    assert LastVarint(Parts(b)[0], 1) == if b.id == 0 then None else Some(SignExtend(b.id));
    assert LastVarint(Parts(b)[4], 5) == if b.roleId == 0 then None else Some(SignExtend(b.roleId));
    assert LastVarint(Parts(b)[6], 7) == if b.active then Some(1) else None;
    hide LastVarint, LastBytes, Keep, Parts;
    PrintedVarint(b, 1);
    PrintedBytes(b, 2);
    PrintedBytes(b, 3);
    PrintedBytes(b, 4);
    PrintedVarint(b, 5);
    PrintedBytes(b, 6);
    PrintedVarint(b, 7);
    PrintedBytes(b, 8);
    PrintedBytes(b, 9);
    PrintedUnknown(b);
  }

  lemma MergeUnit(u: UserData)
    ensures Merge(EMPTY, u) == u && Merge(u, EMPTY) == u
  {
    assert [] + u.unknown == u.unknown && u.unknown + [] == u.unknown;
  }

  lemma MergeAssociative(a: UserData, b: UserData, c: UserData)
    ensures Merge(Merge(a, b), c) == Merge(a, Merge(b, c))
  {
    assert (a.unknown + b.unknown) + c.unknown == a.unknown + (b.unknown + c.unknown);
  }

  /** Parsing what `b` prints into `a` merges `b` into `a`. */
  lemma ParsePrintIsMerge(a: UserData, b: UserData)
    requires Readable(b)
    ensures ParseInto(a, Print(b)) == Some(Merge(a, b))
  {
    RecordsWellFormed(b);
    ParseEncoded(Apply, a, Records(b));
    hide Records, Overlay, Merge, WellFormed, ValidUtf8;
    FoldIsOverlay(a, Records(b));
    OverlayRecords(a, b);
  }

  /** A printed message is read back exactly when its strings are valid UTF-8 of a length that
      a prefix may announce and its unknown fields are well formed and really unknown. */
  lemma RoundTrip(u: UserData)
    ensures ParseInto(EMPTY, Print(u)) == Some(u) <==> Readable(u)
  {
    if Readable(u) {
      ParsePrintIsMerge(EMPTY, u);
      MergeUnit(u);
    }
    hide ParseInto, Print, ValidUtf8;
    ParsedIsReadable(EMPTY, Print(u));
  }

  /** Whatever the parser accepts, canonical or not: the message prints to a form that
      parses back to it, and so prints the same bytes again. */
  lemma Canonical(s: Bytes)
    requires ParseInto(EMPTY, s).Some?
    ensures ParseInto(EMPTY, Print(ParseInto(EMPTY, s).value)) == ParseInto(EMPTY, s)
  {
    hide ParseInto, Print;
    ParsedIsReadable(EMPTY, s);
    RoundTrip(ParseInto(EMPTY, s).value);
  }

  // ---------------------------------------------------------------- concatenation

  /** Records `fs` put a field that `a` holds away from its default back to the default. */
  predicate Resets(a: UserData, fs: seq<Field>) {
    || (a.id != 0 && LastInt32(fs, 1, a.id) == 0)
    || (a.username != [] && LastBytes(fs, 2) == Some([]))
    || (a.email != [] && LastBytes(fs, 3) == Some([]))
    || (a.name != [] && LastBytes(fs, 4) == Some([]))
    || (a.roleId != 0 && LastInt32(fs, 5, a.roleId) == 0)
    || (a.roleName != [] && LastBytes(fs, 6) == Some([]))
    || (a.active && !LastBool(fs, 7, a.active))
    || (a.createdAt != [] && LastBytes(fs, 8) == Some([]))
    || (a.updatedAt != [] && LastBytes(fs, 9) == Some([]))
  }

  lemma OverlayIsMerge(a: UserData, fs: seq<Field>)
    ensures Overlay(a, fs) == Merge(a, Overlay(EMPTY, fs)) <==> !Resets(a, fs)
  {
    hide LastVarint, LastBytes, Keep;
    assert [] + Keep(IsUnknown, fs) == Keep(IsUnknown, fs);
  }

  /** Behind an accepted input, any input is accepted just as it is alone. Parsing the two back to
      back merges the second message into the first, except exactly when the second input writes
      a default over a field the first had set. */
  lemma ConcatenationIsMerge(s: Bytes, t: Bytes)
    requires ParseInto(EMPTY, s).Some?
    ensures ParseInto(EMPTY, s + t).Some? <==> ParseInto(EMPTY, t).Some?
    ensures ParseInto(EMPTY, t).Some? ==>
              var a, b := ParseInto(EMPTY, s).value, ParseInto(EMPTY, t).value;
              ParseInto(EMPTY, s + t) == Some(Merge(a, b)) <==> !Resets(a, ScanFields(t).fields)
  {
    hide Resets, Overlay, Merge, TextsValid, Apply, ScanFields;
    var a := ParseInto(EMPTY, s).value;
    var fs := ScanFields(t).fields;
    ParseAppend(Apply, EMPTY, s, t);
    FoldIsOverlay(EMPTY, fs);
    FoldIsOverlay(a, fs);
    OverlayIsMerge(a, fs);
  }

  /** Printed messages never reset anything: their bytes in a row are always the merge. */
  lemma PrintedConcatenation(a: UserData, b: UserData)
    requires Readable(a) && Readable(b)
    ensures ParseInto(EMPTY, Print(a) + Print(b)) == Some(Merge(a, b))
  {
    RoundTrip(a);
    ParsePrintIsMerge(a, b);
    hide Readable, Print, Merge;
    ParseAppend(Apply, EMPTY, Print(a), Print(b));
  }

  // ---------------------------------------------------------------- order of records

  /** The message without its unknown fields. */
  function Known(u: UserData): UserData {
    u.(unknown := [])
  }

  lemma OverlaySwap(u: UserData, f: Field, g: Field, fs: seq<Field>)
    requires f.number != g.number
    ensures Known(Overlay(u, [f, g] + fs)) == Known(Overlay(u, [g, f] + fs))
    ensures multiset(Overlay(u, [f, g] + fs).unknown) == multiset(Overlay(u, [g, f] + fs).unknown)
  {
    hide LastVarint, LastBytes, Keep;
    forall n: int
      ensures LastVarint([f, g] + fs, n) == LastVarint([g, f] + fs, n)
      ensures LastBytes([f, g] + fs, n) == LastBytes([g, f] + fs, n)
    {
      ProjectSwap(f, g, fs, n);
    }
    KeepSwap(IsUnknown, f, g, fs);
  }

  /** Swapping two neighbouring records of different fields changes neither acceptance nor any
      known field, and the unknown fields only in their order. */
  lemma SwapRecords(before: Bytes, e: Bytes, d: Bytes, after: Bytes, f: Field, g: Field)
    requires ScanFields(before).end == AtLimit
    requires ReadField(e) == Got(f, |e|) && ReadField(d) == Got(g, |d|) && f.number != g.number
    ensures var p, q := ParseInto(EMPTY, before + (e + d + after)), ParseInto(EMPTY, before + (d + e + after));
            && (p.Some? <==> q.Some?)
            && (p.Some? ==> Known(p.value) == Known(q.value))
            && (p.Some? ==> multiset(p.value.unknown) == multiset(q.value.unknown))
  {
    ParsePair(Apply, EMPTY, before, e, d, after, f, g);
    ParsePair(Apply, EMPTY, before, d, e, after, g, f);
    var m, gs := ParseInto(EMPTY, before), ScanFields(after).fields;
    if m.Some? {
      FoldIsOverlay(m.value, [f, g] + gs);
      FoldIsOverlay(m.value, [g, f] + gs);
      hide Overlay, ScanFields, ReadField, Known, ValidUtf8, ParseWhole;
      OverlaySwap(m.value, f, g, gs);
      assert TextsValid([f, g] + gs) <==> TextsValid([g, f] + gs);
    }
  }

  // ---------------------------------------------------------------- how much is printed

  /** The part of a message a record can make longer. */
  function PartFor(f: Field): nat {
    if IsKnown(f) then f.number - 1 else 9
  }

  lemma PartGrows(u: UserData, f: Field, j: nat)
    requires Apply(u, f).Some? && j < 10
    ensures |Part(Apply(u, f).value, j)| <= |Part(u, j)| + if j == PartFor(f) then 1 else 0
  {
    hide ValidUtf8;
    if !IsTextNumber(j + 1) {
      ScalarsKept(u, f);
      hide Apply, SetText, Text;
    }
  }

  lemma ScalarsKept(u: UserData, f: Field)
    requires Apply(u, f).Some?
    ensures var u' := Apply(u, f).value;
            && (PartFor(f) != 0 ==> u'.id == u.id)
            && (PartFor(f) != 4 ==> u'.roleId == u.roleId)
            && (PartFor(f) != 6 ==> u'.active == u.active)
            && |u'.unknown| == |u.unknown| + if PartFor(f) == 9 then 1 else 0
  {
    hide ValidUtf8;
  }

  /** One more record makes the message print at most one more record. */
  lemma ApplyPrintsOneMore(u: UserData, f: Field)
    requires Apply(u, f).Some?
    ensures |Records(Apply(u, f).value)| <= |Records(u)| + 1
  {
    hide Apply, PartFor;
    forall j: nat | j < 10
      ensures |Parts(Apply(u, f).value)[j]| <= |Parts(u)[j]| + if j == PartFor(f) then 1 else 0
    {
      PartGrows(u, f, j);
    }
    hide Parts;
    ConcatGrows(Parts(u), Parts(Apply(u, f).value), PartFor(f));
  }

  lemma {:induction false} FoldPrintsNoMore(u: UserData, fs: seq<Field>)
    ensures Fold(Apply, u, fs).Some? ==> |Records(Fold(Apply, u, fs).value)| <= |Records(u)| + |fs|
    decreases fs
  {
    if fs != [] && Apply(u, fs[0]).Some? {
      hide Apply, Records;
      ApplyPrintsOneMore(u, fs[0]);
      FoldPrintsNoMore(Apply(u, fs[0]).value, fs[1..]);
    }
  }

  /** No proper prefix of what `u` prints parses to `u`. */
  lemma PrefixIsNotEnough(u: UserData, k: nat)
    requires Readable(u) && k < |Print(u)|
    ensures ParseInto(EMPTY, Print(u)[..k]) != Some(u)
  {
    RecordsWellFormed(u);
    var s := Print(u)[..k];
    if ScanFields(s).end == AtLimit {
      PrefixScan(Records(u), k);
      FoldPrintsNoMore(EMPTY, ScanFields(s).fields);
      NothingPrinted();
    }
  }

  lemma NothingPrinted()
    ensures Records(EMPTY) == []
  {
    ConcatEmpty(Parts(EMPTY));
  }

  /** The parts, field by field. */
  lemma PartsAre(u: UserData)
    ensures |Parts(u)| == 10 && EncodeAll(Concat(Parts(u))) == Print(u)
    ensures Parts(u)[0] == IntRecord(1, u.id) && Parts(u)[1] == TextRecord(2, u.username)
    ensures Parts(u)[2] == TextRecord(3, u.email) && Parts(u)[3] == TextRecord(4, u.name)
    ensures Parts(u)[4] == IntRecord(5, u.roleId) && Parts(u)[5] == TextRecord(6, u.roleName)
    ensures Parts(u)[6] == BoolRecord(7, u.active) && Parts(u)[7] == TextRecord(8, u.createdAt)
    ensures Parts(u)[8] == TextRecord(9, u.updatedAt) && Parts(u)[9] == u.unknown
  {
  }

  // ---------------------------------------------------------------- size

  function PartSize(u: UserData, j: nat): nat {
    |EncodeAll(Part(u, j))|
  }

  lemma PartSizes(u: UserData)
    ensures |Print(u)| == PartSize(u, 0) + PartSize(u, 1) + PartSize(u, 2) + PartSize(u, 3) + PartSize(u, 4)
                        + PartSize(u, 5) + PartSize(u, 6) + PartSize(u, 7) + PartSize(u, 8) + PartSize(u, 9)
  {
    PrintedEnds(Parts(u));
    hide EncodeAll, Part;
    PartsSizeExact(Parts(u), 10);
  }

  lemma ScalarSizes(u: UserData)
    ensures PartSize(u, 0) == SizeIf(u.id != 0, IntSize(u.id) + 1)
    ensures PartSize(u, 4) == SizeIf(u.roleId != 0, IntSize(u.roleId) + 1)
    ensures PartSize(u, 6) == SizeIf(u.active, 1 + 1)
    ensures PartSize(u, 9) == SizeIf(u.unknown != [], FieldsSize(u.unknown))
  {
    hide IntSize, EncodeAll, FieldsSize;
    IntSizeExact(1, u.id);
    IntSizeExact(5, u.roleId);
    BoolSizeExact(7, u.active);
    FieldsSizeExact(u.unknown);
    EncodeNothing();
  }

  /** The sum `ByteSizeLong` computes, in its order, is the length of the printed message. */
  lemma PrintedLength(u: UserData)
    ensures |Print(u)| ==
            SizeIf(u.username != [], 1 + DelimitedSize(|u.username|))
            + SizeIf(u.email != [], 1 + DelimitedSize(|u.email|))
            + SizeIf(u.name != [], 1 + DelimitedSize(|u.name|))
            + SizeIf(u.roleName != [], 1 + DelimitedSize(|u.roleName|))
            + SizeIf(u.createdAt != [], 1 + DelimitedSize(|u.createdAt|))
            + SizeIf(u.updatedAt != [], 1 + DelimitedSize(|u.updatedAt|))
            + SizeIf(u.id != 0, IntSize(u.id) + 1)
            + SizeIf(u.roleId != 0, IntSize(u.roleId) + 1)
            + SizeIf(u.active, 1 + 1)
            + SizeIf(u.unknown != [], FieldsSize(u.unknown))
  {
    hide DelimitedSize, IntSize, Print, FieldsSize, SizeIf;
    PartSizes(u);
    ScalarSizes(u);
    hide EncodeAll, IntRecord, TextRecord, BoolRecord;
    TextRecordSize(2, u.username);
    TextRecordSize(3, u.email);
    TextRecordSize(4, u.name);
    TextRecordSize(6, u.roleName);
    TextRecordSize(8, u.createdAt);
    TextRecordSize(9, u.updatedAt);
  }
}
