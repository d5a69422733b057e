/**
 `admin.GetUsersResponse` as a value: a repeated nested message, whose length prefixes come
 from cached sizes, and a 64-bit total.
 */
module UsersCodec {
  import opened Wire
  import opened Fields
  import opened Dispatch
  import opened Printing
  import UserCodec

  type UserData = UserCodec.UserData

  datatype UsersData = UsersData(users: seq<UserData>, total: Int64, unknown: seq<Field>)

  const EMPTY: UsersData := UsersData([], 0, [])

  // ---------------------------------------------------------------- the three operations

  /** `ParseMessage` on a freshly added element. */
  function ParseUser(s: Bytes): Option<UserData> {
    UserCodec.ParseInto(UserCodec.EMPTY, s)
  }

  function Apply(m: UsersData, f: Field): Option<UsersData> {
    match f
    case BytesField(1, s) =>
      (match ParseUser(s)
       case None => None
       case Some(u) => Some(m.(users := m.users + [u])))
    case VarintField(2, v) => Some(m.(total := ToInt64(v)))
    case _ => Some(m.(unknown := m.unknown + [f]))
  }

  function PrintUsers(us: seq<UserData>): (r: seq<Bytes>)
    ensures |r| == |us| && forall i :: 0 <= i < |us| ==> r[i] == UserCodec.Print(us[i])
  {
    seq(|us|, i requires 0 <= i < |us| => UserCodec.Print(us[i]))
  }

  function Parts(m: UsersData): seq<seq<Field>> {
    [BytesRecords(1, PrintUsers(m.users)), IntRecord(2, m.total), m.unknown]
  }

  function Records(m: UsersData): seq<Field> {
    Concat(Parts(m))
  }

  function Print(m: UsersData): Bytes {
    EncodeAll(Records(m))
  }

  function Merge(a: UsersData, b: UsersData): UsersData {
    UsersData(a.users + b.users, if b.total != 0 then b.total else a.total, a.unknown + b.unknown)
  }

  function ParseInto(m: UsersData, s: Bytes): Option<UsersData> {
    ParseWhole(Apply, m, s)
  }

  // ---------------------------------------------------------------- what a parse yields

  predicate IsKnown(f: Field) {
    (f.BytesField? && f.number == 1) || (f.VarintField? && f.number == 2)
  }

  predicate IsUnknown(f: Field) {
    !IsKnown(f)
  }

  /** Every nested message must itself be accepted. */
  predicate UsersValid(fs: seq<Field>) {
    forall f :: f in fs && f.BytesField? && f.number == 1 ==> ParseUser(f.data).Some?
  }

  function ParseUsers(ss: seq<Bytes>): seq<UserData> {
    if ss == [] then [] else [OrElse(ParseUser(ss[0]), UserCodec.EMPTY)] + ParseUsers(ss[1..])
  }

  function LastInt64(fs: seq<Field>, n: int, otherwise: Int64): Int64 {
    match LastVarint(fs, n) case None => otherwise case Some(v) => ToInt64(v)
  }

  /** The message records `fs` denote on top of `m`: nested messages in input order, the last
      total, and the records that match no field in input order. */
  function Overlay(m: UsersData, fs: seq<Field>): UsersData {
    UsersData(m.users + ParseUsers(EveryBytes(fs, 1)), LastInt64(fs, 2, m.total), m.unknown + Keep(IsUnknown, fs))
  }

  lemma OverlayStepUsers(m: UsersData, f: Field, fs: seq<Field>)
    requires Apply(m, f).Some?
    ensures Apply(m, f).value.users + ParseUsers(EveryBytes(fs, 1)) == m.users + ParseUsers(EveryBytes([f] + fs, 1))
  {
    hide ParseUser, EveryBytes;
    ProjectHead(f, fs, 1);
    if f.BytesField? && f.number == 1 {
      assert ([f.data] + EveryBytes(fs, 1))[1..] == EveryBytes(fs, 1);
    } else {
      assert [] + EveryBytes(fs, 1) == EveryBytes(fs, 1);
    }
  }

  lemma OverlayStep(m: UsersData, f: Field, fs: seq<Field>)
    requires Apply(m, f).Some?
    ensures Overlay(Apply(m, f).value, fs) == Overlay(m, [f] + fs)
  {
    hide Apply, ParseUsers, Keep, EveryBytes, LastInt64;
    OverlayStepUsers(m, f, fs);
    OverlayStepRest(m, f, fs);
  }

  lemma OverlayStepRest(m: UsersData, f: Field, fs: seq<Field>)
    requires Apply(m, f).Some?
    ensures LastInt64(fs, 2, Apply(m, f).value.total) == LastInt64([f] + fs, 2, m.total)
    ensures Apply(m, f).value.unknown + Keep(IsUnknown, fs) == m.unknown + Keep(IsUnknown, [f] + fs)
  {
    hide ParseUser, Keep, LastVarint;
    ProjectHead(f, fs, 2);
    KeepHead(IsUnknown, f, fs);
  }

  lemma {:induction false} FoldIsOverlay(m: UsersData, fs: seq<Field>)
    ensures Fold(Apply, m, fs) == if UsersValid(fs) then Some(Overlay(m, fs)) else None
    decreases fs
  {
    hide ParseUser;
    if fs == [] {
      assert m.users + ParseUsers([]) == m.users && m.unknown + Keep(IsUnknown, fs) == m.unknown;
    } else {
      var f := fs[0];
      assert fs == [f] + fs[1..];
      assert UsersValid(fs) <==> Apply(m, f).Some? && UsersValid(fs[1..]);
      if Apply(m, f).Some? {
        hide Overlay;
        FoldIsOverlay(Apply(m, f).value, fs[1..]);
        OverlayStep(m, f, fs[1..]);
      }
    }
  }

  // ---------------------------------------------------------------- what can be read back

  predicate UnknownReadable(m: UsersData) {
    AllWellFormed(m.unknown) && forall f :: f in m.unknown ==> IsUnknown(f)
  }

  predicate Readable(m: UsersData) {
    UnknownReadable(m) && forall u :: u in m.users ==> UserCodec.Readable(u)
  }

  /** Every nested message prints to a length that a prefix can announce. */
  predicate Fits(m: UsersData) {
    forall u :: u in m.users ==> |UserCodec.Print(u)| <= MAX_LENGTH
  }

  lemma ApplyReadable(m: UsersData, f: Field)
    requires Readable(m) && WellFormed(f) && Apply(m, f).Some?
    ensures Readable(Apply(m, f).value)
  {
    if f.BytesField? && f.number == 1 {
      UserCodec.ParsedIsReadable(UserCodec.EMPTY, f.data);
    }
    hide ParseUser, UserCodec.Readable, WellFormed;
  }

  lemma ParsedIsReadable(m: UsersData, s: Bytes)
    requires Readable(m)
    ensures ParseInto(m, s).Some? ==> Readable(ParseInto(m, s).value)
  {
    forall a, f | Readable(a) && WellFormed(f) && Apply(a, f).Some?
      ensures Readable(Apply(a, f).value)
    {
      ApplyReadable(a, f);
    }
    hide Readable, Apply, ParseWhole;
    ParseKeeps(Apply, Readable, m, s);
  }

  // ---------------------------------------------------------------- printing, then parsing

  lemma {:induction false} ParsePrintedUsers(us: seq<UserData>)
    requires forall u :: u in us ==> UserCodec.Readable(u)
    ensures ParseUsers(PrintUsers(us)) == us
  {
    if us != [] {
      ParsePrinted(us[0]);
      ParseUsersHead(us);
      hide UserCodec.Readable, ParseUsers, PrintUsers;
      ParsePrintedUsers(us[1..]);
    }
  }

  lemma ParseUsersHead(us: seq<UserData>)
    requires us != [] && ParseUser(UserCodec.Print(us[0])) == Some(us[0])
    ensures ParseUsers(PrintUsers(us[1..])) == us[1..] ==> ParseUsers(PrintUsers(us)) == us
  {
    hide UserCodec.Print, ParseUser, PrintUsers;
    PrintUsersHead(us);
  }

  lemma ParsePrinted(u: UserData)
    requires UserCodec.Readable(u)
    ensures ParseUser(UserCodec.Print(u)) == Some(u)
  {
    hide UserCodec.Readable, UserCodec.Print;
    UserCodec.RoundTrip(u);
  }

  lemma PrintUsersHead(us: seq<UserData>)
    requires us != []
    ensures PrintUsers(us)[0] == UserCodec.Print(us[0]) && PrintUsers(us)[1..] == PrintUsers(us[1..])
  {
    hide UserCodec.Print;
  }

  lemma PrintedUser(m: UsersData, f: Field)
    requires Readable(m) && Fits(m) && f in BytesRecords(1, PrintUsers(m.users))
    ensures f.BytesField? && WellFormed(f) && ParseUser(f.data).Some?
  {
    InBytesRecords(1, PrintUsers(m.users), f);
    hide BytesRecords, UserCodec.Print, UserCodec.Readable, ParseUser;
    var i :| 0 <= i < |m.users| && f.data == UserCodec.Print(m.users[i]);
    ParsePrinted(m.users[i]);
  }

  lemma RecordsReadable(m: UsersData)
    requires Readable(m) && Fits(m)
    ensures AllWellFormed(Records(m)) && UsersValid(Records(m))
  {
    forall f | f in Records(m)
      ensures WellFormed(f) && (f.BytesField? && f.number == 1 ==> ParseUser(f.data).Some?)
    {
      InConcat(Parts(m), f);
      if f in BytesRecords(1, PrintUsers(m.users)) {
        PrintedUser(m, f);
      }
    }
  }

  lemma PrintedUsers(m: UsersData)
    requires UnknownReadable(m)
    ensures EveryBytes(Records(m), 1) == PrintUsers(m.users)
  {
    hide EveryBytes, PrintUsers;
    HasNone(IntRecord(2, m.total), 1);
    HasNone(m.unknown, 1);
    OnlyEvery(Parts(m), 1, 0);
    EveryBytesRecords(1, PrintUsers(m.users));
  }

  lemma PrintedTotal(m: UsersData)
    requires UnknownReadable(m)
    ensures LastVarint(Records(m), 2) == if m.total == 0 then None else Some(SignExtend(m.total))
  {
    var users := BytesRecords(1, PrintUsers(m.users));
    assert LastVarint(IntRecord(2, m.total), 2) == if m.total == 0 then None else Some(SignExtend(m.total));
    forall f
      ensures f in users ==> f.BytesField?
    {
      InBytesRecords(1, PrintUsers(m.users), f);
    }
    hide LastVarint, PrintUsers, BytesRecords, IntRecord;
    HasNone(users, 2);
    HasNone(m.unknown, 2);
    OnlyVarint(Parts(m), 2, 1);
  }

  lemma PrintedUnknown(m: UsersData)
    requires UnknownReadable(m)
    ensures Keep(IsUnknown, Records(m)) == m.unknown
  {
    var users := BytesRecords(1, PrintUsers(m.users));
    forall f
      ensures f in users ==> IsKnown(f)
    {
      InBytesRecords(1, PrintUsers(m.users), f);
    }
    hide Keep, PrintUsers, BytesRecords;
    KeepAll(IsUnknown, users);
    KeepAll(IsUnknown, IntRecord(2, m.total));
    KeepAll(IsUnknown, m.unknown);
    OnlyKept(IsUnknown, Parts(m), 2);
  }

  /** Printed records denote the message they were printed from. */
  lemma OverlayRecords(a: UsersData, b: UsersData)
    requires Readable(b)
    ensures Overlay(a, Records(b)) == Merge(a, b)
  {
    hide Records, EveryBytes, LastVarint, Keep, ParseUsers, PrintUsers, UserCodec.Readable;
    PrintedUsers(b);
    PrintedTotal(b);
    PrintedUnknown(b);
    SignExtendUndone(b.total);
    ParsePrintedUsers(b.users);
  }

  lemma ParsePrintIsMerge(a: UsersData, b: UsersData)
    requires Readable(b) && Fits(b)
    ensures ParseInto(a, Print(b)) == Some(Merge(a, b))
  {
    RecordsReadable(b);
    ParseEncoded(Apply, a, Records(b));
    hide Records, Overlay, Merge, Readable, Fits, UsersValid;
    FoldIsOverlay(a, Records(b));
    OverlayRecords(a, b);
  }

  lemma MergeUnit(m: UsersData)
    ensures Merge(EMPTY, m) == m && Merge(m, EMPTY) == m
  {
    assert [] + m.users == m.users && m.users + [] == m.users;
    assert [] + m.unknown == m.unknown && m.unknown + [] == m.unknown;
  }

  lemma MergeAssociative(a: UsersData, b: UsersData, c: UsersData)
    ensures Merge(Merge(a, b), c) == Merge(a, Merge(b, c))
  {
    assert (a.users + b.users) + c.users == a.users + (b.users + c.users);
    assert (a.unknown + b.unknown) + c.unknown == a.unknown + (b.unknown + c.unknown);
  }

  // ---------------------------------------------------------------- too long for a prefix

  lemma {:induction false} UsersOnlyGrow(m: UsersData, fs: seq<Field>)
    ensures Fold(Apply, m, fs).Some? ==> m.users <= Fold(Apply, m, fs).value.users
    decreases fs
  {
    if fs != [] && Apply(m, fs[0]).Some? {
      hide ParseUser;
      UsersOnlyGrow(Apply(m, fs[0]).value, fs[1..]);
    }
  }

  /** A length over `MAX_LENGTH` is printed modulo 2^32, so a reader refuses it or takes too little. */
  lemma OversizedRecord(p: Bytes, rest: Bytes)
    requires |p| > MAX_LENGTH
    ensures var n := |p| % TWO_32;
            var step := ReadField(Encode(BytesField(1, p)) + rest);
            step.Malformed? || (n < |p| && step.Got? && step.field == BytesField(1, p[..n]))
  {
    var n := |p| % TWO_32;
    var tag := MakeTag(1, LENGTH_DELIMITED);
    var payload := Varint(n) + (p + rest);
    OversizedPayload(p, rest);
    hide Varint, ReadPayload, ReadDelimited, ReadTag;
    ReadTagVarint(tag, payload);
    PayloadForms(tag, payload);
    assert Encode(BytesField(1, p)) + rest == Varint(tag) + payload;
    assert (Varint(tag) + payload)[|Varint(tag)|..] == payload;
  }

  lemma OversizedPayload(p: Bytes, rest: Bytes)
    requires |p| > MAX_LENGTH
    ensures var n := |p| % TWO_32;
            var read := ReadDelimited(Varint(n) + (p + rest));
            read.Bad? || (n < |p| && read.value == p[..n])
  {
    var n := |p| % TWO_32;
    var payload := Varint(n) + (p + rest);
    Powers();
    ReadBase128Varint(n, p + rest, 5);
    hide Varint, ReadBase128;
    if n <= MAX_LENGTH {
      assert payload[|Varint(n)|..|Varint(n)| + n] == p[..n];
    }
  }

  lemma {:induction false} FitsNeeded(acc: UsersData, us: seq<UserData>, tail: Bytes, m: UsersData)
    requires forall u :: u in us ==> UserCodec.Readable(u)
    requires ParseInto(acc, EncodeAll(BytesRecords(1, PrintUsers(us))) + tail) == Some(m)
    requires acc.users + us <= m.users
    ensures forall u :: u in us ==> |UserCodec.Print(u)| <= MAX_LENGTH
    decreases |us|
  {
    if us != [] {
      hide UserCodec.Readable, UserCodec.Print, EncodeAll, BytesRecords, PrintUsers, ParseInto, Encode;
      PrintedUsersHead(us, tail);
      NextElement(acc.users, us, m.users);
      var rest := EncodeAll(BytesRecords(1, PrintUsers(us[1..]))) + tail;
      if |UserCodec.Print(us[0])| <= MAX_LENGTH {
        FittingHead(acc, us[0], rest);
        FitsNeeded(acc.(users := acc.users + [us[0]]), us[1..], tail, m);
      } else {
        OversizedHead(acc, us[0], rest, m);
      }
    }
  }

  lemma NextElement<T>(acc: seq<T>, xs: seq<T>, all: seq<T>)
    requires xs != [] && acc + xs <= all
    ensures |acc| < |all| && all[|acc|] == xs[0] && (acc + [xs[0]]) + xs[1..] <= all
  {
    assert (acc + xs)[|acc|] == xs[0];
    assert (acc + [xs[0]]) + xs[1..] == acc + xs;
  }

  lemma PrintedUsersHead(us: seq<UserData>, tail: Bytes)
    requires us != []
    ensures EncodeAll(BytesRecords(1, PrintUsers(us))) + tail
            == Encode(BytesField(1, UserCodec.Print(us[0]))) + (EncodeAll(BytesRecords(1, PrintUsers(us[1..]))) + tail)
  {
    hide Encode, UserCodec.Print;
    PrintUsersHead(us);
    assert BytesRecords(1, PrintUsers(us))[1..] == BytesRecords(1, PrintUsers(us[1..]));
  }

  lemma FittingHead(acc: UsersData, u: UserData, rest: Bytes)
    requires UserCodec.Readable(u) && |UserCodec.Print(u)| <= MAX_LENGTH
    ensures ParseInto(acc, Encode(BytesField(1, UserCodec.Print(u))) + rest)
            == ParseInto(acc.(users := acc.users + [u]), rest)
  {
    var f := BytesField(1, UserCodec.Print(u));
    UserCodec.RoundTrip(u);
    hide UserCodec.Readable, Encode, ReadField, UserCodec.Print;
    ReadEncoded(f, rest);
    ParseStep(Apply, acc, Encode(f) + rest);
    assert (Encode(f) + rest)[|Encode(f)|..] == rest;
  }

  lemma OversizedHead(acc: UsersData, u: UserData, rest: Bytes, m: UsersData)
    requires UserCodec.Readable(u) && |UserCodec.Print(u)| > MAX_LENGTH
    requires |acc.users| < |m.users| && m.users[|acc.users|] == u
    ensures ParseInto(acc, Encode(BytesField(1, UserCodec.Print(u))) + rest) != Some(m)
  {
    var p := UserCodec.Print(u);
    var n := |p| % TWO_32;
    var s := Encode(BytesField(1, p)) + rest;
    OversizedRecord(p, rest);
    ParseStep(Apply, acc, s);
    if ReadField(s).Got? {
      UserCodec.PrefixIsNotEnough(u, n);
      hide UserCodec.Readable, UserCodec.Print, Encode, ReadField;
      var step := Apply(acc, BytesField(1, p[..n]));
      if step.Some? {
        UsersOnlyGrow(step.value, ScanFields(s[ReadField(s).taken..]).fields);
      }
    }
  }

  // ---------------------------------------------------------------- the laws

  /** A printed response is read back exactly when each of its users can be read back, prints to
      a length a prefix may announce, and its unknown fields are well formed and really unknown. */
  lemma RoundTrip(m: UsersData)
    ensures ParseInto(EMPTY, Print(m)) == Some(m) <==> Readable(m) && Fits(m)
  {
    if Readable(m) && Fits(m) {
      ParsePrintIsMerge(EMPTY, m);
      MergeUnit(m);
    }
    if ParseInto(EMPTY, Print(m)) == Some(m) {
      ParsedIsReadable(EMPTY, Print(m));
      PrintSplits(m);
      hide ParseInto, Print, UserCodec.Readable, EncodeAll, UserCodec.Print;
      FitsNeeded(EMPTY, m.users, EncodeAll(IntRecord(2, m.total) + m.unknown), m);
    }
  }

  lemma PrintSplits(m: UsersData)
    ensures Print(m) == EncodeAll(BytesRecords(1, PrintUsers(m.users))) + EncodeAll(IntRecord(2, m.total) + m.unknown)
  {
    var users, rest := BytesRecords(1, PrintUsers(m.users)), IntRecord(2, m.total) + m.unknown;
    hide EncodeAll, BytesRecords, PrintUsers, IntRecord;
    ConcatThree(users, IntRecord(2, m.total), m.unknown);
    EncodeAllAppend(users, rest);
  }

  /** Whatever the parser accepts prints to a form that parses back to the same message, unless
      a nested message has grown past the largest length: a reader truncates an `int32` to
      32 bits, while a printer writes a negative one sign-extended. */
  lemma Canonical(s: Bytes)
    requires ParseInto(EMPTY, s).Some?
    ensures var m := ParseInto(EMPTY, s).value;
            ParseInto(EMPTY, Print(m)) == Some(m) <==> Fits(m)
  {
    hide ParseInto, Print, UserCodec.Readable, UserCodec.Print;
    ParsedIsReadable(EMPTY, s);
    RoundTrip(ParseInto(EMPTY, s).value);
  }

  /** Records `fs` put a total that `a` holds away from 0 back to 0. */
  predicate Resets(a: UsersData, fs: seq<Field>) {
    a.total != 0 && LastInt64(fs, 2, a.total) == 0
  }

  lemma OverlayIsMerge(a: UsersData, fs: seq<Field>)
    ensures Overlay(a, fs) == Merge(a, Overlay(EMPTY, fs)) <==> !Resets(a, fs)
  {
    hide LastVarint, Keep, ParseUsers, EveryBytes;
    assert [] + Keep(IsUnknown, fs) == Keep(IsUnknown, fs);
    assert [] + ParseUsers(EveryBytes(fs, 1)) == ParseUsers(EveryBytes(fs, 1));
  }

  /** Behind an accepted input, any input is accepted just as it is alone. Parsing the two back to
      back merges the second message into the first, except exactly when the second input writes
      a default over a total the first had set. */
  lemma ConcatenationIsMerge(s: Bytes, t: Bytes)
    requires ParseInto(EMPTY, s).Some?
    ensures ParseInto(EMPTY, s + t).Some? <==> ParseInto(EMPTY, t).Some?
    ensures ParseInto(EMPTY, t).Some? ==>
              var a, b := ParseInto(EMPTY, s).value, ParseInto(EMPTY, t).value;
              ParseInto(EMPTY, s + t) == Some(Merge(a, b)) <==> !Resets(a, ScanFields(t).fields)
  {
    hide Resets, Overlay, Merge, UsersValid, Apply, ScanFields;
    var a := ParseInto(EMPTY, s).value;
    var fs := ScanFields(t).fields;
    ParseAppend(Apply, EMPTY, s, t);
    FoldIsOverlay(EMPTY, fs);
    FoldIsOverlay(a, fs);
    OverlayIsMerge(a, fs);
  }

  /** Printed messages never reset anything: their bytes in a row are always the merge. */
  lemma PrintedConcatenation(a: UsersData, b: UsersData)
    requires Readable(a) && Fits(a) && Readable(b) && Fits(b)
    ensures ParseInto(EMPTY, Print(a) + Print(b)) == Some(Merge(a, b))
  {
    RoundTrip(a);
    ParsePrintIsMerge(a, b);
    hide Readable, Print, Merge;
    ParseAppend(Apply, EMPTY, Print(a), Print(b));
  }

  /** The message without its unknown fields. */
  function Known(m: UsersData): UsersData {
    m.(unknown := [])
  }

  /** Swapping two neighbouring records of different fields changes neither acceptance, nor the
      total, nor the users and their order, and the unknown fields only in their order. */
  lemma SwapRecords(before: Bytes, e: Bytes, d: Bytes, after: Bytes, f: Field, g: Field)
    requires ScanFields(before).end == AtLimit
    requires ReadField(e) == Got(f, |e|) && ReadField(d) == Got(g, |d|) && f.number != g.number
    ensures var p, q := ParseInto(EMPTY, before + (e + d + after)), ParseInto(EMPTY, before + (d + e + after));
            && (p.Some? <==> q.Some?)
            && (p.Some? ==> Known(p.value) == Known(q.value))
            && (p.Some? ==> multiset(p.value.unknown) == multiset(q.value.unknown))
  {
    ParsePair(Apply, EMPTY, before, e, d, after, f, g);
    ParsePair(Apply, EMPTY, before, d, e, after, g, f);
    var m, gs := ParseInto(EMPTY, before), ScanFields(after).fields;
    if m.Some? {
      FoldIsOverlay(m.value, [f, g] + gs);
      FoldIsOverlay(m.value, [g, f] + gs);
      hide ScanFields, ReadField, ParseWhole, ParseUser, LastVarint, EveryBytes, Keep, ParseUsers;
      ProjectSwap(f, g, gs, 1);
      ProjectSwap(f, g, gs, 2);
      KeepSwap(IsUnknown, f, g, gs);
      assert UsersValid([f, g] + gs) <==> UsersValid([g, f] + gs);
    }
  }

  // ---------------------------------------------------------------- printing with cached sizes

  /** The users printed behind length prefixes taken from `sizes`, whatever those say. */
  function UsersWith(us: seq<UserData>, sizes: seq<Int32>): Bytes
    requires |us| == |sizes|
  {
    if us == [] then []
    else
      var last := |us| - 1;
      UsersWith(us[..last], sizes[..last])
      + EncodeTag(1, LENGTH_DELIMITED) + Varint(sizes[last] % TWO_32) + UserCodec.Print(us[last])
  }

  lemma UsersWithNext(us: seq<UserData>, sizes: seq<Int32>, i: nat)
    requires i < |us| == |sizes|
    ensures UsersWith(us[..i + 1], sizes[..i + 1])
            == UsersWith(us[..i], sizes[..i])
               + EncodeTag(1, LENGTH_DELIMITED) + Varint(sizes[i] % TWO_32) + UserCodec.Print(us[i])
  {
    hide EncodeTag, Varint, UserCodec.Print;
    assert us[..i + 1][..i] == us[..i] && sizes[..i + 1][..i] == sizes[..i];
  }

  lemma NoUsersWith()
    ensures UsersWith([], []) == []
  {
  }

  function PrintWith(m: UsersData, sizes: seq<Int32>): Bytes
    requires |m.users| == |sizes|
  {
    UsersWith(m.users, sizes) + EncodeAll(IntRecord(2, m.total)) + EncodeAll(m.unknown)
  }

  /** The sizes `ByteSizeLong` leaves in the users: their true lengths, as 32-bit integers. */
  predicate SizesExact(us: seq<UserData>, sizes: seq<Int32>)
    requires |us| == |sizes|
  {
    forall i :: 0 <= i < |us| ==> sizes[i] == ToInt32(|UserCodec.Print(us[i])|)
  }

  lemma {:induction false} UsersWithExact(us: seq<UserData>, sizes: seq<Int32>)
    requires |us| == |sizes| && SizesExact(us, sizes)
    ensures UsersWith(us, sizes) == EncodeAll(BytesRecords(1, PrintUsers(us)))
    decreases |us|
  {
    hide EncodeAll, UserCodec.Print, BytesRecords;
    if us == [] {
      NoUsersPrinted();
    } else {
      var last := |us| - 1;
      var p := UserCodec.Print(us[last]);
      assert PrintUsers(us) == PrintUsers(us[..last]) + [p];
      UsersWithExact(us[..last], sizes[..last]);
      EncodeBytesRecords(1, PrintUsers(us[..last]), p);
      EncodeOne(BytesField(1, p));
      ExactPrefix(UsersWith(us[..last], sizes[..last]), p, sizes[last]);
      hide UsersWith, Encode, EncodeTag, Varint, PrintUsers;
      UsersWithNext(us, sizes, last);
      assert us[..last + 1] == us && sizes[..last + 1] == sizes;
    }
  }

  lemma NoUsersPrinted()
    ensures EncodeAll(BytesRecords(1, PrintUsers([]))) == []
  {
  }

  lemma ExactPrefix(before: Bytes, p: Bytes, size: Int32)
    requires size == ToInt32(|p|)
    ensures before + EncodeTag(1, LENGTH_DELIMITED) + Varint(size % TWO_32) + p == before + Encode(BytesField(1, p))
  {
    assert size % TWO_32 == |p| % TWO_32;
    hide Varint, EncodeTag, ToInt32;
    AppendAssociates(before + EncodeTag(1, LENGTH_DELIMITED), Varint(|p| % TWO_32), p);
    AppendAssociates(before, EncodeTag(1, LENGTH_DELIMITED), Delimited(p));
  }

  /** A user behind the size it has cached. */
  function UserWith(u: UserData, size: Int32): Bytes {
    EncodeTag(1, LENGTH_DELIMITED) + Varint(size % TWO_32) + UserCodec.Print(u)
  }

  lemma UsersWithLast(us: seq<UserData>, sizes: seq<Int32>)
    requires us != [] && |us| == |sizes|
    ensures var last := |us| - 1;
            UsersWith(us, sizes) == UsersWith(us[..last], sizes[..last]) + UserWith(us[last], sizes[last])
  {
    hide EncodeTag, Varint, UserCodec.Print;
    var last := |us| - 1;
    var before, tag := UsersWith(us[..last], sizes[..last]), EncodeTag(1, LENGTH_DELIMITED);
    var size, p := Varint(sizes[last] % TWO_32), UserCodec.Print(us[last]);
    assert UsersWith(us, sizes) == before + tag + size + p;
    hide UsersWith;
    AppendAssociates(before, tag, size);
    AppendAssociates(before, tag + size, p);
  }

  lemma {:induction false} UsersWithHead(us: seq<UserData>, sizes: seq<Int32>)
    requires us != [] && |us| == |sizes|
    ensures UsersWith(us, sizes) == UserWith(us[0], sizes[0]) + UsersWith(us[1..], sizes[1..])
    decreases |us|
  {
    var last := |us| - 1;
    UsersWithLast(us, sizes);
    if last == 0 {
      NoUsersWith();
    } else {
      var inner, innerSizes := us[1..], sizes[1..];
      assert us[..last][1..] == inner[..last - 1] && sizes[..last][1..] == innerSizes[..last - 1];
      UsersWithLast(inner, innerSizes);
      UsersWithHead(us[..last], sizes[..last]);
      hide UsersWith, UserWith;
      AppendAssociates(UserWith(us[0], sizes[0]), UsersWith(inner[..last - 1], innerSizes[..last - 1]), UserWith(us[last], sizes[last]));
    }
  }

  /** Two varints in front of more bytes are the same numbers if the bytes are the same. */
  lemma SameVarint(a: UInt32, b: UInt32, s: Bytes, t: Bytes)
    requires Varint(a) + s == Varint(b) + t
    ensures a == b && s == t
  {
    ReadTagVarint(a, s);
    ReadTagVarint(b, t);
    hide ReadTag, Varint;
    SameRest(Varint(a), s, t);
  }

  lemma SameRest(head: Bytes, s: Bytes, t: Bytes)
    requires head + s == head + t
    ensures s == t
  {
    assert (head + s)[|head|..] == s && (head + t)[|head|..] == t;
  }

  lemma SameUserWith(u: UserData, a: Int32, b: Int32, s: Bytes, t: Bytes)
    requires UserWith(u, a) + s == UserWith(u, b) + t
    ensures a == b && s == t
  {
    hide Varint, EncodeTag, UserCodec.Print;
    var tag, p := EncodeTag(1, LENGTH_DELIMITED), UserCodec.Print(u);
    assert UserWith(u, a) + s == tag + (Varint(a % TWO_32) + (p + s));
    assert UserWith(u, b) + t == tag + (Varint(b % TWO_32) + (p + t));
    SameRest(tag, Varint(a % TWO_32) + (p + s), Varint(b % TWO_32) + (p + t));
    SameVarint(a % TWO_32, b % TWO_32, p + s, p + t);
    SameRest(p, s, t);
  }

  /** No two ways of sizing the users print the same bytes. */
  lemma {:induction false} SameSizes(us: seq<UserData>, a: seq<Int32>, b: seq<Int32>, s: Bytes)
    requires |us| == |a| == |b| && UsersWith(us, a) + s == UsersWith(us, b) + s
    ensures a == b
    decreases |us|
  {
    if us != [] {
      UsersWithHead(us, a);
      UsersWithHead(us, b);
      hide UsersWith, UserWith;
      AppendAssociates(UserWith(us[0], a[0]), UsersWith(us[1..], a[1..]), s);
      AppendAssociates(UserWith(us[0], b[0]), UsersWith(us[1..], b[1..]), s);
      SameUserWith(us[0], a[0], b[0], UsersWith(us[1..], a[1..]) + s, UsersWith(us[1..], b[1..]) + s);
      SameSizes(us[1..], a[1..], b[1..], s);
      assert a == [a[0]] + a[1..] && b == [b[0]] + b[1..];
    }
  }

  lemma ExactPrints(m: UsersData, sizes: seq<Int32>)
    requires |m.users| == |sizes| && SizesExact(m.users, sizes)
    ensures PrintWith(m, sizes) == Print(m)
  {
    UsersWithExact(m.users, sizes);
    hide EncodeAll, IntRecord, BytesRecords, UsersWith, Print, PrintUsers, SizesExact;
    PrintSplits(m);
    EncodeAllAppend(IntRecord(2, m.total), m.unknown);
    AppendAssociates(UsersWith(m.users, sizes), EncodeAll(IntRecord(2, m.total)), EncodeAll(m.unknown));
  }

  function ExactSizes(us: seq<UserData>): (sizes: seq<Int32>)
    ensures |sizes| == |us| && SizesExact(us, sizes)
  {
    seq(|us|, i requires 0 <= i < |us| => ToInt32(|UserCodec.Print(us[i])|))
  }

  /** The output is the printed message exactly when every cached size is right: a single stale
      one changes the bytes. */
  lemma PrintWithExact(m: UsersData, sizes: seq<Int32>)
    requires |m.users| == |sizes|
    ensures PrintWith(m, sizes) == Print(m) <==> SizesExact(m.users, sizes)
  {
    var exact := ExactSizes(m.users);
    ExactPrints(m, exact);
    if SizesExact(m.users, sizes) {
      ExactPrints(m, sizes);
    }
    hide EncodeAll, IntRecord, UsersWith, Print, SizesExact;
    if PrintWith(m, sizes) == Print(m) {
      var rest := EncodeAll(IntRecord(2, m.total)) + EncodeAll(m.unknown);
      AppendAssociates(UsersWith(m.users, sizes), EncodeAll(IntRecord(2, m.total)), EncodeAll(m.unknown));
      AppendAssociates(UsersWith(m.users, exact), EncodeAll(IntRecord(2, m.total)), EncodeAll(m.unknown));
      SameSizes(m.users, sizes, exact, rest);
    }
  }

  /** Users, total and unknown fields printed one after the other. */
  lemma PrintWithParts(target: Bytes, m: UsersData, sizes: seq<Int32>)
    requires |m.users| == |sizes|
    ensures target + UsersWith(m.users, sizes) + EncodeAll(IntRecord(2, m.total)) + EncodeAll(m.unknown)
            == target + PrintWith(m, sizes)
  {
    hide UsersWith, EncodeAll, IntRecord;
  }

  lemma PrintedBehind(target: Bytes, m: UsersData, sizes: seq<Int32>)
    requires |m.users| == |sizes|
    ensures target + PrintWith(m, sizes) == target + Print(m) <==> SizesExact(m.users, sizes)
  {
    hide PrintWith, Print, SizesExact;
    PrintWithExact(m, sizes);
    if target + PrintWith(m, sizes) == target + Print(m) {
      SameRest(target, PrintWith(m, sizes), Print(m));
    }
  }

  // ---------------------------------------------------------------- size

  /** The loop over the users: `MessageSize` of each, without the tags. */
  function MessageSizes(us: seq<UserData>): nat {
    if us == [] then 0
    else MessageSizes(us[..|us| - 1]) + DelimitedSize(|UserCodec.Print(us[|us| - 1])|)
  }

  lemma MessageSizesNext(us: seq<UserData>, i: nat)
    requires i < |us|
    ensures MessageSizes(us[..i + 1]) == MessageSizes(us[..i]) + DelimitedSize(|UserCodec.Print(us[i])|)
  {
    hide DelimitedSize, UserCodec.Print;
    assert us[..i + 1][..i] == us[..i];
  }

  lemma NoMessages()
    ensures MessageSizes([]) == 0
  {
  }

  lemma {:induction false} UsersSize(us: seq<UserData>)
    ensures |EncodeAll(BytesRecords(1, PrintUsers(us)))| == |us| + MessageSizes(us)
    decreases |us|
  {
    hide EncodeAll, UserCodec.Print, BytesRecords, DelimitedSize;
    if us == [] {
      NoUsersPrinted();
    } else {
      var last := |us| - 1;
      var p := UserCodec.Print(us[last]);
      assert PrintUsers(us) == PrintUsers(us[..last]) + [p];
      UsersSize(us[..last]);
      EncodeBytesRecords(1, PrintUsers(us[..last]), p);
      TextSizeExact(1, p);
    }
  }

  /** The sum `ByteSizeLong` computes, in its order, is the length of the printed message. */
  lemma PrintedLength(m: UsersData)
    ensures |Print(m)| == |m.users| + MessageSizes(m.users) + SizeIf(m.total != 0, IntSize(m.total) + 1)
                          + SizeIf(m.unknown != [], FieldsSize(m.unknown))
  {
    hide EncodeAll, MessageSizes, PrintUsers, IntSize, FieldsSize;
    PrintSplits(m);
    EncodeAllAppend(IntRecord(2, m.total), m.unknown);
    UsersSize(m.users);
    IntSizeExact(2, m.total);
    FieldsSizeExact(m.unknown);
    EncodeNothing();
  }

  /** One turn of the batch of users, seen as one record behind a one-byte tag. */
  lemma UserStep(m: UsersData, s: Bytes)
    ensures ReadDelimited(s).Bad? ==> Parse(Apply, m, [10] + s) == Failed
    ensures ReadDelimited(s).Read? ==>
              var u := ParseUser(ReadDelimited(s).value);
              Parse(Apply, m, [10] + s) ==
              if u.None? then Failed
              else Parse(Apply, m.(users := m.users + [u.value]), s[ReadDelimited(s).taken..])
  {
    var t := [10] + s;
    OneByteTag(10, s);
    PayloadForms(10, s);
    hide ReadTag, ReadPayload, ReadDelimited, ParseUser, ScanFields;
    ParseStep(Apply, m, t);
    if ReadDelimited(s).Read? {
      assert t[1 + ReadDelimited(s).taken..] == s[ReadDelimited(s).taken..];
    }
  }
}
