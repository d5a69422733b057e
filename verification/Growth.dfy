/**
 How much longer a printed message can be than the input it was parsed from: a user by at most
 ten bytes, for its two `int32` fields. So only a response within three bytes of the largest length
 can hold a user that no longer fits behind a length prefix.
 */
module Growth {
  import opened Wire
  import opened Utf8
  import opened Fields
  import opened Dispatch
  import opened Printing
  import opened UserCodec
  import UsersCodec

  // ---------------------------------------------------------------- records

  lemma TagShortest(s: Bytes)
    requires ReadTag(s).Read?
    ensures |Varint(ReadTag(s).value)| <= ReadTag(s).taken
  {
    VarintShortest(s, 5);
    VarintMonotone(ReadTag(s).value, ReadBase128(s, 5).value);
  }

  lemma Varint64Shortest(s: Bytes)
    requires ReadVarint64(s).Read?
    ensures |Varint(ReadVarint64(s).value)| <= ReadVarint64(s).taken
  {
    VarintShortest(s, 10);
    VarintMonotone(ReadVarint64(s).value, ReadBase128(s, 10).value);
  }

  lemma DelimitedShortest(s: Bytes)
    requires ReadDelimited(s).Read?
    ensures |Delimited(ReadDelimited(s).value)| <= ReadDelimited(s).taken
  {
    VarintShortest(s, 5);
  }

  /** No payload is shorter than the printed one. */
  lemma {:induction false} PayloadShortest(tag: UInt32, s: Bytes)
    requires ReadPayload(tag, s).Got?
    ensures |EncodePayload(ReadPayload(tag, s).field)| <= ReadPayload(tag, s).taken
    ensures MakeTag(ReadPayload(tag, s).field.number, WireType(ReadPayload(tag, s).field)) == tag
    decreases |s|, 2
  {
    hide Varint, Fixed, Delimited, ReadVarint64, ReadDelimited, ScanFields;
    match tag % 8
    case 0 => Varint64Shortest(s);
    case 2 => DelimitedShortest(s);
    case 3 => ScanShortest(s);
    case _ =>
  }

  lemma {:induction false} FieldShortest(s: Bytes)
    requires ReadField(s).Got?
    ensures |Encode(ReadField(s).field)| <= ReadField(s).taken
    decreases |s|, 0
  {
    hide Varint, ReadTag, ReadPayload, EncodePayload;
    TagShortest(s);
    PayloadShortest(ReadTag(s).value, s[ReadTag(s).taken..]);
  }

  lemma StopShortest(s: Bytes)
    requires ReadField(s).Stop?
    ensures |Varint(ReadField(s).tag)| + ReadField(s).left <= |s|
  {
    TagShortest(s);
    hide Varint, ReadPayload;
  }

  /** What was scanned prints to no more than was taken, the stopping tag included. */
  lemma {:induction false} ScanShortest(s: Bytes)
    ensures ScanFields(s).end.AtLimit? ==> |EncodeAll(ScanFields(s).fields)| <= |s|
    ensures ScanFields(s).end.AtTag? ==>
              |EncodeAll(ScanFields(s).fields)| + |Varint(ScanFields(s).end.tag)| + ScanFields(s).end.left <= |s|
    decreases |s|, 1
  {
    EncodeNothing();
    if s != [] {
      hide Encode, Varint, ReadField;
      match ReadField(s)
      case Malformed =>
      case Stop(_, _) => StopShortest(s);
      case Got(f, n) =>
        var rest := ScanFields(s[n..]).fields;
        FieldShortest(s);
        ScanShortest(s[n..]);
        assert ([f] + rest)[1..] == rest;
    }
  }

  // ---------------------------------------------------------------- users

  /** What a negative `int32` may cost in addition when it is printed. */
  function Slack(v: Int32): nat {
    if v < 0 then 5 else 0
  }

  function PartSlack(u: UserData, j: nat): nat {
    if j == 0 then Slack(u.id) else if j == 4 then Slack(u.roleId) else 0
  }

  /** The size of a part without its slack. */
  function Charge(u: UserData, j: nat): int {
    PartSize(u, j) - PartSlack(u, j)
  }

  lemma IntCharge(n: FieldNumber, v: UInt64)
    requires n < 16
    ensures |EncodeAll(IntRecord(n, ToInt32(v)))| - Slack(ToInt32(v)) <= |Encode(VarintField(n, v))|
  {
    var x := ToInt32(v);
    IntSizeExact(n, x);
    VarintSizeExact(v);
    VarintSizeExact(SignExtend(x));
    if x > 0 {
      assert x == v % TWO_32 <= v;
      VarintMonotone(x, v);
    } else if x < 0 {
      assert v >= TWO_31;
      assert VarintSize(v) >= 5;
    }
  }

  lemma OneRecordCharge(f: Field, fs: seq<Field>)
    requires fs == [] || fs == [f]
    ensures |EncodeAll(fs)| <= |Encode(f)|
  {
    EncodeOne(f);
    EncodeNothing();
  }

  lemma BoolCharge(f: Field, v: bool)
    requires f.VarintField? && f.number == 7
    ensures |EncodeAll(BoolRecord(7, v))| <= |Encode(f)|
  {
    BoolSizeExact(7, v);
    assert |EncodeTag(7, VARINT)| == 1;
  }

  /** One more record adds to one part only, and no more than the record is long. */
  lemma ApplyCharge(u: UserData, f: Field, j: nat)
    requires Apply(u, f).Some? && j < 10
    ensures Charge(Apply(u, f).value, j) <= Charge(u, j) + if j == PartFor(f) then |Encode(f)| else 0
  {
    var u' := Apply(u, f).value;
    if j != PartFor(f) {
      OtherPartKept(u, f, j);
    } else if j == 9 {
      ApplyUnknown(u, f);
      hide Apply, Encode;
      EncodeAllAppend(u.unknown, [f]);
      EncodeOne(f);
    } else if IsTextNumber(j + 1) {
      assert Text(u', j + 1) == f.data by { hide ValidUtf8; }
      hide Apply, Encode, Text;
      OneRecordCharge(f, TextRecord(j + 1, f.data));
    } else if j == 6 {
      hide Encode;
      BoolCharge(f, u'.active);
    } else {
      hide Encode, EncodeAll;
      IntCharge(f.number, f.value);
      NoNegativeSize(u, j);
    }
  }

  lemma NoNegativeSize(u: UserData, j: nat)
    requires j == 0 || j == 4
    ensures Charge(u, j) >= 0
  {
    IntSizeExact(1, u.id);
    IntSizeExact(5, u.roleId);
    hide EncodeAll, SignExtend;
    if u.id < 0 { NegativeIsTenBytes(u.id); VarintSizeExact(SignExtend(u.id)); }
    if u.roleId < 0 { NegativeIsTenBytes(u.roleId); VarintSizeExact(SignExtend(u.roleId)); }
  }

  lemma OtherPartKept(u: UserData, f: Field, j: nat)
    requires Apply(u, f).Some? && j < 10 && j != PartFor(f)
    ensures Part(Apply(u, f).value, j) == Part(u, j) && PartSlack(Apply(u, f).value, j) == PartSlack(u, j)
  {
    hide ValidUtf8;
    if !IsTextNumber(j + 1) {
      ScalarsKept(u, f);
      ApplyUnknown(u, f);
      hide Apply, SetText, Text;
    }
  }

  /** The printed size without the slack of both `int32` fields. */
  function TotalCharge(u: UserData): int {
    |Print(u)| - Slack(u.id) - Slack(u.roleId)
  }

  lemma ChargesAddUp(u: UserData)
    ensures TotalCharge(u) == Charge(u, 0) + Charge(u, 1) + Charge(u, 2) + Charge(u, 3) + Charge(u, 4)
                            + Charge(u, 5) + Charge(u, 6) + Charge(u, 7) + Charge(u, 8) + Charge(u, 9)
  {
    hide Print, PartSize, Slack;
    PartSizes(u);
  }

  lemma ApplyTotalCharge(u: UserData, f: Field)
    requires Apply(u, f).Some?
    ensures TotalCharge(Apply(u, f).value) <= TotalCharge(u) + |Encode(f)|
  {
    var u' := Apply(u, f).value;
    var k := PartFor(f);
    assert k < 10;
    ChargesAddUp(u);
    ChargesAddUp(u');
    hide Apply, Charge, TotalCharge, Encode, PartFor;
    ApplyCharge(u, f, 0);
    ApplyCharge(u, f, 1);
    ApplyCharge(u, f, 2);
    ApplyCharge(u, f, 3);
    ApplyCharge(u, f, 4);
    ApplyCharge(u, f, 5);
    ApplyCharge(u, f, 6);
    ApplyCharge(u, f, 7);
    ApplyCharge(u, f, 8);
    ApplyCharge(u, f, 9);
  }

  lemma {:induction false} FoldTotalCharge(u: UserData, fs: seq<Field>)
    ensures Fold(Apply, u, fs).Some? ==>
              TotalCharge(Fold(Apply, u, fs).value) <= TotalCharge(u) + |EncodeAll(fs)|
    decreases fs
  {
    if fs != [] && Apply(u, fs[0]).Some? {
      hide Apply, TotalCharge, Encode;
      ApplyTotalCharge(u, fs[0]);
      FoldTotalCharge(Apply(u, fs[0]).value, fs[1..]);
    }
  }

  /** A parsed user prints to at most ten bytes more than it was parsed from. */
  lemma UserGrowth(s: Bytes)
    requires ParseInto(EMPTY, s).Some?
    ensures |Print(ParseInto(EMPTY, s).value)| <= |s| + 10
  {
    NothingPrinted();
    EncodeNothing();
    assert TotalCharge(EMPTY) == 0;
    hide Print, ScanFields, EncodeAll;
    FoldTotalCharge(EMPTY, ScanFields(s).fields);
    ScanShortest(s);
  }

  // ---------------------------------------------------------------- responses

  lemma {:induction false} OneOfMany(fs: seq<Field>, f: Field)
    requires f in fs
    ensures |Encode(f)| <= |EncodeAll(fs)|
  {
    if f != fs[0] {
      hide Encode;
      OneOfMany(fs[1..], f);
    }
  }

  lemma {:induction false} FromRecord(fs: seq<Field>, u: UserData)
    requires u in UsersCodec.ParseUsers(EveryBytes(fs, 1))
    ensures exists f :: f in fs && f.BytesField? && f.number == 1
                        && u == OrElse(UsersCodec.ParseUser(f.data), EMPTY)
  {
    hide UsersCodec.ParseUser;
    var f := fs[0];
    if f.BytesField? && f.number == 1 && u == OrElse(UsersCodec.ParseUser(f.data), EMPTY) {
      assert f in fs;
    } else {
      assert EveryBytes(fs, 1) != EveryBytes(fs[1..], 1) ==> EveryBytes(fs, 1)[1..] == EveryBytes(fs[1..], 1);
      FromRecord(fs[1..], u);
      var g :| g in fs[1..] && g.BytesField? && g.number == 1 && u == OrElse(UsersCodec.ParseUser(g.data), EMPTY);
      assert g in fs;
    }
  }

  lemma LongRecord(data: Bytes)
    requires MAX_LENGTH - 10 < |data| <= MAX_LENGTH
    ensures |Encode(BytesField(1, data))| == |data| + 6
  {
    TextSizeExact(1, data);
    EncodeOne(BytesField(1, data));
    hide Encode, EncodeAll;
  }

  /** In a response parsed from at most `MAX_LENGTH - 4` bytes every user fits behind a length
      prefix: one that came in more than `MAX_LENGTH - 10` bytes would not have fitted in. */
  lemma SmallFits(s: Bytes)
    requires UsersCodec.ParseInto(UsersCodec.EMPTY, s).Some? && |s| <= MAX_LENGTH - 4
    ensures UsersCodec.Fits(UsersCodec.ParseInto(UsersCodec.EMPTY, s).value)
  {
    var fs := ScanFields(s).fields;
    UsersCodec.FoldIsOverlay(UsersCodec.EMPTY, fs);
    var m := UsersCodec.ParseInto(UsersCodec.EMPTY, s).value;
    assert m.users == [] + UsersCodec.ParseUsers(EveryBytes(fs, 1)) == UsersCodec.ParseUsers(EveryBytes(fs, 1));
    assert UsersCodec.UsersValid(fs);
    ScanShortest(s);
    ScanIsWellFormed(s);
    hide ScanFields, UsersCodec.ParseUsers, EveryBytes, EncodeAll, Encode, Print, ParseInto;
    forall u | u in m.users
      ensures |Print(u)| <= MAX_LENGTH
    {
      FromRecord(fs, u);
      var f :| f in fs && f.BytesField? && f.number == 1 && u == OrElse(UsersCodec.ParseUser(f.data), EMPTY);
      assert WellFormed(f);
      OneOfMany(fs, f);
      UserGrowth(f.data);
      if |f.data| > MAX_LENGTH - 10 {
        LongRecord(f.data);
      }
    }
  }

  /** So every accepted response of that size survives printing and parsing. */
  lemma SmallIsCanonical(s: Bytes)
    requires UsersCodec.ParseInto(UsersCodec.EMPTY, s).Some? && |s| <= MAX_LENGTH - 4
    ensures UsersCodec.ParseInto(UsersCodec.EMPTY, UsersCodec.Print(UsersCodec.ParseInto(UsersCodec.EMPTY, s).value))
            == UsersCodec.ParseInto(UsersCodec.EMPTY, s)
  {
    hide UsersCodec.ParseInto, UsersCodec.Print, UsersCodec.Fits;
    SmallFits(s);
    UsersCodec.Canonical(s);
  }
}
