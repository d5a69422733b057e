/**
 The three messages in bytes: what each field of the input does to a message, and what is printed
 for each message, with the tags of the fields as they stand on the wire.
 */
module WireForms {
  import opened Wire
  import opened Utf8
  import opened Fields
  import opened Dispatch
  import opened Printing
  import opened Reading
  import UserCodec
  import RoleCodec
  import UsersCodec

  // ---------------------------------------------------------------- parsing a `User`

  /** Numbers are truncated to 32 bits, whatever their length; any other number than 0 is true. */
  lemma UserNumber(u: UserCodec.UserData, b: Bytes, x: Int32)
    requires IsNumber(b, 10) && (GroupSum(b) - x) % TWO_32 == 0
    ensures UserCodec.ParseInto(u, [0x08] + b) == Some(u.(id := x))
    ensures UserCodec.ParseInto(u, [0x28] + b) == Some(u.(roleId := x))
    ensures UserCodec.ParseInto(u, [0x38] + b) == Some(u.(active := GroupSum(b) % TWO_64 != 0))
  {
    hide IsNumber, GroupSum, ParseWhole;
    OnlyValue(UserCodec.Apply, u, 0x08, b);
    OnlyValue(UserCodec.Apply, u, 0x28, b);
    OnlyValue(UserCodec.Apply, u, 0x38, b);
    LowBits(GroupSum(b));
    ToInt32Iff(GroupSum(b), x);
  }

  /** Strings are taken over if they are valid UTF-8, and otherwise fail the parse. */
  lemma UserString(u: UserCodec.UserData, b: Bytes, s: Bytes)
    requires IsNumber(b, 5) && GroupSum(b) == |s| <= MAX_LENGTH
    ensures UserCodec.ParseInto(u, [0x12] + (b + s)) == if ValidUtf8(s) then Some(u.(username := s)) else None
    ensures UserCodec.ParseInto(u, [0x1A] + (b + s)) == if ValidUtf8(s) then Some(u.(email := s)) else None
    ensures UserCodec.ParseInto(u, [0x22] + (b + s)) == if ValidUtf8(s) then Some(u.(name := s)) else None
    ensures UserCodec.ParseInto(u, [0x32] + (b + s)) == if ValidUtf8(s) then Some(u.(roleName := s)) else None
    ensures UserCodec.ParseInto(u, [0x42] + (b + s)) == if ValidUtf8(s) then Some(u.(createdAt := s)) else None
    ensures UserCodec.ParseInto(u, [0x4A] + (b + s)) == if ValidUtf8(s) then Some(u.(updatedAt := s)) else None
  {
    hide IsNumber, GroupSum, ParseWhole, ValidUtf8;
    OnlyDelimited(UserCodec.Apply, u, 0x12, b, s);
    OnlyDelimited(UserCodec.Apply, u, 0x1A, b, s);
    OnlyDelimited(UserCodec.Apply, u, 0x22, b, s);
    OnlyDelimited(UserCodec.Apply, u, 0x32, b, s);
    OnlyDelimited(UserCodec.Apply, u, 0x42, b, s);
    OnlyDelimited(UserCodec.Apply, u, 0x4A, b, s);
  }

  /** Every other record, a known number under another wire type included, joins the unknown fields. */
  lemma UserOther(u: UserCodec.UserData, e: Bytes, f: Field)
    requires e != [] && ReadField(e) == Got(f, |e|)
    requires !(f.VarintField? && f.number in {1, 5, 7}) && !(f.BytesField? && f.number in {2, 3, 4, 6, 8, 9})
    ensures UserCodec.ParseInto(u, e) == Some(u.(unknown := u.unknown + [f]))
  {
    hide ReadField, ParseWhole, ValidUtf8;
    OnlyRecord(UserCodec.Apply, u, e, f);
  }

  // ---------------------------------------------------------------- parsing a `Role`

  lemma RoleNumber(r: RoleCodec.RoleData, b: Bytes, x: Int32)
    requires IsNumber(b, 10) && (GroupSum(b) - x) % TWO_32 == 0
    ensures RoleCodec.ParseInto(r, [0x08] + b) == Some(r.(id := x))
    ensures RoleCodec.ParseInto(r, [0x28] + b) == Some(r.(active := GroupSum(b) % TWO_64 != 0))
  {
    hide IsNumber, GroupSum, ParseWhole;
    OnlyValue(RoleCodec.Apply, r, 0x08, b);
    OnlyValue(RoleCodec.Apply, r, 0x28, b);
    LowBits(GroupSum(b));
    ToInt32Iff(GroupSum(b), x);
  }

  /** A permission is added behind the ones already there. */
  lemma RoleString(r: RoleCodec.RoleData, b: Bytes, s: Bytes)
    requires IsNumber(b, 5) && GroupSum(b) == |s| <= MAX_LENGTH
    ensures RoleCodec.ParseInto(r, [0x12] + (b + s)) == if ValidUtf8(s) then Some(r.(name := s)) else None
    ensures RoleCodec.ParseInto(r, [0x1A] + (b + s)) == if ValidUtf8(s) then Some(r.(description := s)) else None
    ensures RoleCodec.ParseInto(r, [0x22] + (b + s))
            == if ValidUtf8(s) then Some(r.(permissions := r.permissions + [s])) else None
    ensures RoleCodec.ParseInto(r, [0x32] + (b + s)) == if ValidUtf8(s) then Some(r.(createdAt := s)) else None
  {
    hide IsNumber, GroupSum, ParseWhole, ValidUtf8;
    OnlyDelimited(RoleCodec.Apply, r, 0x12, b, s);
    OnlyDelimited(RoleCodec.Apply, r, 0x1A, b, s);
    OnlyDelimited(RoleCodec.Apply, r, 0x22, b, s);
    OnlyDelimited(RoleCodec.Apply, r, 0x32, b, s);
  }

  lemma RoleOther(r: RoleCodec.RoleData, e: Bytes, f: Field)
    requires e != [] && ReadField(e) == Got(f, |e|)
    requires !(f.VarintField? && f.number in {1, 5}) && !(f.BytesField? && f.number in {2, 3, 4, 6})
    ensures RoleCodec.ParseInto(r, e) == Some(r.(unknown := r.unknown + [f]))
  {
    hide ReadField, ParseWhole, ValidUtf8;
    OnlyRecord(RoleCodec.Apply, r, e, f);
  }

  // ---------------------------------------------------------------- parsing a `GetUsersResponse`

  /** A nested user is parsed into an empty one and added behind the others; the total is
      truncated to 64 bits. */
  lemma ResponseField(m: UsersCodec.UsersData, b: Bytes, s: Bytes, x: Int64)
    ensures IsNumber(b, 5) && GroupSum(b) == |s| <= MAX_LENGTH ==>
              UsersCodec.ParseInto(m, [0x0A] + (b + s)) ==
              match UserCodec.ParseInto(UserCodec.EMPTY, s)
              case None => None
              case Some(u) => Some(m.(users := m.users + [u]))
    ensures IsNumber(b, 10) && (GroupSum(b) - x) % TWO_64 == 0 ==>
              UsersCodec.ParseInto(m, [0x10] + b) == Some(m.(total := x))
  {
    hide IsNumber, GroupSum, ParseWhole, UserCodec.ParseInto;
    if IsNumber(b, 5) && GroupSum(b) == |s| <= MAX_LENGTH {
      OnlyDelimited(UsersCodec.Apply, m, 0x0A, b, s);
    }
    if IsNumber(b, 10) && (GroupSum(b) - x) % TWO_64 == 0 {
      OnlyValue(UsersCodec.Apply, m, 0x10, b);
      ToInt64Iff(GroupSum(b), x);
    }
  }

  lemma ResponseOther(m: UsersCodec.UsersData, e: Bytes, f: Field)
    requires e != [] && ReadField(e) == Got(f, |e|)
    requires !(f.VarintField? && f.number == 2) && !(f.BytesField? && f.number == 1)
    ensures UsersCodec.ParseInto(m, e) == Some(m.(unknown := m.unknown + [f]))
  {
    hide ReadField, ParseWhole, UserCodec.ParseInto;
    OnlyRecord(UsersCodec.Apply, m, e, f);
  }

  // ---------------------------------------------------------------- printing

  /** A number behind its tag, sign-extended to 64 bits; nothing for 0. */
  function NumberBytes(tag: Byte, v: Int64): Bytes {
    if v == 0 then [] else [tag] + Varint(v % TWO_64)
  }

  /** A bool behind its tag; nothing for false. */
  function BoolBytes(tag: Byte, v: bool): Bytes {
    if v then [tag, 1] else []
  }

  /** Contents behind their tag and length. */
  function DelimitedBytes(tag: Byte, s: Bytes): Bytes {
    [tag] + Varint(|s| % TWO_32) + s
  }

  /** A string; nothing for the empty one. */
  function StringBytes(tag: Byte, s: Bytes): Bytes {
    if s == [] then [] else DelimitedBytes(tag, s)
  }

  /** Every element of a repeated field, empty ones included. */
  function RepeatedBytes(tag: Byte, ss: seq<Bytes>): Bytes {
    if ss == [] then [] else DelimitedBytes(tag, ss[0]) + RepeatedBytes(tag, ss[1..])
  }

  lemma OneByteTagPrinted(n: FieldNumber, wireType: int)
    requires n < 16 && 0 <= wireType < 8
    ensures EncodeTag(n, wireType) == [n * 8 + wireType]
  {
  }

  lemma NumberPrinted(n: FieldNumber, v: Int64)
    requires n < 16
    ensures EncodeAll(IntRecord(n, v)) == NumberBytes(n * 8, v)
  {
    OneByteTagPrinted(n, VARINT);
    hide Varint;
    if v != 0 {
      EncodeOne(VarintField(n, SignExtend(v)));
    } else {
      EncodeNothing();
    }
  }

  lemma BoolPrinted(n: FieldNumber, v: bool)
    requires n < 16
    ensures EncodeAll(BoolRecord(n, v)) == BoolBytes(n * 8, v)
  {
    OneByteTagPrinted(n, VARINT);
    if v {
      EncodeOne(VarintField(n, 1));
      assert Varint(1) == [1];
    } else {
      EncodeNothing();
    }
  }

  lemma DelimitedPrinted(n: FieldNumber, s: Bytes)
    requires n < 16
    ensures Encode(BytesField(n, s)) == DelimitedBytes(n * 8 + 2, s)
  {
    OneByteTagPrinted(n, LENGTH_DELIMITED);
    hide Varint;
  }

  lemma StringPrinted(n: FieldNumber, s: Bytes)
    requires n < 16
    ensures EncodeAll(TextRecord(n, s)) == StringBytes(n * 8 + 2, s)
  {
    DelimitedPrinted(n, s);
    hide Encode, DelimitedBytes;
    EncodeOne(BytesField(n, s));
    EncodeNothing();
  }

  lemma {:induction false} RepeatedPrinted(n: FieldNumber, ss: seq<Bytes>)
    requires n < 16
    ensures EncodeAll(BytesRecords(n, ss)) == RepeatedBytes(n * 8 + 2, ss)
  {
    if ss != [] {
      DelimitedPrinted(n, ss[0]);
      RepeatedPrinted(n, ss[1..]);
      hide Encode, DelimitedBytes;
      assert BytesRecords(n, ss)[1..] == BytesRecords(n, ss[1..]);
    }
  }

  /** A user prints field by field in the order of numbers, each unless it holds its default, and
      then its unknown fields. */
  lemma UserPrints(u: UserCodec.UserData)
    ensures UserCodec.Print(u) ==
            NumberBytes(0x08, u.id) + StringBytes(0x12, u.username) + StringBytes(0x1A, u.email)
            + StringBytes(0x22, u.name) + NumberBytes(0x28, u.roleId) + StringBytes(0x32, u.roleName)
            + BoolBytes(0x38, u.active) + StringBytes(0x42, u.createdAt) + StringBytes(0x4A, u.updatedAt)
            + EncodeAll(u.unknown)
  {
    var ps := UserCodec.Parts(u);
    UserCodec.PartsAre(u);
    PrintedEnds(ps);
    hide UserCodec.Print, UserCodec.Parts, PrintedUpTo, EncodeAll, Concat, NumberBytes, StringBytes, BoolBytes;
    hide IntRecord, TextRecord, BoolRecord;
    UpTo(ps, 0); UpTo(ps, 1); UpTo(ps, 2); UpTo(ps, 3); UpTo(ps, 4);
    UpTo(ps, 5); UpTo(ps, 6); UpTo(ps, 7); UpTo(ps, 8); UpTo(ps, 9);
    NumberPrinted(1, u.id);
    StringPrinted(2, u.username);
    StringPrinted(3, u.email);
    StringPrinted(4, u.name);
    NumberPrinted(5, u.roleId);
    StringPrinted(6, u.roleName);
    BoolPrinted(7, u.active);
    StringPrinted(8, u.createdAt);
    StringPrinted(9, u.updatedAt);
    assert [] + NumberBytes(0x08, u.id) == NumberBytes(0x08, u.id);
  }

  lemma UpTo(parts: seq<seq<Field>>, j: nat)
    requires j < |parts|
    ensures PrintedUpTo(parts, j + 1) == PrintedUpTo(parts, j) + EncodeAll(parts[j])
  {
    hide PrintedUpTo, EncodeAll;
    PrintedNext(parts, j, []);
    assert [] + PrintedUpTo(parts, j) == PrintedUpTo(parts, j);
    assert [] + PrintedUpTo(parts, j + 1) == PrintedUpTo(parts, j + 1);
  }

  lemma RolePrints(r: RoleCodec.RoleData)
    ensures RoleCodec.Print(r) ==
            NumberBytes(0x08, r.id) + StringBytes(0x12, r.name) + StringBytes(0x1A, r.description)
            + RepeatedBytes(0x22, r.permissions) + BoolBytes(0x28, r.active) + StringBytes(0x32, r.createdAt)
            + EncodeAll(r.unknown)
  {
    var ps := RoleCodec.Parts(r);
    RoleCodec.PartsAre(r);
    PrintedEnds(ps);
    hide RoleCodec.Print, RoleCodec.Parts, PrintedUpTo, EncodeAll, Concat, NumberBytes, StringBytes, BoolBytes;
    hide IntRecord, TextRecord, BoolRecord, RepeatedBytes, BytesRecords;
    UpTo(ps, 0); UpTo(ps, 1); UpTo(ps, 2); UpTo(ps, 3); UpTo(ps, 4); UpTo(ps, 5); UpTo(ps, 6);
    NumberPrinted(1, r.id);
    StringPrinted(2, r.name);
    StringPrinted(3, r.description);
    RepeatedPrinted(4, r.permissions);
    BoolPrinted(5, r.active);
    StringPrinted(6, r.createdAt);
    assert [] + NumberBytes(0x08, r.id) == NumberBytes(0x08, r.id);
  }

  /** A response prints every user behind the length of its printed form, the total unless it is
      0, and the unknown fields. */
  lemma ResponsePrints(m: UsersCodec.UsersData)
    ensures UsersCodec.Print(m) ==
            RepeatedBytes(0x0A, seq(|m.users|, i requires 0 <= i < |m.users| => UserCodec.Print(m.users[i])))
            + NumberBytes(0x10, m.total) + EncodeAll(m.unknown)
  {
    var users := seq(|m.users|, i requires 0 <= i < |m.users| => UserCodec.Print(m.users[i]));
    assert UsersCodec.PrintUsers(m.users) == users;
    hide UserCodec.Print, UsersCodec.Print, UsersCodec.PrintUsers, EncodeAll, NumberBytes, RepeatedBytes, IntRecord, BytesRecords;
    UsersCodec.PrintSplits(m);
    EncodeAllAppend(IntRecord(2, m.total), m.unknown);
    RepeatedPrinted(1, users);
    NumberPrinted(2, m.total);
    AppendAssociates(RepeatedBytes(0x0A, users), NumberBytes(0x10, m.total), EncodeAll(m.unknown));
  }

  /** Whatever two responses hold, strings that cannot be read back included, their merge prints the
      users of both in order, the later total away from 0, and the unknown fields of both in order. */
  lemma MergedPrints(a: UsersCodec.UsersData, b: UsersCodec.UsersData)
    ensures UsersCodec.Print(UsersCodec.Merge(a, b)) ==
            RepeatedBytes(0x0A, UsersCodec.PrintUsers(a.users) + UsersCodec.PrintUsers(b.users))
            + NumberBytes(0x10, if b.total != 0 then b.total else a.total) + EncodeAll(a.unknown + b.unknown)
  {
    var m := UsersCodec.Merge(a, b);
    hide UserCodec.Print, UsersCodec.Print, EncodeAll, NumberBytes, RepeatedBytes;
    ResponsePrints(m);
    assert UsersCodec.PrintUsers(a.users) + UsersCodec.PrintUsers(b.users)
        == seq(|m.users|, i requires 0 <= i < |m.users| => UserCodec.Print(m.users[i]));
  }
}
