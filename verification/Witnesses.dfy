/**
 Concrete inputs on which the codec does not do what one might expect of it: they show that
 the conditions in the laws of the three messages are not idle.
 */
module Witnesses {
  import opened Wire
  import opened Utf8
  import opened Fields
  import opened Dispatch
  import opened Printing
  import UserCodec
  import UsersCodec
  import Growth

  // ---------------------------------------------------------------- strings

  /** Printing does not stop on bad UTF-8, parsing does: this user prints, but is not read back. */
  lemma BadTextIsNotReadBack()
    ensures var u := UserCodec.EMPTY.(username := [0xFF]);
            UserCodec.ParseInto(UserCodec.EMPTY, UserCodec.Print(u)) != Some(u)
  {
    var u := UserCodec.EMPTY.(username := [0xFF]);
    assert !ValidUtf8(u.username);
    UserCodec.RoundTrip(u);
  }

  // ---------------------------------------------------------------- explicit defaults

  /** The id 5, and an explicit id 0. */
  const FIVE: Bytes := [0x08, 0x05]
  const ZERO: Bytes := [0x08, 0x00]

  lemma OneByteId(v: Byte)
    requires v < 0x80
    ensures ScanFields([0x08, v]) == Scan([VarintField(1, v)], AtLimit)
    ensures UserCodec.ParseInto(UserCodec.EMPTY, [0x08, v]) == Some(UserCodec.EMPTY.(id := v))
  {
    var f := VarintField(1, v);
    assert EncodeAll([f]) == [0x08, v] by {
      EncodeOne(f);
    }
    FieldsRoundTrip([f]);
    FoldTwo(UserCodec.Apply, UserCodec.EMPTY, f, f);
    assert ToInt32(v) == v;
    assert UserCodec.Apply(UserCodec.EMPTY, f) == Some(UserCodec.EMPTY.(id := v));
  }

  /** An explicit default on the wire resets a field, whereas merging never does. */
  lemma ConcatenationCanReset()
    ensures UserCodec.ParseInto(UserCodec.EMPTY, FIVE).Some? && UserCodec.ParseInto(UserCodec.EMPTY, ZERO).Some?
    ensures var a := UserCodec.ParseInto(UserCodec.EMPTY, FIVE).value;
            var b := UserCodec.ParseInto(UserCodec.EMPTY, ZERO).value;
            UserCodec.ParseInto(UserCodec.EMPTY, FIVE + ZERO) != Some(UserCodec.Merge(a, b))
  {
    OneByteId(5);
    OneByteId(0);
    hide UserCodec.ParseInto, ScanFields;
    UserCodec.ConcatenationIsMerge(FIVE, ZERO);
    assert LastVarint([VarintField(1, 0)], 1) == Some(0);
  }

  // ---------------------------------------------------------------- growing past the limit

  /** The 32-bit pattern of -1, which takes five varint bytes. */
  const MINUS_ONE: UInt64 := TWO_32 - 1

  function Letters(n: nat): (s: Bytes)
    ensures |s| == n
  {
    if n == 0 then [] else [0x41] + Letters(n - 1)
  }

  lemma {:induction false} LettersValid(n: nat)
    ensures ValidUtf8(Letters(n))
  {
    if n > 0 {
      assert Letters(n)[1..] == Letters(n - 1);
      LettersValid(n - 1);
    }
  }

  /** A user whose id and role id are -1 and came in five bytes each. */
  function ShortRecords(name: Bytes): seq<Field> {
    [VarintField(1, MINUS_ONE), VarintField(5, MINUS_ONE), BytesField(4, name)]
  }

  function Negative(name: Bytes): UserCodec.UserData {
    UserCodec.EMPTY.(id := -1, roleId := -1, name := name)
  }

  lemma ShortRecordsFold(name: Bytes)
    requires ValidUtf8(name)
    ensures Fold(UserCodec.Apply, UserCodec.EMPTY, ShortRecords(name)) == Some(Negative(name))
  {
    var f, g, h := VarintField(1, MINUS_ONE), VarintField(5, MINUS_ONE), BytesField(4, name);
    assert ShortRecords(name) == [f, g] + [h];
    FoldAppend(UserCodec.Apply, UserCodec.EMPTY, [f, g], [h]);
    FoldTwo(UserCodec.Apply, UserCodec.EMPTY, f, g);
    hide Fold, ValidUtf8;
    assert ToInt32(MINUS_ONE) == -1;
    var u := UserCodec.EMPTY.(id := -1, roleId := -1);
    FoldTwo(UserCodec.Apply, u, h, h);
  }

  lemma ShortRecordsParse(name: Bytes)
    requires ValidUtf8(name) && |name| <= MAX_LENGTH
    ensures UserCodec.ParseInto(UserCodec.EMPTY, EncodeAll(ShortRecords(name))) == Some(Negative(name))
  {
    ShortRecordsFold(name);
    hide Fold, ValidUtf8, ParseWhole, EncodeAll;
    ParseEncoded(UserCodec.Apply, UserCodec.EMPTY, ShortRecords(name));
  }

  lemma ShortRecordsLength(name: Bytes)
    ensures |EncodeAll(ShortRecords(name))| == 13 + DelimitedSize(|name|)
  {
    var f, g, h := VarintField(1, MINUS_ONE), VarintField(5, MINUS_ONE), BytesField(4, name);
    assert |Encode(f)| == |Encode(g)| == 6 by {
      VarintSizeExact(MINUS_ONE);
    }
    TextSizeExact(4, name);
    hide Encode, DelimitedSize;
    assert [f, g, h][1..] == [g, h] && [g, h][1..] == [h];
  }

  /** Its printed form is ten bytes longer than what was read. */
  lemma NegativeGrows(name: Bytes)
    requires name != []
    ensures |UserCodec.Print(Negative(name))| == |EncodeAll(ShortRecords(name))| + 10
  {
    var u := Negative(name);
    UserCodec.PrintedLength(u);
    ShortRecordsLength(name);
    assert IntSize(-1) == 10;
    hide UserCodec.Print, EncodeAll, DelimitedSize;
    assert SizeIf(u.username != [], 1 + DelimitedSize(|u.username|)) == 0;
  }

  /** A response the parser accepts, but whose printed form it no longer reads, in `MAX_LENGTH - 3`
      bytes: the one user in it is nine bytes shorter than the longest length a prefix can
      announce, and grows by ten when printed. */
  lemma CanonicalCanFail() returns (s: Bytes)
    ensures |s| == MAX_LENGTH - 3
    ensures UsersCodec.ParseInto(UsersCodec.EMPTY, s).Some?
    ensures !Survives(s)
  {
    var name := Letters(MAX_LENGTH - 27);
    LettersValid(MAX_LENGTH - 27);
    hide Letters, ValidUtf8;
    var data := EncodeAll(ShortRecords(name));
    ShortRecordsParse(name);
    NegativeGrows(name);
    ShortRecordsLength(name);
    assert |data| == MAX_LENGTH - 9;
    s := LongResponse(data, Negative(name));
  }

  /** A response of one user that is close to the largest length, and past it when printed. */
  lemma LongResponse(data: Bytes, u: UserCodec.UserData) returns (s: Bytes)
    requires MAX_LENGTH - 10 < |data| <= MAX_LENGTH < |UserCodec.Print(u)|
    requires UserCodec.ParseInto(UserCodec.EMPTY, data) == Some(u)
    ensures |s| == |data| + 6 && UsersCodec.ParseInto(UsersCodec.EMPTY, s).Some? && !Survives(s)
  {
    var f := BytesField(1, data);
    s := EncodeAll([f]);
    hide UserCodec.ParseInto, UserCodec.Print;
    EncodeOne(f);
    Growth.LongRecord(data);
    ParseEncoded(UsersCodec.Apply, UsersCodec.EMPTY, [f]);
    FoldTwo(UsersCodec.Apply, UsersCodec.EMPTY, f, f);
    var m := UsersCodec.EMPTY.(users := [] + [u]);
    assert UsersCodec.ParseInto(UsersCodec.EMPTY, s) == Some(m);
    assert u in m.users;
    UsersCodec.RoundTrip(m);
  }

  /** What was parsed from `s` is read back from its printed form. */
  predicate Survives(s: Bytes)
    requires UsersCodec.ParseInto(UsersCodec.EMPTY, s).Some?
  {
    var m := UsersCodec.ParseInto(UsersCodec.EMPTY, s).value;
    UsersCodec.ParseInto(UsersCodec.EMPTY, UsersCodec.Print(m)) == Some(m)
  }

  /** Every accepted response of at most `n` bytes survives printing and parsing exactly when `n`
      is at least four below the largest length. */
  lemma CanonicalThreshold(n: nat)
    ensures (forall s :: |s| <= n && UsersCodec.ParseInto(UsersCodec.EMPTY, s).Some? ==> Survives(s))
            <==> n <= MAX_LENGTH - 4
  {
    hide UsersCodec.ParseInto, UsersCodec.Print;
    if n <= MAX_LENGTH - 4 {
      forall s | |s| <= n && UsersCodec.ParseInto(UsersCodec.EMPTY, s).Some?
        ensures Survives(s)
      {
        Growth.SmallIsCanonical(s);
      }
    } else {
      var s := CanonicalCanFail();
    }
  }
}
