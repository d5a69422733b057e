/**
 What the readers make of raw bytes, canonical or not: which bytes are a record, which stop the
 loop and which are refused, and that it never matters how a number was padded.
 */
module Reading {
  import opened Wire
  import opened Fields
  import opened Dispatch

  /** `e` is a whole varint of at most `k` bytes. */
  predicate IsNumber(e: Bytes, k: nat) {
    IsVarint(e, |e|) && |e| <= k
  }

  /** `e` is a tag, padded or not. */
  predicate IsTag(e: Bytes, tag: UInt32) {
    IsNumber(e, 5) && GroupSum(e) % TWO_32 == tag
  }

  // ---------------------------------------------------------------- in front of more bytes

  lemma NumberInFront(e: Bytes, s: Bytes)
    requires IsVarint(e, |e|)
    ensures IsVarint(e + s, |e|) && (e + s)[..|e|] == e && (e + s)[|e|..] == s
  {
  }

  lemma TagRead(e: Bytes, s: Bytes, tag: UInt32)
    requires IsTag(e, tag)
    ensures ReadTag(e + s) == Read(tag, |e|) && (e + s)[|e|..] == s
  {
    NumberInFront(e, s);
    ReadTagIff(e + s, |e|);
    hide ReadTag, IsVarint, GroupSum;
  }

  // ---------------------------------------------------------------- one record

  /** Without a tag, nothing is read. */
  lemma NoTag(s: Bytes)
    ensures (forall n: nat :: n <= 5 ==> !IsVarint(s, n)) ==> ReadField(s) == Malformed
  {
    if ReadTag(s).Read? {
      ReadTagIff(s, ReadTag(s).taken);
    }
    hide ReadTag, IsVarint, ReadPayload;
  }

  /** Tag 0 and end-group tags stop the loop; other tags are followed by their payload. */
  lemma TagMeans(e: Bytes, s: Bytes, tag: UInt32)
    requires IsTag(e, tag)
    ensures tag == 0 || tag % 8 == 4 ==> ReadField(e + s) == Stop(tag, |s|)
    ensures tag != 0 && tag % 8 != 4 ==>
              ReadField(e + s) == if ReadPayload(tag, s).Got?
                                  then Got(ReadPayload(tag, s).field, |e| + ReadPayload(tag, s).taken)
                                  else Malformed
  {
    TagRead(e, s, tag);
    hide IsTag, ReadTag, ReadPayload;
  }

  /** Field number 0 and the wire types 6 and 7 are refused. */
  lemma RefusedMeans(e: Bytes, s: Bytes, tag: UInt32)
    requires IsTag(e, tag) && tag != 0 && tag % 8 != 4
    ensures tag / 8 == 0 || tag % 8 == 6 || tag % 8 == 7 ==> ReadField(e + s) == Malformed
  {
    TagMeans(e, s, tag);
    hide IsTag, ReadField, ReadVarint64, ReadFixed, ReadDelimited, ScanFields;
  }

  /** Wire type 0: a varint of at most ten bytes, of which 64 bits are kept. */
  lemma VarintMeans(e: Bytes, s: Bytes, tag: UInt32, n: nat)
    requires IsTag(e, tag) && tag >= 8 && tag % 8 == 0
    ensures IsVarint(s, n) && n <= 10 ==>
              ReadField(e + s) == Got(VarintField(tag / 8, GroupSum(s[..n]) % TWO_64), |e| + n)
    ensures ReadField(e + s).Got? && ReadField(e + s).taken == |e| + n ==> IsVarint(s, n) && n <= 10
    ensures ReadField(e + s).Got? || ReadField(e + s).Malformed?
  {
    TagMeans(e, s, tag);
    PayloadForms(tag, s);
    ReadVarint64Iff(s, n);
    hide IsTag, ReadField, ReadPayload, ReadVarint64, IsVarint, GroupSum;
  }

  /** Wire type 2: a length of at most five bytes that may be announced, and as many bytes. */
  lemma DelimitedMeans(e: Bytes, s: Bytes, tag: UInt32, n: nat)
    requires IsTag(e, tag) && tag >= 8 && tag % 8 == 2 && IsVarint(s, n)
    ensures var length := GroupSum(s[..n]);
            ReadField(e + s) == if n <= 5 && length <= MAX_LENGTH && n + length <= |s|
                                then Got(BytesField(tag / 8, s[n..n + length]), |e| + n + length)
                                else Malformed
  {
    TagMeans(e, s, tag);
    PayloadForms(tag, s);
    ReadDelimitedIff(s, n);
    hide IsTag, ReadField, ReadPayload, ReadDelimited, IsVarint, GroupSum;
  }

  lemma NoLength(e: Bytes, s: Bytes, tag: UInt32)
    requires IsTag(e, tag) && tag >= 8 && tag % 8 == 2 && forall n: nat :: n <= 5 ==> !IsVarint(s, n)
    ensures ReadField(e + s) == Malformed
  {
    TagMeans(e, s, tag);
    PayloadForms(tag, s);
    if ReadDelimited(s).Read? {
      ReadSizeIff(s, ReadSize(s).taken);
    }
    hide IsTag, ReadField, ReadPayload, ReadSize, IsVarint;
  }

  /** Wire types 1 and 5: eight and four bytes, kept as they are. */
  lemma FixedMeans(e: Bytes, s: Bytes, tag: UInt32)
    requires IsTag(e, tag) && tag >= 8 && (tag % 8 == 1 || tag % 8 == 5)
    ensures var width := if tag % 8 == 1 then 8 else 4;
            if |s| < width then ReadField(e + s) == Malformed
            else && ReadField(e + s).Got? && ReadField(e + s).taken == |e| + width
                 && ReadField(e + s).field.number == tag / 8
                 && EncodePayload(ReadField(e + s).field) == s[..width]
  {
    TagMeans(e, s, tag);
    FixedReadFixed(s, 8);
    FixedReadFixed(s, 4);
    hide IsTag, ReadField, Fixed, ReadFixed, ReadVarint64, ReadDelimited, ScanFields;
  }

  /** Wire type 3: the records up to the end-group tag of the same number, and no other end. */
  lemma GroupMeans(e: Bytes, s: Bytes, tag: UInt32)
    requires IsTag(e, tag) && tag >= 8 && tag % 8 == 3
    ensures var inner := ScanFields(s);
            ReadField(e + s) == if inner.end.AtTag? && inner.end.tag == tag + 1
                                then Got(GroupField(tag / 8, inner.fields), |e| + |s| - inner.end.left)
                                else Malformed
  {
    TagMeans(e, s, tag);
    hide IsTag, ReadField, ReadFixed, ReadVarint64, ReadDelimited, ScanFields;
  }

  // ---------------------------------------------------------------- padding

  /** Two inputs whose first records read the same and leave the same bytes parse the same. */
  lemma SameStep<M>(apply: (M, Field) -> Option<M>, m: M, s: Bytes, t: Bytes)
    requires s != [] && t != []
    requires ReadField(s).Malformed? ==> ReadField(t).Malformed?
    requires ReadField(s).Stop? ==> ReadField(t) == ReadField(s)
    requires ReadField(s).Got? ==>
               && ReadField(t).Got? && ReadField(t).field == ReadField(s).field
               && t[ReadField(t).taken..] == s[ReadField(s).taken..]
    ensures Parse(apply, m, s) == Parse(apply, m, t)
  {
    hide ReadField, Parse;
    ParseStep(apply, m, s);
    ParseStep(apply, m, t);
  }

  lemma Behind(e: Bytes, s: Bytes, k: nat)
    requires k <= |s|
    ensures (e + s)[|e| + k..] == s[k..]
  {
  }

  lemma TagLeaves(e: Bytes, s: Bytes, tag: UInt32)
    requires IsTag(e, tag)
    ensures e + s != []
    ensures var step := ReadPayload(tag, s);
            step.Got? ==> (e + s)[|e| + step.taken..] == s[step.taken..]
  {
    assert |e| > 0;
    hide IsTag, ReadPayload;
    if ReadPayload(tag, s).Got? {
      Behind(e, s, ReadPayload(tag, s).taken);
    }
  }

  /** It does not matter to the result how a tag was padded. */
  lemma PaddedTag<M>(apply: (M, Field) -> Option<M>, m: M, e: Bytes, e': Bytes, s: Bytes, tag: UInt32)
    requires IsTag(e, tag) && IsTag(e', tag)
    ensures Parse(apply, m, e + s) == Parse(apply, m, e' + s)
  {
    hide IsTag, ReadField, ReadPayload, Parse;
    TagMeans(e, s, tag);
    TagMeans(e', s, tag);
    TagLeaves(e, s, tag);
    TagLeaves(e', s, tag);
    SameStep(apply, m, e + s, e' + s);
  }

  /** A tag of wire type 0 and its varint, in front of more bytes. */
  lemma ValueRead(e: Bytes, b: Bytes, s: Bytes, tag: UInt32)
    requires IsTag(e, tag) && tag >= 8 && tag % 8 == 0 && IsNumber(b, 10)
    ensures ReadField(e + (b + s)) == Got(VarintField(tag / 8, GroupSum(b) % TWO_64), |e| + |b|)
    ensures e + (b + s) != [] && (e + (b + s))[|e| + |b|..] == s
  {
    NumberInFront(b, s);
    VarintMeans(e, b + s, tag, |b|);
    assert |e| > 0;
    hide IsTag, IsVarint, GroupSum, ReadField;
    Behind(e, b + s, |b|);
  }

  /** A tag of wire type 2 and its length, in front of more bytes. */
  lemma LengthRead(e: Bytes, b: Bytes, s: Bytes, tag: UInt32)
    requires IsTag(e, tag) && tag >= 8 && tag % 8 == 2 && IsNumber(b, 5)
    ensures var length := GroupSum(b);
            ReadField(e + (b + s)) == if length <= MAX_LENGTH && length <= |s|
                                      then Got(BytesField(tag / 8, s[..length]), |e| + |b| + length)
                                      else Malformed
    ensures e + (b + s) != [] && (GroupSum(b) <= |s| ==> (e + (b + s))[|e| + |b| + GroupSum(b)..] == s[GroupSum(b)..])
  {
    NumberInFront(b, s);
    DelimitedMeans(e, b + s, tag, |b|);
    assert |e| > 0;
    hide IsTag, IsVarint, GroupSum, ReadField;
    if GroupSum(b) <= |s| {
      BehindLength(e, b, s, GroupSum(b));
    }
  }

  lemma BehindLength(e: Bytes, b: Bytes, s: Bytes, length: nat)
    requires length <= |s|
    ensures (b + s)[|b|..|b| + length] == s[..length]
    ensures (e + (b + s))[|e| + |b| + length..] == s[length..]
  {
  }

  /** It does not matter to the result how a field's varint was padded. */
  lemma PaddedValue<M>(apply: (M, Field) -> Option<M>, m: M, e: Bytes, b: Bytes, b': Bytes, s: Bytes, tag: UInt32)
    requires IsTag(e, tag) && tag >= 8 && tag % 8 == 0
    requires IsNumber(b, 10) && IsNumber(b', 10) && GroupSum(b) % TWO_64 == GroupSum(b') % TWO_64
    ensures Parse(apply, m, e + (b + s)) == Parse(apply, m, e + (b' + s))
  {
    hide IsTag, IsNumber, GroupSum, ReadField, Parse;
    ValueRead(e, b, s, tag);
    ValueRead(e, b', s, tag);
    SameStep(apply, m, e + (b + s), e + (b' + s));
  }

  /** It does not matter to the result how a length prefix was padded. */
  lemma PaddedLength<M>(apply: (M, Field) -> Option<M>, m: M, e: Bytes, b: Bytes, b': Bytes, s: Bytes, tag: UInt32)
    requires IsTag(e, tag) && tag >= 8 && tag % 8 == 2
    requires IsNumber(b, 5) && IsNumber(b', 5) && GroupSum(b) == GroupSum(b')
    ensures Parse(apply, m, e + (b + s)) == Parse(apply, m, e + (b' + s))
  {
    hide IsTag, IsNumber, GroupSum, ReadField, Parse;
    LengthRead(e, b, s, tag);
    LengthRead(e, b', s, tag);
    SameStep(apply, m, e + (b + s), e + (b' + s));
  }

  // ---------------------------------------------------------------- messages of one record

  lemma OneByteIsTag(tag: Byte)
    requires tag < 0x80
    ensures IsTag([tag], tag)
  {
    assert [tag][1..] == [];
    assert GroupSum([tag]) == tag;
  }

  lemma OnlyRecord<M>(apply: (M, Field) -> Option<M>, m: M, s: Bytes, f: Field)
    requires s != [] && ReadField(s) == Got(f, |s|)
    ensures ParseWhole(apply, m, s) == apply(m, f)
  {
    hide ReadField, Parse;
    ParseStep(apply, m, s);
    if apply(m, f).Some? {
      assert s[|s|..] == [];
      ParseNothing(apply, apply(m, f).value);
    }
  }

  /** A one-byte tag and a varint, padded or not, are one varint record. */
  lemma OnlyValue<M>(apply: (M, Field) -> Option<M>, m: M, tag: Byte, b: Bytes)
    requires 8 <= tag < 0x80 && tag % 8 == 0 && IsNumber(b, 10)
    ensures ParseWhole(apply, m, [tag] + b) == apply(m, VarintField(tag / 8, GroupSum(b) % TWO_64))
  {
    hide IsNumber, IsTag, GroupSum, ReadField, ParseWhole;
    OneByteIsTag(tag);
    ValueRead([tag], b, [], tag);
    assert b + [] == b;
    OnlyRecord(apply, m, [tag] + b, VarintField(tag / 8, GroupSum(b) % TWO_64));
  }

  /** A one-byte tag, a length, padded or not, and as many bytes are one length-delimited record. */
  lemma OnlyDelimited<M>(apply: (M, Field) -> Option<M>, m: M, tag: Byte, b: Bytes, s: Bytes)
    requires 8 <= tag < 0x80 && tag % 8 == 2 && IsNumber(b, 5) && GroupSum(b) == |s| <= MAX_LENGTH
    ensures ParseWhole(apply, m, [tag] + (b + s)) == apply(m, BytesField(tag / 8, s))
  {
    hide IsNumber, IsTag, GroupSum, ReadField, ParseWhole;
    OneByteIsTag(tag);
    LengthRead([tag], b, s, tag);
    assert s[..|s|] == s;
    OnlyRecord(apply, m, [tag] + (b + s), BytesField(tag / 8, s));
  }
}
