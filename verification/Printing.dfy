/**
 Writing single fields and computing their sizes, as the generated `_InternalSerialize` and
 `ByteSizeLong` do it, tied to the printed form of the records they stand for.
 */
module Printing {
  import opened Wire
  import opened Fields
  import opened Dispatch

  // ---------------------------------------------------------------- writing

  /** `WriteInt32ToArray` and `WriteInt64ToArray`. */
  function WriteInt(n: FieldNumber, v: Int64, target: Bytes): Bytes {
    target + EncodeTag(n, VARINT) + Varint(SignExtend(v))
  }

  function WriteBool(n: FieldNumber, v: bool, target: Bytes): Bytes {
    target + EncodeTag(n, VARINT) + Varint(if v then 1 else 0)
  }

  /** `WriteString` and `WriteStringMaybeAliased`. */
  function WriteText(n: FieldNumber, s: Bytes, target: Bytes): Bytes {
    target + EncodeTag(n, LENGTH_DELIMITED) + Varint(|s| % TWO_32) + s
  }

  lemma EncodeNothing()
    ensures EncodeAll([]) == []
  {
  }

  lemma EncodeOne(f: Field)
    ensures EncodeAll([f]) == Encode(f)
  {
    assert [f][1..] == [];
  }

  lemma WriteIntExact(n: FieldNumber, v: Int64, target: Bytes)
    ensures (if v == 0 then target else WriteInt(n, v, target)) == target + EncodeAll(IntRecord(n, v))
  {
    if v != 0 {
      EncodeOne(VarintField(n, SignExtend(v)));
    }
  }

  lemma WriteBoolExact(n: FieldNumber, v: bool, target: Bytes)
    ensures (if v then WriteBool(n, v, target) else target) == target + EncodeAll(BoolRecord(n, v))
  {
    if v {
      EncodeOne(VarintField(n, 1));
    }
  }

  lemma WriteTextExact(n: FieldNumber, s: Bytes, target: Bytes)
    ensures WriteText(n, s, target) == target + EncodeAll([BytesField(n, s)])
  {
    EncodeOne(BytesField(n, s));
  }

  lemma EncodeBytesRecords(n: FieldNumber, vs: seq<Bytes>, v: Bytes)
    ensures EncodeAll(BytesRecords(n, vs + [v])) == EncodeAll(BytesRecords(n, vs)) + EncodeAll([BytesField(n, v)])
  {
    BytesRecordsAppend(n, vs, v);
    EncodeAllAppend(BytesRecords(n, vs), [BytesField(n, v)]);
  }

  lemma {:induction false} BytesRecordsAppend(n: FieldNumber, vs: seq<Bytes>, v: Bytes)
    ensures BytesRecords(n, vs + [v]) == BytesRecords(n, vs) + [BytesField(n, v)]
  {
    if vs == [] {
      assert vs + [v] == [v] && [v][1..] == [];
    } else {
      assert (vs + [v])[1..] == vs[1..] + [v];
      BytesRecordsAppend(n, vs[1..], v);
    }
  }

  // ---------------------------------------------------------------- writing part by part

  /** What is printed before part `j`. */
  function PrintedUpTo(parts: seq<seq<Field>>, j: nat): Bytes
    requires j <= |parts|
  {
    EncodeAll(Concat(parts[..j]))
  }

  lemma PrintedNext(parts: seq<seq<Field>>, j: nat, target: Bytes)
    requires j < |parts|
    ensures target + PrintedUpTo(parts, j) + EncodeAll(parts[j]) == target + PrintedUpTo(parts, j + 1)
  {
    hide EncodeAll, Concat;
    assert parts[..j + 1] == parts[..j] + [parts[j]];
    EncodeConcat(parts[..j], parts[j]);
  }

  lemma PrintedEnds(parts: seq<seq<Field>>)
    ensures PrintedUpTo(parts, 0) == [] && PrintedUpTo(parts, |parts|) == EncodeAll(Concat(parts))
  {
    assert parts[..|parts|] == parts;
  }

  // Printing field `n`, which is part `n - 1`, moves on to the next part.

  lemma WroteText(parts: seq<seq<Field>>, n: FieldNumber, s: Bytes, target: Bytes, out: Bytes)
    requires n <= |parts| && parts[n - 1] == TextRecord(n, s) && out == target + PrintedUpTo(parts, n - 1)
    ensures (if s == [] then out else WriteText(n, s, out)) == target + PrintedUpTo(parts, n)
  {
    hide EncodeAll, PrintedUpTo, WriteText;
    PrintedNext(parts, n - 1, target);
    WriteTextExact(n, s, out);
    EncodeNothing();
  }

  lemma WroteInt(parts: seq<seq<Field>>, n: FieldNumber, v: Int64, target: Bytes, out: Bytes)
    requires n <= |parts| && parts[n - 1] == IntRecord(n, v) && out == target + PrintedUpTo(parts, n - 1)
    ensures (if v == 0 then out else WriteInt(n, v, out)) == target + PrintedUpTo(parts, n)
  {
    hide EncodeAll, PrintedUpTo;
    PrintedNext(parts, n - 1, target);
    WriteIntExact(n, v, out);
  }

  lemma WroteBool(parts: seq<seq<Field>>, n: FieldNumber, v: bool, target: Bytes, out: Bytes)
    requires n <= |parts| && parts[n - 1] == BoolRecord(n, v) && out == target + PrintedUpTo(parts, n - 1)
    ensures (if v then WriteBool(n, v, out) else out) == target + PrintedUpTo(parts, n)
  {
    hide EncodeAll, PrintedUpTo;
    PrintedNext(parts, n - 1, target);
    WriteBoolExact(n, v, out);
  }

  /** The unknown fields are the last part. */
  lemma WroteUnknown(parts: seq<seq<Field>>, target: Bytes, out: Bytes)
    requires parts != [] && out == target + PrintedUpTo(parts, |parts| - 1)
    ensures var unknown := parts[|parts| - 1];
            (if unknown == [] then out else out + EncodeAll(unknown)) == target + EncodeAll(Concat(parts))
  {
    PrintedEnds(parts);
    hide EncodeAll, PrintedUpTo;
    PrintedNext(parts, |parts| - 1, target);
    EncodeNothing();
  }

  // ---------------------------------------------------------------- sizes

  /** `StringSize` and the size of a nested message: the length prefix and the contents. */
  function DelimitedSize(length: nat): nat {
    VarintSize(length % TWO_32) + length
  }

  /** What one `if` of a `ByteSizeLong` adds to the total. */
  function SizeIf(present: bool, size: nat): nat {
    if present then size else 0
  }

  function IntSize(v: Int64): nat {
    VarintSize(SignExtend(v))
  }

  lemma IntSizeExact(n: FieldNumber, v: Int64)
    requires n < 16
    ensures |EncodeAll(IntRecord(n, v))| == if v == 0 then 0 else 1 + IntSize(v)
  {
    if v != 0 {
      EncodeOne(VarintField(n, SignExtend(v)));
      VarintSizeExact(SignExtend(v));
    }
  }

  lemma BoolSizeExact(n: FieldNumber, v: bool)
    requires n < 16
    ensures |EncodeAll(BoolRecord(n, v))| == if v then 2 else 0
  {
    if v {
      EncodeOne(VarintField(n, 1));
    }
  }

  lemma TextSizeExact(n: FieldNumber, s: Bytes)
    requires n < 16
    ensures |EncodeAll([BytesField(n, s)])| == 1 + DelimitedSize(|s|)
  {
    EncodeOne(BytesField(n, s));
    VarintSizeExact(|s| % TWO_32);
  }

  lemma TextRecordSize(n: FieldNumber, s: Bytes)
    requires n < 16
    ensures |EncodeAll(TextRecord(n, s))| == SizeIf(s != [], 1 + DelimitedSize(|s|))
  {
    hide DelimitedSize, EncodeAll;
    TextSizeExact(n, s);
    EncodeNothing();
  }

  /** The printed sizes of the first `j` parts. */
  function PartsSize(parts: seq<seq<Field>>, j: nat): nat
    requires j <= |parts|
    decreases j
  {
    if j == 0 then 0 else PartsSize(parts, j - 1) + |EncodeAll(parts[j - 1])|
  }

  lemma {:induction false} PartsSizeExact(parts: seq<seq<Field>>, j: nat)
    requires j <= |parts|
    ensures |PrintedUpTo(parts, j)| == PartsSize(parts, j)
    decreases j
  {
    PrintedEnds(parts);
    if j > 0 {
      hide EncodeAll, PrintedUpTo;
      PartsSizeExact(parts, j - 1);
      PrintedNext(parts, j - 1, []);
    }
  }

  /** `ComputeUnknownFieldsSize`, field by field. */
  function FieldSize(f: Field): nat
    decreases f, 0
  {
    match f
    case VarintField(n, v) => VarintSize(MakeTag(n, VARINT)) + VarintSize(v)
    case Fixed64Field(n, _) => VarintSize(MakeTag(n, FIXED64)) + 8
    case BytesField(n, data) => VarintSize(MakeTag(n, LENGTH_DELIMITED)) + VarintSize(|data| % TWO_32) + |data|
    case GroupField(n, fields) =>
      VarintSize(MakeTag(n, START_GROUP)) + FieldsSize(fields) + VarintSize(MakeTag(n, END_GROUP))
    case Fixed32Field(n, _) => VarintSize(MakeTag(n, FIXED32)) + 4
  }

  function FieldsSize(fs: seq<Field>): nat
    decreases fs, 0
  {
    if fs == [] then 0 else FieldSize(fs[0]) + FieldsSize(fs[1..])
  }

  lemma {:induction false} FieldSizeExact(f: Field)
    ensures FieldSize(f) == |Encode(f)|
    decreases f, 0
  {
    hide Varint, Fixed, VarintSize;
    VarintSizeExact(MakeTag(f.number, WireType(f)));
    match f
    case VarintField(_, v) => VarintSizeExact(v);
    case BytesField(_, data) => VarintSizeExact(|data| % TWO_32);
    case GroupField(n, fields) =>
      VarintSizeExact(MakeTag(n, END_GROUP));
      FieldsSizeExact(fields);
    case _ =>
  }

  lemma {:induction false} FieldsSizeExact(fs: seq<Field>)
    ensures FieldsSize(fs) == |EncodeAll(fs)|
    decreases fs, 0
  {
    if fs != [] {
      hide FieldSize, Encode;
      FieldSizeExact(fs[0]);
      FieldsSizeExact(fs[1..]);
    }
  }
}
