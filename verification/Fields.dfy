/**
 Wire records: one tag and its payload. The same type serves for what a message
 parser meets on the wire and for what an `UnknownFieldSet` stores.
 Protocol Buffers Encoding, sections "Message Structure" and "Length-Delimited Records".
 */
module Fields {
  import opened Wire

  type FieldNumber = n: int | 1 <= n < 0x2000_0000 witness 1

  datatype Field =
    | VarintField(number: FieldNumber, value: UInt64)
    | Fixed64Field(number: FieldNumber, fixed64: UInt64)
    | BytesField(number: FieldNumber, data: Bytes)
    | GroupField(number: FieldNumber, fields: seq<Field>)
    | Fixed32Field(number: FieldNumber, fixed32: UInt32)

  const VARINT: int := 0
  const FIXED64: int := 1
  const LENGTH_DELIMITED: int := 2
  const START_GROUP: int := 3
  const END_GROUP: int := 4
  const FIXED32: int := 5

  /** What a parser can ever produce: every length is one a prefix may announce. */
  predicate WellFormed(f: Field) {
    match f
    case BytesField(_, data) => |data| <= MAX_LENGTH
    case GroupField(_, fields) => forall g :: g in fields ==> WellFormed(g)
    case _ => true
  }

  predicate AllWellFormed(fs: seq<Field>) {
    forall f :: f in fs ==> WellFormed(f)
  }

  // ---------------------------------------------------------------- printing

  function MakeTag(number: FieldNumber, wireType: int): UInt32
    requires 0 <= wireType < 8
  {
    number * 8 + wireType
  }

  function EncodeTag(number: FieldNumber, wireType: int): (r: Bytes)
    requires 0 <= wireType < 8
    ensures |r| > 0
  {
    Varint(MakeTag(number, wireType))
  }

  function WireType(f: Field): (w: int)
    ensures 0 <= w < 8 && w != END_GROUP
  {
    match f
    case VarintField(_, _) => VARINT
    case Fixed64Field(_, _) => FIXED64
    case BytesField(_, _) => LENGTH_DELIMITED
    case GroupField(_, _) => START_GROUP
    case Fixed32Field(_, _) => FIXED32
  }

  function EncodePayload(f: Field): Bytes
    decreases f, 0
  {
    match f
    case VarintField(_, v) => Varint(v)
    case Fixed64Field(_, v) => Fixed(v, 8)
    case BytesField(_, data) => Delimited(data)
    case GroupField(n, fields) => EncodeAll(fields) + EncodeTag(n, END_GROUP)
    case Fixed32Field(_, v) => Fixed(v, 4)
  }

  function Encode(f: Field): (r: Bytes)
    ensures |r| > 0
    decreases f, 1
  {
    EncodeTag(f.number, WireType(f)) + EncodePayload(f)
  }

  function EncodeAll(fs: seq<Field>): Bytes
    decreases fs
  {
    if fs == [] then [] else Encode(fs[0]) + EncodeAll(fs[1..])
  }

  // ---------------------------------------------------------------- reading

  /** How a run of fields ended: on bad input, at the limit, or at a tag that stops the
      loop (tag 0 or an end-group tag) with `left` bytes still ahead. */
  datatype End = Broken | AtLimit | AtTag(tag: UInt32, left: nat)

  datatype Step = Malformed | Stop(tag: UInt32, left: nat) | Got(field: Field, taken: nat)

  datatype Scan = Scan(fields: seq<Field>, end: End)

  predicate IsStop(tag: UInt32) {
    tag == 0 || tag % 8 == END_GROUP
  }

  /** `UnknownFieldParse`: the payload that belongs to `tag`. */
  function ReadPayload(tag: UInt32, s: Bytes): (r: Step)
    ensures !r.Stop?
    ensures r.Got? ==> 0 < r.taken <= |s| && r.field.number == tag / 8
    decreases |s|, 2
  {
    if tag / 8 == 0 then Malformed
    else
      var number: FieldNumber := tag / 8;
      match tag % 8
      case 0 =>
        (match ReadVarint64(s)
         case Bad => Malformed
         case Read(v, n) => Got(VarintField(number, v), n))
      case 1 =>
        Powers();
        (match ReadFixed(s, 8)
         case Bad => Malformed
         case Read(v, n) => Got(Fixed64Field(number, v), n))
      case 2 =>
        (match ReadDelimited(s)
         case Bad => Malformed
         case Read(data, n) => Got(BytesField(number, data), n))
      case 3 =>
        var inner := ScanFields(s);
        if inner.end.AtTag? && inner.end.tag == tag + 1
        then Got(GroupField(number, inner.fields), |s| - inner.end.left)
        else Malformed
      case 5 =>
        Powers();
        (match ReadFixed(s, 4)
         case Bad => Malformed
         case Read(v, n) => Got(Fixed32Field(number, v), n))
      case _ => Malformed
  }

  /** The two payload forms the generated parsers read for themselves. */
  lemma PayloadForms(tag: UInt32, s: Bytes)
    requires tag / 8 != 0
    ensures tag % 8 == VARINT && ReadVarint64(s).Bad? ==> ReadPayload(tag, s) == Malformed
    ensures tag % 8 == VARINT && ReadVarint64(s).Read? ==>
              ReadPayload(tag, s) == Got(VarintField(tag / 8, ReadVarint64(s).value), ReadVarint64(s).taken)
    ensures tag % 8 == LENGTH_DELIMITED && ReadDelimited(s).Bad? ==> ReadPayload(tag, s) == Malformed
    ensures tag % 8 == LENGTH_DELIMITED && ReadDelimited(s).Read? ==>
              ReadPayload(tag, s) == Got(BytesField(tag / 8, ReadDelimited(s).value), ReadDelimited(s).taken)
  {
    hide ScanFields, ReadDelimited, ReadVarint64, ReadFixed;
  }

  /** A group is the fields up to the end-group tag of its number. */
  lemma GroupForm(n: FieldNumber, s: Bytes)
    ensures var inner := ScanFields(s);
            inner.end.AtTag? && inner.end.tag == MakeTag(n, END_GROUP) ==>
              ReadPayload(MakeTag(n, START_GROUP), s) == Got(GroupField(n, inner.fields), |s| - inner.end.left)
  {
    hide ScanFields, ReadDelimited, ReadVarint64, ReadFixed;
  }

  /** One tag and, unless the tag stops the loop, its payload. */
  function ReadField(s: Bytes): (r: Step)
    ensures r.Stop? ==> r.left < |s| && IsStop(r.tag)
    ensures r.Got? ==> 0 < r.taken <= |s|
    decreases |s|, 0
  {
    match ReadTag(s)
    case Bad => Malformed
    case Read(tag, n) =>
      if IsStop(tag) then Stop(tag, |s| - n)
      else match ReadPayload(tag, s[n..])
        case Got(f, k) => Got(f, n + k)
        case _ => Malformed
  }

  /** The field loop without any message type: fields until the limit or a stopping tag. */
  function ScanFields(s: Bytes): (r: Scan)
    ensures r.end.AtTag? ==> r.end.left < |s| && IsStop(r.end.tag)
    decreases |s|, 1
  {
    if s == [] then Scan([], AtLimit)
    else match ReadField(s)
      case Malformed => Scan([], Broken)
      case Stop(tag, left) => Scan([], AtTag(tag, left))
      case Got(f, n) =>
        var more := ScanFields(s[n..]);
        Scan([f] + more.fields, more.end)
  }

  lemma ScanStep(head: Bytes, f: Field, rest: Bytes)
    requires ReadField(head + rest) == Got(f, |head|)
    ensures ScanFields(head + rest) == Scan([f] + ScanFields(rest).fields, ScanFields(rest).end)
  {
    assert (head + rest)[|head|..] == rest;
  }

  // ---------------------------------------------------------------- what is read is well formed

  lemma {:induction false} PayloadIsWellFormed(tag: UInt32, s: Bytes)
    ensures ReadPayload(tag, s).Got? ==> WellFormed(ReadPayload(tag, s).field)
    decreases |s|, 2
  {
    if tag / 8 != 0 && tag % 8 == START_GROUP {
      ScanIsWellFormed(s);
    }
  }

  lemma {:induction false} ScanIsWellFormed(s: Bytes)
    ensures AllWellFormed(ScanFields(s).fields)
    decreases |s|, 1
  {
    if s != [] && ReadField(s).Got? {
      var tag := ReadTag(s);
      PayloadIsWellFormed(tag.value, s[tag.taken..]);
      ScanIsWellFormed(s[ReadField(s).taken..]);
    }
  }

  // ---------------------------------------------------------------- locality

  /** The first `n` bytes of `s` and `t` are the same. */
  predicate Agree(s: Bytes, t: Bytes, n: nat) {
    n <= |s| && n <= |t| && s[..n] == t[..n]
  }

  lemma AgreeShorter(s: Bytes, t: Bytes, n: nat, k: nat)
    requires Agree(s, t, n) && k <= n
    ensures Agree(s, t, k) && Agree(s[k..], t[k..], n - k)
  {
    assert s[..k] == s[..n][..k] == t[..n][..k] == t[..k];
    assert s[k..][..n - k] == s[..n][k..] == t[..n][k..] == t[k..][..n - k];
  }

  /** A payload that was read depends only on the bytes it took. */
  lemma {:induction false} PayloadLocal(tag: UInt32, s: Bytes, t: Bytes)
    requires ReadPayload(tag, s).Got? && Agree(s, t, ReadPayload(tag, s).taken)
    ensures ReadPayload(tag, t) == ReadPayload(tag, s)
    decreases |s|, 2
  {
    match tag % 8
    case 0 => ReadBase128Local(s, t, 10);
    case 1 => ReadFixedLocal(s, t, 8);
    case 2 => ReadDelimitedLocal(s, t);
    case 3 => ScanLocal(s, t);
    case 5 => ReadFixedLocal(s, t, 4);
    case _ =>
  }

  /** Likewise for one whole field, or a stopping tag. */
  lemma {:induction false} FieldLocal(s: Bytes, t: Bytes)
    requires ReadField(s).Got? ==> Agree(s, t, ReadField(s).taken)
    requires ReadField(s).Stop? ==> Agree(s, t, |s| - ReadField(s).left)
    requires !ReadField(s).Malformed?
    ensures ReadField(s).Got? ==> ReadField(t) == ReadField(s)
    ensures ReadField(s).Stop? ==>
              ReadField(t) == Stop(ReadField(s).tag, |t| - |s| + ReadField(s).left)
    decreases |s|, 0
  {
    var tag := ReadTag(s);
    AgreeShorter(s, t, if ReadField(s).Got? then ReadField(s).taken else |s| - ReadField(s).left, tag.taken);
    ReadBase128Local(s, t, 5);
    if ReadField(s).Got? {
      PayloadLocal(tag.value, s[tag.taken..], t[tag.taken..]);
    }
  }

  /** Likewise for the fields up to a stopping tag. */
  lemma {:induction false} ScanLocal(s: Bytes, t: Bytes)
    requires ScanFields(s).end.AtTag? && Agree(s, t, |s| - ScanFields(s).end.left)
    ensures ScanFields(t).fields == ScanFields(s).fields
    ensures ScanFields(t).end == AtTag(ScanFields(s).end.tag, |t| - |s| + ScanFields(s).end.left)
    decreases |s|, 1
  {
    hide ReadField;
    var upTo := |s| - ScanFields(s).end.left;
    if ReadField(s).Stop? {
      FieldLocal(s, t);
    } else {
      var n := ReadField(s).taken;
      assert ScanFields(s).fields == [ReadField(s).field] + ScanFields(s[n..]).fields;
      AgreeShorter(s, t, upTo, n);
      FieldLocal(s, t);
      ScanLocal(s[n..], t[n..]);
    }
  }

  /** Scanning `s` up to its limit, then `t`, is scanning `s + t`. */
  lemma {:induction false} ScanAppend(s: Bytes, t: Bytes)
    requires ScanFields(s).end == AtLimit
    ensures ScanFields(s + t) == Scan(ScanFields(s).fields + ScanFields(t).fields, ScanFields(t).end)
    decreases |s|
  {
    if s == [] {
      assert s + t == t;
    } else {
      var f, n := ReadField(s).field, ReadField(s).taken;
      var head, rest := s[..n], s[n..];
      assert ScanFields(s) == Scan([f] + ScanFields(rest).fields, ScanFields(rest).end);
      hide ReadField, ScanFields;
      assert s == head + rest && s + t == head + (rest + t) && (s + t)[..n] == s[..n];
      FieldLocal(s, s + t);
      ScanStep(head, f, rest + t);
      ScanAppend(rest, t);
      AppendAssociates([f], ScanFields(rest).fields, ScanFields(t).fields);
    }
  }

  lemma AppendAssociates<T>(a: seq<T>, b: seq<T>, c: seq<T>)
    ensures (a + b) + c == a + (b + c)
  {
  }

  /** One whole record in front of more input. */
  lemma ScanOne(e: Bytes, rest: Bytes, f: Field)
    requires ReadField(e) == Got(f, |e|)
    ensures ScanFields(e + rest) == Scan([f] + ScanFields(rest).fields, ScanFields(rest).end)
  {
    hide ReadField, ScanFields;
    FieldLocal(e, e + rest);
    ScanStep(e, f, rest);
  }

  /** Two whole records in front of more input. */
  lemma ScanPair(e: Bytes, d: Bytes, rest: Bytes, f: Field, g: Field)
    requires ReadField(e) == Got(f, |e|) && ReadField(d) == Got(g, |d|)
    ensures ScanFields(e + d + rest) == Scan([f, g] + ScanFields(rest).fields, ScanFields(rest).end)
  {
    hide ReadField, ScanFields;
    AppendAssociates(e, d, rest);
    ScanOne(e, d + rest, f);
    ScanOne(d, rest, g);
    AppendAssociates([f], [g], ScanFields(rest).fields);
    assert [f] + [g] == [f, g];
  }

  // ---------------------------------------------------------------- printing, then reading

  lemma {:induction false} EncodeAllAppend(fs: seq<Field>, gs: seq<Field>)
    ensures EncodeAll(fs + gs) == EncodeAll(fs) + EncodeAll(gs)
  {
    if fs == [] {
      assert fs + gs == gs;
    } else {
      assert (fs + gs)[1..] == fs[1..] + gs;
      EncodeAllAppend(fs[1..], gs);
    }
  }

  lemma EncodeAllHead(fs: seq<Field>, t: Bytes)
    requires fs != []
    ensures EncodeAll(fs) + t == Encode(fs[0]) + (EncodeAll(fs[1..]) + t)
  {
  }

  /** A printed field is read back whole, whatever follows it. */
  lemma {:induction false} ReadEncoded(f: Field, t: Bytes)
    requires WellFormed(f)
    ensures ReadField(Encode(f) + t) == Got(f, |Encode(f)|)
    decreases f, 1
  {
    var tag := MakeTag(f.number, WireType(f));
    var payload := EncodePayload(f);
    var s := Encode(f) + t;
    assert s == Varint(tag) + (payload + t);
    ReadTagVarint(tag, payload + t);
    assert s[|Varint(tag)|..] == payload + t;
    ReadEncodedPayload(f, t);
  }

  lemma {:induction false} ReadEncodedPayload(f: Field, t: Bytes)
    requires WellFormed(f)
    ensures ReadPayload(MakeTag(f.number, WireType(f)), EncodePayload(f) + t) == Got(f, |EncodePayload(f)|)
    decreases f, 0
  {
    hide Varint, Fixed, ReadFixed, Delimited, ReadDelimited, ReadVarint64;
    Powers();
    match f
    case VarintField(_, v) => ReadVarint64Varint(v, t);
    case Fixed64Field(_, v) => ReadFixedFixed(v, 8, t);
    case BytesField(_, data) => ReadDelimitedDelimited(data, t);
    case GroupField(n, fields) =>
      ScanEncoded(fields, EncodeTag(n, END_GROUP) + t);
      ScanStops(n, t);
      assert fields + [] == fields;
      ReadGroup(n, fields, t);
    case Fixed32Field(_, v) => ReadFixedFixed(v, 4, t);
  }

  lemma ScanStops(n: FieldNumber, t: Bytes)
    ensures ScanFields(EncodeTag(n, END_GROUP) + t) == Scan([], AtTag(MakeTag(n, END_GROUP), |t|))
  {
    hide Varint, ReadTag, ReadPayload;
    ReadTagVarint(MakeTag(n, END_GROUP), t);
    assert ReadField(EncodeTag(n, END_GROUP) + t) == Stop(MakeTag(n, END_GROUP), |t|);
  }

  /** An end-group tag of the same number closes a group. */
  lemma ReadGroup(n: FieldNumber, fields: seq<Field>, t: Bytes)
    requires ScanFields(EncodeAll(fields) + (EncodeTag(n, END_GROUP) + t))
             == Scan(fields, AtTag(MakeTag(n, END_GROUP), |t|))
    ensures var payload := EncodePayload(GroupField(n, fields));
            ReadPayload(MakeTag(n, START_GROUP), payload + t) == Got(GroupField(n, fields), |payload|)
  {
    hide EncodeTag, ScanFields, ReadPayload, EncodeAll;
    var close := EncodeTag(n, END_GROUP);
    assert EncodePayload(GroupField(n, fields)) + t == EncodeAll(fields) + (close + t);
    GroupForm(n, EncodeAll(fields) + (close + t));
  }

  lemma HeadAndTail<T>(xs: seq<T>, ys: seq<T>)
    requires xs != []
    ensures xs + ys == [xs[0]] + (xs[1..] + ys)
  {
  }

  lemma ScanEncodedStep(fs: seq<Field>, t: Bytes)
    requires fs != []
    requires ReadField(Encode(fs[0]) + (EncodeAll(fs[1..]) + t)) == Got(fs[0], |Encode(fs[0])|)
    requires ScanFields(EncodeAll(fs[1..]) + t) == Scan(fs[1..] + ScanFields(t).fields, ScanFields(t).end)
    ensures ScanFields(EncodeAll(fs) + t) == Scan(fs + ScanFields(t).fields, ScanFields(t).end)
  {
    hide Encode, ReadField, ScanFields;
    EncodeAllHead(fs, t);
    ScanStep(Encode(fs[0]), fs[0], EncodeAll(fs[1..]) + t);
    HeadAndTail(fs, ScanFields(t).fields);
  }

  lemma {:induction false} ScanEncoded(fs: seq<Field>, t: Bytes)
    requires AllWellFormed(fs)
    ensures ScanFields(EncodeAll(fs) + t) == Scan(fs + ScanFields(t).fields, ScanFields(t).end)
    decreases fs
  {
    if fs == [] {
      assert EncodeAll(fs) + t == t;
    } else {
      hide EncodeAll, ReadField, ScanFields, WellFormed;
      ReadEncoded(fs[0], EncodeAll(fs[1..]) + t);
      ScanEncoded(fs[1..], t);
      ScanEncodedStep(fs, t);
    }
  }

  /** Printed fields are read back exactly when they are well formed. */
  lemma FieldsRoundTrip(fs: seq<Field>)
    ensures ScanFields(EncodeAll(fs)) == Scan(fs, AtLimit) <==> AllWellFormed(fs)
  {
    if AllWellFormed(fs) {
      ScanEncoded(fs, []);
      assert EncodeAll(fs) + [] == EncodeAll(fs);
    }
    ScanIsWellFormed(EncodeAll(fs));
  }

  /** A field read from a prefix of printed fields is the first of them. */
  lemma PrefixHead(fs: seq<Field>, k: nat)
    requires fs != [] && AllWellFormed(fs) && 0 < k <= |EncodeAll(fs)|
    requires ReadField(EncodeAll(fs)[..k]).Got?
    ensures var n := |Encode(fs[0])|;
            && n <= k && ReadField(EncodeAll(fs)[..k]).taken == n
            && EncodeAll(fs)[..k][n..] == EncodeAll(fs[1..])[..k - n]
  {
    hide Encode, ReadField, WellFormed;
    var s := EncodeAll(fs)[..k];
    assert s[..ReadField(s).taken] == EncodeAll(fs)[..ReadField(s).taken];
    FieldLocal(s, EncodeAll(fs));
    ReadEncoded(fs[0], EncodeAll(fs[1..]));
  }

  /** A prefix of printed fields that ends between fields holds fewer of them. */
  lemma {:induction false} PrefixScan(fs: seq<Field>, k: nat)
    requires AllWellFormed(fs) && k <= |EncodeAll(fs)|
    requires ScanFields(EncodeAll(fs)[..k]).end == AtLimit
    ensures |ScanFields(EncodeAll(fs)[..k]).fields| <= |fs|
    ensures k < |EncodeAll(fs)| ==> |ScanFields(EncodeAll(fs)[..k]).fields| < |fs|
    decreases fs
  {
    if k > 0 {
      hide Encode, ReadField, WellFormed;
      PrefixHead(fs, k);
      PrefixScan(fs[1..], k - |Encode(fs[0])|);
    }
  }
}
