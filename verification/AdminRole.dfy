/**
 `admin.Role` as the object the generated code updates in place. Its parser reads runs of
 `permissions` in an inner loop, as long as the next byte is that field's tag.
 */
module AdminRole {
  import opened Wire
  import opened Utf8
  import opened Fields
  import opened Dispatch
  import opened Printing
  import opened RoleCodec

  class Role {
    var id: Int32
    var name: Bytes
    var description: Bytes
    var permissions: seq<Bytes>
    var active: bool
    var createdAt: Bytes
    var unknown: seq<Field>
    var cachedSize: Int32

    /** The message this object holds. */
    function Value(): RoleData
      reads this
    {
      RoleData(id, name, description, permissions, active, createdAt, unknown)
    }

    constructor ()
      ensures Value() == EMPTY && cachedSize == 0
    {
      id, name, description, permissions := 0, [], [], [];
      active, createdAt, unknown, cachedSize := false, [], [], 0;
    }

    method Clear()
      modifies this
      ensures Value() == EMPTY && cachedSize == old(cachedSize)
    {
      permissions, name, description, createdAt := [], [], [], [];
      id, active := 0, false;
      unknown := [];
    }

    /** The batch of `permissions` whose first tag has just been read; `p` is behind that tag.
        Whenever the runtime cannot see the next byte yet, `available`, the batch may stop
        early: the outcome is that of reading the same records one tag at a time. */
    method ParsePermissions(data: Bytes, p: nat, limit: nat) returns (ok: bool, next: nat)
      requires p <= limit <= |data|
      modifies this
      ensures p <= next <= limit && cachedSize == old(cachedSize)
      ensures ok ==> p < next
      ensures ok ==> Parse(Apply, old(Value()), [34] + data[p..limit]) == Parse(Apply, Value(), data[next..limit])
      ensures !ok ==> Parse(Apply, old(Value()), [34] + data[p..limit]) == Failed
    {
      hide ReadDelimited, ValidUtf8, Apply, Parse;
      next := p;
      while true
        invariant p <= next <= limit && cachedSize == old(cachedSize)
        invariant Parse(Apply, old(Value()), [34] + data[p..limit]) == Parse(Apply, Value(), [34] + data[next..limit])
        decreases limit - next
      {
        ghost var s := data[next..limit];
        PermissionStep(Value(), s);
        var text := ReadDelimited(data[next..limit]);
        if text.Bad? {
          return false, next;
        }
        SliceOfSlice(data, next, limit, text.taken, text.taken);
        permissions, next := permissions + [text.value], next + text.taken;
        if !ValidUtf8(text.value) {
          return false, next;
        }
        var available: bool := *;
        if next == limit || !available {
          return true, next;
        }
        if data[next] != 34 {
          return true, next;
        }
        SliceHead(data, next, limit);
        next := next + 1;
      }
    }

    /** The `switch` on the field number, for every payload but a batch of permissions. */
    method ParsePayload(tag: UInt32, data: Bytes, p: nat, limit: nat) returns (ok: bool, next: nat)
      requires p <= limit <= |data| && !IsStop(tag) && tag != 34
      modifies this
      ensures p <= next <= limit && cachedSize == old(cachedSize)
      ensures var step := ReadPayload(tag, data[p..limit]);
              if step.Got? && Apply(old(Value()), step.field).Some?
              then ok && next == p + step.taken && Value() == Apply(old(Value()), step.field).value
              else !ok
    {
      if tag / 8 != 0 {
        PayloadForms(tag, data[p..limit]);
      }
      hide ReadPayload, ReadDelimited, ReadVarint64, ValidUtf8;
      var number, wireType := tag / 8, tag % 8;
      if IsTextNumber(number) && wireType == LENGTH_DELIMITED {
        var text := ReadDelimited(data[p..limit]);
        if text.Bad? {
          return false, p;
        }
        if number == 2 {
          name := text.value;
        } else if number == 3 {
          description := text.value;
        } else {
          createdAt := text.value;
        }
        return ValidUtf8(text.value), p + text.taken;
      } else if number == 1 && wireType == VARINT {
        var v := ReadVarint32(data[p..limit]);
        if v.Bad? {
          return false, p;
        }
        id := v.value;
        return true, p + v.taken;
      } else if number == 5 && wireType == VARINT {
        var v := ReadVarint64(data[p..limit]);
        if v.Bad? {
          return false, p;
        }
        active := v.value != 0;
        return true, p + v.taken;
      } else {
        var field := ReadPayload(tag, data[p..limit]);
        if !field.Got? {
          return false, p;
        }
        unknown := unknown + [field.field];
        return true, p + field.taken;
      }
    }

    /** The tag loop over `data[start..limit]`. The outcome is that of the one-record-per-tag
        dispatch, wherever batches break and however tags are padded. */
    method InternalParse(data: Bytes, start: nat, limit: nat) returns (ok: bool, ptr: nat, end: End)
      requires start <= limit <= |data|
      modifies this
      ensures start <= ptr <= limit && cachedSize == old(cachedSize)
      ensures ok <==> Parse(Apply, old(Value()), data[start..limit]).Parsed?
      ensures ok ==> Parse(Apply, old(Value()), data[start..limit]) == Parsed(Value(), end)
      ensures ok ==> ptr == if end.AtTag? then limit - end.left else limit
    {
      ok, ptr, end := true, start, AtLimit;
      hide Apply, ReadPayload, Value, Parse;
      while ptr < limit
        invariant start <= ptr <= limit && cachedSize == old(cachedSize)
        invariant Parse(Apply, old(Value()), data[start..limit]) == Parse(Apply, Value(), data[ptr..limit])
      {
        ghost var s, head := data[ptr..limit], ptr;
        ParseStep(Apply, Value(), s);
        var read := ReadTag(data[ptr..limit]);
        if read.Bad? {
          return false, ptr, AtLimit;
        }
        var tag, p := read.value, ptr + read.taken;
        SliceOfSlice(data, ptr, limit, read.taken, read.taken);
        if IsStop(tag) {
          return true, p, AtTag(tag, limit - p);
        }
        if tag == 34 {
          ShortTag(Apply, Value(), s, 34);
          ok, ptr := ParsePermissions(data, p, limit);
        } else {
          ok, ptr := ParsePayload(tag, data, p, limit);
          SliceOfSlice(data, head, limit, ptr - head, ptr - head);
        }
        if !ok {
          return false, ptr, AtLimit;
        }
      }
      assert data[ptr..limit] == [];
      ParseNothing(Apply, Value());
    }

    /** Prints the fields in number order, then the unknown fields. */
    method InternalSerialize(target: Bytes) returns (out: Bytes)
      ensures out == target + Print(Value())
    {
      ghost var r := Value();
      ghost var parts := Parts(r);
      PartsAre(r);
      PrintedEnds(parts);
      hide EncodeAll, PrintedUpTo, Print, WriteText, WriteInt, WriteBool, Parts;
      out := target;
      WroteInt(parts, 1, id, target, out);
      out := if id != 0 then WriteInt(1, id, out) else out;
      WroteText(parts, 2, name, target, out);
      out := if name != [] then WriteText(2, name, out) else out;
      WroteText(parts, 3, description, target, out);
      out := if description != [] then WriteText(3, description, out) else out;
      out := WritePermissions(target, out);
      WroteBool(parts, 5, active, target, out);
      out := if active then WriteBool(5, active, out) else out;
      WroteText(parts, 6, createdAt, target, out);
      out := if createdAt != [] then WriteText(6, createdAt, out) else out;
      WroteUnknown(parts, target, out);
      out := if unknown != [] then out + EncodeAll(unknown) else out;
    }

    /** The loop that prints every permission. */
    method WritePermissions(ghost target: Bytes, start: Bytes) returns (out: Bytes)
      requires start == target + PrintedUpTo(Parts(Value()), 3)
      ensures out == target + PrintedUpTo(Parts(Value()), 4)
    {
      hide EncodeAll, PrintedUpTo, BytesRecords, WriteText;
      out := start;
      EncodeNothing();
      assert BytesRecords(4, permissions[..0]) == [] by { NoRecords(); }
      var i := 0;
      while i < |permissions|
        invariant i <= |permissions|
        invariant out == start + EncodeAll(BytesRecords(4, permissions[..i]))
      {
        EncodeBytesRecords(4, permissions[..i], permissions[i]);
        assert permissions[..i + 1] == permissions[..i] + [permissions[i]];
        WriteTextExact(4, permissions[i], out);
        out := WriteText(4, permissions[i], out);
        i := i + 1;
      }
      assert permissions[..i] == permissions;
      PrintedNext(Parts(Value()), 3, target);
    }

    /** Counts the bytes that will be printed and leaves the count in `cachedSize`, an `int`. */
    method ByteSizeLong() returns (total: nat)
      modifies this`cachedSize
      ensures total == |Print(Value())| && cachedSize == ToInt32(total)
    {
      PrintedLength(Value());
      hide DelimitedSize, IntSize, Print, FieldsSize, SizeIf, StringSizes;
      NoStrings();
      total := 1 * |permissions|;
      var i := 0;
      while i < |permissions|
        invariant i <= |permissions|
        invariant total == |permissions| + StringSizes(permissions[..i])
      {
        StringSizesNext(permissions, i);
        total := total + DelimitedSize(|permissions[i]|);
        i := i + 1;
      }
      assert permissions[..i] == permissions;
      total := total + SizeIf(name != [], 1 + DelimitedSize(|name|));
      total := total + SizeIf(description != [], 1 + DelimitedSize(|description|));
      total := total + SizeIf(createdAt != [], 1 + DelimitedSize(|createdAt|));
      total := total + SizeIf(id != 0, IntSize(id) + 1);
      total := total + SizeIf(active, 1 + 1);
      total := total + SizeIf(unknown != [], FieldsSize(unknown));
      assert total == |Print(Value())|;
      cachedSize := ToInt32(total);
    }

    /** Merges another message into this one. */
    method MergeFrom(from: Role)
      requires from != this
      modifies this
      ensures Value() == Merge(old(Value()), from.Value()) && cachedSize == old(cachedSize)
    {
      hide TextOr, IntOr;
      permissions := permissions + from.permissions;
      name := TextOr(from.name, name);
      description := TextOr(from.description, description);
      createdAt := TextOr(from.createdAt, createdAt);
      id := IntOr(from.id, id);
      active := from.active || active;
      unknown := unknown + from.unknown;
    }

    /** Makes this message equal to another one; copying from itself does nothing. */
    method CopyFrom(from: Role)
      modifies this
      ensures Value() == old(from.Value()) && cachedSize == old(cachedSize)
    {
      if from == this {
        return;
      }
      Clear();
      MergeFrom(from);
      MergeUnit(from.Value());
    }

    /** Parses a whole message: accepted only if the loop ended at the limit, not at a tag. */
    method ParseFromBytes(data: Bytes) returns (ok: bool)
      modifies this
      ensures ok <==> ParseInto(EMPTY, data).Some?
      ensures ok ==> ParseInto(EMPTY, data) == Some(Value())
    {
      Clear();
      assert data[0..|data|] == data;
      var parsed, _, end := InternalParse(data, 0, |data|);
      ok := parsed && end == AtLimit;
    }
  }

  /** One turn of the batch, seen as one record behind a one-byte tag. */
  lemma PermissionStep(r: RoleData, s: Bytes)
    ensures ReadDelimited(s).Bad? ==> Parse(Apply, r, [34] + s) == Failed
    ensures ReadDelimited(s).Read? && !ValidUtf8(ReadDelimited(s).value) ==> Parse(Apply, r, [34] + s) == Failed
    ensures ReadDelimited(s).Read? && ValidUtf8(ReadDelimited(s).value) ==>
              Parse(Apply, r, [34] + s) ==
              Parse(Apply, r.(permissions := r.permissions + [ReadDelimited(s).value]), s[ReadDelimited(s).taken..])
  {
    var t := [34] + s;
    OneByteTag(34, s);
    PayloadForms(34, s);
    hide ReadTag, ReadPayload, ReadDelimited, ValidUtf8, ScanFields;
    ParseStep(Apply, r, t);
    if ReadDelimited(s).Read? {
      assert t[1 + ReadDelimited(s).taken..] == s[ReadDelimited(s).taken..];
    }
  }

  lemma NoRecords()
    ensures BytesRecords(4, []) == []
  {
  }
}
