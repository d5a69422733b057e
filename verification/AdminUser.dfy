/**
 `admin.User` as the object the generated code updates in place.
 */
module AdminUser {
  import opened Wire
  import opened Utf8
  import opened Fields
  import opened Dispatch
  import opened Printing
  import opened UserCodec

  class User {
    var id: Int32
    var username: Bytes
    var email: Bytes
    var name: Bytes
    var roleId: Int32
    var roleName: Bytes
    var active: bool
    var createdAt: Bytes
    var updatedAt: Bytes
    var unknown: seq<Field>
    var cachedSize: Int32

    /** The message this object holds. */
    function Value(): UserData
      reads this
    {
      UserData(id, username, email, name, roleId, roleName, active, createdAt, updatedAt, unknown)
    }

    constructor ()
      ensures Value() == EMPTY && cachedSize == 0
    {
      id, username, email, name, roleId := 0, [], [], [], 0;
      roleName, active, createdAt, updatedAt := [], false, [], [];
      unknown, cachedSize := [], 0;
    }

    method Clear()
      modifies this
      ensures Value() == EMPTY && cachedSize == old(cachedSize)
    {
      username, email, name, roleName, createdAt, updatedAt := [], [], [], [], [], [];
      id, roleId, active := 0, 0, false;
      unknown := [];
    }

    /** A string field's case: the contents replace the string and are then checked. */
    method ParseText(number: int, data: Bytes, p: nat, limit: nat) returns (ok: bool, next: nat)
      requires p <= limit <= |data| && IsTextNumber(number)
      modifies this
      ensures p <= next <= limit && cachedSize == old(cachedSize)
      ensures var text := ReadDelimited(data[p..limit]);
              if text.Read? && ValidUtf8(text.value)
              then ok && next == p + text.taken && Value() == SetText(old(Value()), number, text.value)
              else !ok
    {
      hide ReadDelimited, ValidUtf8;
      var read := ReadDelimited(data[p..limit]);
      if read.Bad? {
        return false, p;
      }
      var text := read.value;
      if number == 2 {
        username := text;
      } else if number == 3 {
        email := text;
      } else if number == 4 {
        name := text;
      } else if number == 6 {
        roleName := text;
      } else if number == 8 {
        createdAt := text;
      } else {
        updatedAt := text;
      }
      return ValidUtf8(text), p + read.taken;
    }

    /** The `switch` on the field number: one payload, stored in its field, or, when the field
        is not known under this wire type, among the unknown fields. */
    method ParsePayload(tag: UInt32, data: Bytes, p: nat, limit: nat) returns (ok: bool, next: nat)
      requires p <= limit <= |data| && !IsStop(tag)
      modifies this
      ensures p <= next <= limit && cachedSize == old(cachedSize)
      ensures var step := ReadPayload(tag, data[p..limit]);
              if step.Got? && Apply(old(Value()), step.field).Some?
              then ok && next == p + step.taken && Value() == Apply(old(Value()), step.field).value
              else !ok
    {
      if tag / 8 != 0 {
        PayloadForms(tag, data[p..limit]);
      }
      hide ReadPayload, ReadDelimited, ReadVarint64, ValidUtf8, SetText;
      var number, wireType := tag / 8, tag % 8;
      if IsTextNumber(number) && wireType == LENGTH_DELIMITED {
        ok, next := ParseText(number, data, p, limit);
      } else if number == 1 && wireType == VARINT {
        var v := ReadVarint32(data[p..limit]);
        if v.Bad? {
          return false, p;
        }
        id := v.value;
        return true, p + v.taken;
      } else if number == 5 && wireType == VARINT {
        var v := ReadVarint32(data[p..limit]);
        if v.Bad? {
          return false, p;
        }
        roleId := v.value;
        return true, p + v.taken;
      } else if number == 7 && wireType == VARINT {
        var v := ReadVarint64(data[p..limit]);
        if v.Bad? {
          return false, p;
        }
        active := v.value != 0;
        return true, p + v.taken;
      } else {
        var field := ReadPayload(tag, data[p..limit]);
        if !field.Got? {
          return false, p;
        }
        unknown := unknown + [field.field];
        return true, p + field.taken;
      }
    }

    /** The tag loop over `data[start..limit]`, filling this object as it goes. The outcome is
        that of the one-record-per-tag dispatch, and nothing at or past the limit matters. */
    method InternalParse(data: Bytes, start: nat, limit: nat) returns (ok: bool, ptr: nat, end: End)
      requires start <= limit <= |data|
      modifies this
      ensures start <= ptr <= limit && cachedSize == old(cachedSize)
      ensures ok <==> Parse(Apply, old(Value()), data[start..limit]).Parsed?
      ensures ok ==> Parse(Apply, old(Value()), data[start..limit]) == Parsed(Value(), end)
      ensures ok ==> ptr == if end.AtTag? then limit - end.left else limit
    {
      ok, ptr, end := true, start, AtLimit;
      hide Apply, ReadPayload, Value, Parse;
      while ptr < limit
        invariant start <= ptr <= limit && cachedSize == old(cachedSize)
        invariant Parse(Apply, old(Value()), data[start..limit]) == Parse(Apply, Value(), data[ptr..limit])
      {
        ghost var s, head := data[ptr..limit], ptr;
        ParseStep(Apply, Value(), s);
        var read := ReadTag(data[ptr..limit]);
        if read.Bad? {
          return false, ptr, AtLimit;
        }
        var tag, p := read.value, ptr + read.taken;
        SliceOfSlice(data, ptr, limit, read.taken, read.taken);
        if IsStop(tag) {
          return true, p, AtTag(tag, limit - p);
        }
        ok, ptr := ParsePayload(tag, data, p, limit);
        if !ok {
          return false, ptr, AtLimit;
        }
        SliceOfSlice(data, head, limit, ptr - head, ptr - head);
      }
      assert data[ptr..limit] == [];
      ParseNothing(Apply, Value());
    }

    /** Prints the fields away from their defaults in number order, then the unknown fields. */
    method InternalSerialize(target: Bytes) returns (out: Bytes)
      ensures out == target + Print(Value())
    {
      ghost var u := Value();
      ghost var parts := Parts(u);
      PartsAre(u);
      PrintedEnds(parts);
      hide EncodeAll, PrintedUpTo, Print, WriteText, WriteInt, WriteBool, Parts;
      out := target;
      WroteInt(parts, 1, id, target, out);
      out := if id != 0 then WriteInt(1, id, out) else out;
      WroteText(parts, 2, username, target, out);
      out := if username != [] then WriteText(2, username, out) else out;
      WroteText(parts, 3, email, target, out);
      out := if email != [] then WriteText(3, email, out) else out;
      WroteText(parts, 4, name, target, out);
      out := if name != [] then WriteText(4, name, out) else out;
      WroteInt(parts, 5, roleId, target, out);
      out := if roleId != 0 then WriteInt(5, roleId, out) else out;
      WroteText(parts, 6, roleName, target, out);
      out := if roleName != [] then WriteText(6, roleName, out) else out;
      WroteBool(parts, 7, active, target, out);
      out := if active then WriteBool(7, active, out) else out;
      WroteText(parts, 8, createdAt, target, out);
      out := if createdAt != [] then WriteText(8, createdAt, out) else out;
      WroteText(parts, 9, updatedAt, target, out);
      out := if updatedAt != [] then WriteText(9, updatedAt, out) else out;
      WroteUnknown(parts, target, out);
      out := if unknown != [] then out + EncodeAll(unknown) else out;
    }

    /** Counts the bytes that will be printed and leaves the count in `cachedSize`, an `int`. */
    method ByteSizeLong() returns (total: nat)
      modifies this`cachedSize
      ensures total == |Print(Value())| && cachedSize == ToInt32(total)
    {
      PrintedLength(Value());
      hide DelimitedSize, IntSize, Print, FieldsSize, SizeIf;
      total := SizeIf(username != [], 1 + DelimitedSize(|username|));
      total := total + SizeIf(email != [], 1 + DelimitedSize(|email|));
      total := total + SizeIf(name != [], 1 + DelimitedSize(|name|));
      total := total + SizeIf(roleName != [], 1 + DelimitedSize(|roleName|));
      total := total + SizeIf(createdAt != [], 1 + DelimitedSize(|createdAt|));
      total := total + SizeIf(updatedAt != [], 1 + DelimitedSize(|updatedAt|));
      total := total + SizeIf(id != 0, IntSize(id) + 1);
      total := total + SizeIf(roleId != 0, IntSize(roleId) + 1);
      total := total + SizeIf(active, 1 + 1);
      total := total + SizeIf(unknown != [], FieldsSize(unknown));
      assert total == |Print(Value())|;
      cachedSize := ToInt32(total);
    }

    /** Merges another message into this one. */
    method MergeFrom(from: User)
      requires from != this
      modifies this
      ensures Value() == Merge(old(Value()), from.Value()) && cachedSize == old(cachedSize)
    {
      hide TextOr, IntOr;
      MergeTexts(from);
      id := IntOr(from.id, id);
      roleId := IntOr(from.roleId, roleId);
      active := from.active || active;
      unknown := unknown + from.unknown;
    }

    /** The string fields of `MergeFrom`. */
    method MergeTexts(from: User)
      requires from != this
      modifies this`username, this`email, this`name, this`roleName, this`createdAt, this`updatedAt
      ensures username == TextOr(from.username, old(username)) && email == TextOr(from.email, old(email))
      ensures name == TextOr(from.name, old(name)) && roleName == TextOr(from.roleName, old(roleName))
      ensures createdAt == TextOr(from.createdAt, old(createdAt))
      ensures updatedAt == TextOr(from.updatedAt, old(updatedAt))
    {
      hide TextOr;
      username := TextOr(from.username, username);
      email := TextOr(from.email, email);
      name := TextOr(from.name, name);
      roleName := TextOr(from.roleName, roleName);
      createdAt := TextOr(from.createdAt, createdAt);
      updatedAt := TextOr(from.updatedAt, updatedAt);
    }

    /** Makes this message equal to another one; copying from itself does nothing. */
    method CopyFrom(from: User)
      modifies this
      ensures Value() == old(from.Value()) && cachedSize == old(cachedSize)
    {
      if from == this {
        return;
      }
      Clear();
      MergeFrom(from);
      MergeUnit(from.Value());
    }

    /** Parses a whole message: accepted only if the loop ended at the limit, not at a tag. */
    method ParseFromBytes(data: Bytes) returns (ok: bool)
      modifies this
      ensures ok <==> ParseInto(EMPTY, data).Some?
      ensures ok ==> ParseInto(EMPTY, data) == Some(Value())
    {
      Clear();
      assert data[0..|data|] == data;
      var parsed, _, end := InternalParse(data, 0, |data|);
      ok := parsed && end == AtLimit;
    }
  }
}
