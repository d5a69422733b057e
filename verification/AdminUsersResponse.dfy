/**
 `admin.GetUsersResponse` as the object the generated code updates in place: it owns `User`
 objects, which it parses into, sizes and prints through the sizes they have cached.
 */
module AdminUsersResponse {
  import opened Wire
  import opened Fields
  import opened Dispatch
  import opened Printing
  import opened UsersCodec
  import UserCodec
  import opened AdminUser

  /** The messages held by a sequence of `User` objects. */
  function Values(us: seq<User>): (r: seq<UserData>)
    reads us
    ensures |r| == |us| && forall i :: 0 <= i < |us| ==> r[i] == us[i].Value()
  {
    seq(|us|, i requires 0 <= i < |us| reads us => us[i].Value())
  }

  /** The sizes those objects have cached. */
  function CachedSizes(us: seq<User>): (r: seq<Int32>)
    reads us
    ensures |r| == |us| && forall i :: 0 <= i < |us| ==> r[i] == us[i].cachedSize
  {
    seq(|us|, i requires 0 <= i < |us| reads us => us[i].cachedSize)
  }

  class GetUsersResponse {
    var users: seq<User>
    var total: Int64
    var unknown: seq<Field>
    var cachedSize: Int32

    /** The message this object and its users hold. */
    function Value(): UsersData
      reads this, users
    {
      UsersData(Values(users), total, unknown)
    }

    constructor ()
      ensures Value() == EMPTY && cachedSize == 0
    {
      users, total, unknown, cachedSize := [], 0, [], 0;
    }

    method Clear()
      modifies this
      ensures Value() == EMPTY && cachedSize == old(cachedSize)
    {
      users, total, unknown := [], 0, [];
    }

    /** `ParseMessage` into a user that has just been added: the length prefix becomes the limit
        of the nested parse, which must stop exactly there. */
    method ParseNewUser(data: Bytes, p: nat, limit: nat) returns (ok: bool, next: nat, u: User)
      requires p <= limit <= |data|
      ensures fresh(u) && p <= next <= limit
      ensures var text := ReadDelimited(data[p..limit]);
              if text.Read? && ParseUser(text.value).Some?
              then ok && next == p + text.taken && u.Value() == ParseUser(text.value).value
              else !ok
    {
      u := new User();
      var size := ReadSize(data[p..limit]);
      if size.Bad? || size.taken + size.value > limit - p {
        return false, p, u;
      }
      var start := p + size.taken;
      next := start + size.value;
      SliceOfSlice(data, p, limit, size.taken, size.taken + size.value);
      var parsed, _, end := u.InternalParse(data, start, next);
      ok := parsed && end == AtLimit;
    }

    /** The batch of users whose first tag has just been read; see `Role.ParsePermissions`. */
    method ParseUsers(data: Bytes, p: nat, limit: nat) returns (ok: bool, next: nat)
      requires p <= limit <= |data|
      modifies this
      ensures p <= next <= limit && cachedSize == old(cachedSize)
      ensures old(users) <= users && forall i :: |old(users)| <= i < |users| ==> fresh(users[i])
      ensures ok ==> p < next
      ensures ok ==> Parse(Apply, old(Value()), [10] + data[p..limit]) == Parse(Apply, Value(), data[next..limit])
      ensures !ok ==> Parse(Apply, old(Value()), [10] + data[p..limit]) == Failed
    {
      hide ReadDelimited, ParseUser, Apply, Parse;
      next := p;
      while true
        invariant p <= next <= limit && cachedSize == old(cachedSize)
        invariant old(users) <= users && forall i :: |old(users)| <= i < |users| ==> fresh(users[i])
        invariant Parse(Apply, old(Value()), [10] + data[p..limit]) == Parse(Apply, Value(), [10] + data[next..limit])
        decreases limit - next
      {
        ghost var s, before := data[next..limit], Value();
        UserStep(before, s);
        var parsed, after, u := ParseNewUser(data, next, limit);
        users := users + [u];
        if !parsed {
          return false, next;
        }
        assert Values(users) == before.users + [u.Value()];
        SliceOfSlice(data, next, limit, after - next, after - next);
        next := after;
        var available: bool := *;
        if next == limit || !available {
          return true, next;
        }
        if data[next] != 10 {
          return true, next;
        }
        SliceHead(data, next, limit);
        next := next + 1;
      }
    }

    /** The `switch` on the field number, for every payload but a batch of users. */
    method ParsePayload(tag: UInt32, data: Bytes, p: nat, limit: nat) returns (ok: bool, next: nat)
      requires p <= limit <= |data| && !IsStop(tag) && tag != 10
      modifies this
      ensures p <= next <= limit && cachedSize == old(cachedSize) && users == old(users)
      ensures var step := ReadPayload(tag, data[p..limit]);
              if step.Got?
              then ok && next == p + step.taken && Apply(old(Value()), step.field) == Some(Value())
              else !ok
    {
      if tag / 8 != 0 {
        PayloadForms(tag, data[p..limit]);
      }
      hide ReadPayload, ReadVarint64, ParseUser;
      if tag / 8 == 2 && tag % 8 == VARINT {
        var v := ReadVarint64(data[p..limit]);
        if v.Bad? {
          return false, p;
        }
        total := ToInt64(v.value);
        return true, p + v.taken;
      } else {
        var field := ReadPayload(tag, data[p..limit]);
        if !field.Got? {
          return false, p;
        }
        NotAUser(tag, data[p..limit]);
        unknown := unknown + [field.field];
        return true, p + field.taken;
      }
    }

    /** The tag loop over `data[start..limit]`. The outcome is that of the one-record-per-tag
        dispatch, wherever batches break and however tags are padded. */
    method InternalParse(data: Bytes, start: nat, limit: nat) returns (ok: bool, ptr: nat, end: End)
      requires start <= limit <= |data|
      modifies this
      ensures start <= ptr <= limit && cachedSize == old(cachedSize)
      ensures old(users) <= users && forall i :: |old(users)| <= i < |users| ==> fresh(users[i])
      ensures ok <==> Parse(Apply, old(Value()), data[start..limit]).Parsed?
      ensures ok ==> Parse(Apply, old(Value()), data[start..limit]) == Parsed(Value(), end)
      ensures ok ==> ptr == if end.AtTag? then limit - end.left else limit
    {
      ok, ptr, end := true, start, AtLimit;
      hide Apply, ReadPayload, Value, Values, Parse;
      while ptr < limit
        invariant start <= ptr <= limit && cachedSize == old(cachedSize)
        invariant old(users) <= users && forall i :: |old(users)| <= i < |users| ==> fresh(users[i])
        invariant Parse(Apply, old(Value()), data[start..limit]) == Parse(Apply, Value(), data[ptr..limit])
      {
        ghost var s, head := data[ptr..limit], ptr;
        ParseStep(Apply, Value(), s);
        var read := ReadTag(data[ptr..limit]);
        if read.Bad? {
          return false, ptr, AtLimit;
        }
        var tag, p := read.value, ptr + read.taken;
        SliceOfSlice(data, ptr, limit, read.taken, read.taken);
        if IsStop(tag) {
          return true, p, AtTag(tag, limit - p);
        }
        if tag == 10 {
          ShortTag(Apply, Value(), s, 10);
          ok, ptr := ParseUsers(data, p, limit);
        } else {
          ok, ptr := ParsePayload(tag, data, p, limit);
          SliceOfSlice(data, head, limit, ptr - head, ptr - head);
        }
        if !ok {
          return false, ptr, AtLimit;
        }
      }
      assert data[ptr..limit] == [];
      ParseNothing(Apply, Value());
    }

    /** The loop that has every user count its own bytes. */
    method SizeUsers() returns (size: nat)
      modifies (set u | u in users)`cachedSize
      ensures Value() == old(Value())
      ensures size == MessageSizes(Value().users)
      ensures SizesExact(Values(users), CachedSizes(users))
    {
      hide DelimitedSize, UserCodec.Print, MessageSizes;
      ghost var us := Values(users);
      NoMessages();
      size := 0;
      var i := 0;
      while i < |users|
        invariant i <= |users|
        invariant Values(users) == us
        invariant size == MessageSizes(us[..i])
        invariant forall k :: 0 <= k < i ==> users[k].cachedSize == ToInt32(|UserCodec.Print(us[k])|)
      {
        assert us[i] == users[i].Value();
        MessageSizesNext(us, i);
        var length := users[i].ByteSizeLong();
        size := size + DelimitedSize(length);
        i := i + 1;
      }
      assert us[..i] == us;
    }

    /** The sum of `ByteSizeLong`, given what the users contribute. */
    method SumParts(userSizes: nat) returns (size: nat)
      ensures var m := Value();
              size == |m.users| + userSizes + SizeIf(m.total != 0, IntSize(m.total) + 1)
                      + SizeIf(m.unknown != [], FieldsSize(m.unknown))
    {
      hide IntSize, FieldsSize, SizeIf;
      size := 1 * |users| + userSizes;
      size := size + SizeIf(total != 0, IntSize(total) + 1);
      size := size + SizeIf(unknown != [], FieldsSize(unknown));
    }

    /** Counts the bytes that will be printed. On the way every user counts its own bytes, so all
        cached sizes are exact afterwards. */
    method ByteSizeLong() returns (size: nat)
      modifies this`cachedSize, (set u | u in users)`cachedSize
      ensures Value() == old(Value())
      ensures size == |Print(Value())| && cachedSize == ToInt32(size)
      ensures SizesExact(Values(users), CachedSizes(users))
    {
      hide IntSize, Print, FieldsSize, SizeIf, SizesExact, MessageSizes, Value, Values, CachedSizes;
      PrintedLength(Value());
      var sizes := SizeUsers();
      size := SumParts(sizes);
      SetCachedSize(size);
    }

    /** Leaves the size behind as an `int`. */
    method SetCachedSize(size: nat)
      modifies this`cachedSize
      ensures cachedSize == ToInt32(size)
      ensures Value() == old(Value()) && CachedSizes(users) == old(CachedSizes(users))
    {
      ghost var us, sizes := Values(users), CachedSizes(users);
      cachedSize := ToInt32(size);
      assert Values(users) == us && CachedSizes(users) == sizes;
    }

    /** The loop that prints every user behind the size it has cached. */
    method WriteUsers(target: Bytes) returns (out: Bytes)
      ensures out == target + UsersWith(Values(users), CachedSizes(users))
    {
      ghost var us, sizes := Values(users), CachedSizes(users);
      hide Varint, UserCodec.Print, EncodeTag, UsersWith;
      NoUsersWith();
      out := target;
      var i := 0;
      while i < |users|
        invariant i <= |users|
        invariant out == target + UsersWith(us[..i], sizes[..i])
      {
        UsersWithNext(us, sizes, i);
        out := out + EncodeTag(1, LENGTH_DELIMITED) + Varint(users[i].cachedSize % TWO_32);
        out := users[i].InternalSerialize(out);
        i := i + 1;
      }
      assert us[..i] == us && sizes[..i] == sizes;
    }

    /** Prints the total, if it is not 0, and the unknown fields. */
    method WriteRest(start: Bytes) returns (out: Bytes)
      ensures out == start + EncodeAll(IntRecord(2, total)) + EncodeAll(unknown)
    {
      hide EncodeAll, WriteInt;
      WriteIntExact(2, total, start);
      EncodeNothing();
      out := if total != 0 then WriteInt(2, total, start) else start;
      out := if unknown != [] then out + EncodeAll(unknown) else out;
    }

    /** Prints every user behind the size it has cached, then the total and the unknown fields. */
    method InternalSerialize(target: Bytes) returns (out: Bytes)
      ensures out == target + PrintWith(Value(), CachedSizes(users))
      ensures out == target + Print(Value()) <==> SizesExact(Values(users), CachedSizes(users))
    {
      hide EncodeAll, Print, PrintWith, UsersWith, SizesExact, Values, CachedSizes;
      out := WriteUsers(target);
      out := WriteRest(out);
      PrintWithParts(target, Value(), CachedSizes(users));
      PrintedBehind(target, Value(), CachedSizes(users));
    }

    /** Sizes first, then bytes: the order in which the runtime calls the two. */
    method SerializeToBytes() returns (out: Bytes)
      modifies this`cachedSize, (set u | u in users)`cachedSize
      ensures Value() == old(Value()) && out == Print(Value())
    {
      hide Print, PrintWith, SizesExact, Value, Values, CachedSizes;
      var _ := ByteSizeLong();
      out := InternalSerialize([]);
    }

    /** Appends copies of `us`, as merging a repeated field does. */
    method AddCopies(us: seq<User>)
      modifies this`users
      ensures Values(users) == old(Values(users)) + Values(us) && Values(us) == old(Values(us))
      ensures old(users) <= users && forall i :: |old(users)| <= i < |users| ==> fresh(users[i])
    {
      hide Values;
      ghost var mine, theirs := Values(users), Values(us);
      var i := 0;
      while i < |us|
        invariant i <= |us| && Values(us) == theirs
        invariant old(users) <= users && forall i :: |old(users)| <= i < |users| ==> fresh(users[i])
        invariant Values(users) == mine + theirs[..i]
      {
        AddCopy(us[i]);
        assert theirs[..i + 1] == theirs[..i] + [theirs[i]];
        i := i + 1;
      }
      assert theirs[..i] == theirs;
    }

    method AddCopy(from: User)
      modifies this`users
      ensures |users| == |old(users)| + 1 && old(users) <= users && fresh(users[|old(users)|])
      ensures Values(users) == old(Values(users)) + [from.Value()]
    {
      ghost var before := Values(users);
      var u := CopyOf(from);
      users := users + [u];
      assert Values(users) == before + [u.Value()];
    }

    /** A new user holding the same message. */
    method CopyOf(from: User) returns (u: User)
      ensures fresh(u) && u.Value() == from.Value()
    {
      u := new User();
      u.MergeFrom(from);
      UserCodec.MergeUnit(from.Value());
    }

    /** Merges another message into this one; the other one's users are copied. */
    method MergeFrom(from: GetUsersResponse)
      requires from != this
      modifies this
      ensures Value() == Merge(old(Value()), from.Value()) && cachedSize == old(cachedSize)
      ensures old(users) <= users && forall i :: |old(users)| <= i < |users| ==> fresh(users[i])
    {
      AddCopies(from.users);
      if from.total != 0 {
        total := from.total;
      }
      unknown := unknown + from.unknown;
    }

    /** Makes this message equal to another one; copying from itself does nothing. */
    method CopyFrom(from: GetUsersResponse)
      modifies this
      ensures Value() == old(from.Value()) && cachedSize == old(cachedSize)
    {
      if from == this {
        return;
      }
      Clear();
      MergeFrom(from);
      MergeUnit(from.Value());
    }

    /** Parses a whole message: accepted only if the loop ended at the limit, not at a tag. */
    method ParseFromBytes(data: Bytes) returns (ok: bool)
      modifies this
      ensures ok <==> ParseInto(EMPTY, data).Some?
      ensures ok ==> ParseInto(EMPTY, data) == Some(Value())
    {
      Clear();
      assert data[0..|data|] == data;
      var parsed, _, end := InternalParse(data, 0, |data|);
      ok := parsed && end == AtLimit;
    }
  }

  /** Sizes `sent`, prints it and parses the bytes into `received`: the two are equal afterwards
      exactly when the message can be read back and its users are not too long. */
  method Transmit(sent: GetUsersResponse, received: GetUsersResponse) returns (ok: bool)
    requires sent != received
    modifies sent`cachedSize, (set u | u in sent.users)`cachedSize, received
    ensures sent.Value() == old(sent.Value())
    ensures ok && received.Value() == sent.Value() <==> Readable(sent.Value()) && Fits(sent.Value())
  {
    hide Readable, Fits, Print, ParseInto;
    var bytes := sent.SerializeToBytes();
    ok := received.ParseFromBytes(bytes);
    RoundTrip(sent.Value());
  }

  /** A payload that is neither a user nor the total belongs to the unknown fields. */
  lemma NotAUser(tag: UInt32, s: Bytes)
    requires tag != 10 && tag != 16
    ensures ReadPayload(tag, s).Got? ==> IsUnknown(ReadPayload(tag, s).field)
  {
  }
}
