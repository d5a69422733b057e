/**
 Bytes and the scalar encodings of the Protocol Buffers wire format
 (Protocol Buffers Encoding, sections "Base 128 Varints" and "Message Structure").

 A reader looks at the bytes between the parse pointer and the limit in force and
 reports the value found together with the number of bytes it took.
 */
module Wire {
  type Byte = x: int | 0 <= x < 0x100
  type Bytes = seq<Byte>

  const TWO_31: int := 0x8000_0000
  const TWO_32: int := 0x1_0000_0000
  const TWO_63: int := 0x8000_0000_0000_0000
  const TWO_64: int := 0x1_0000_0000_0000_0000

  type UInt32 = x: int | 0 <= x < TWO_32
  type UInt64 = x: int | 0 <= x < TWO_64
  type Int32 = x: int | -TWO_31 <= x < TWO_31
  type Int64 = x: int | -TWO_63 <= x < TWO_63

  /** How many bytes below the largest `int` the runtime keeps free. It is the runtime's own
      business how many, so the constant has no value here and every result holds for any. */
  type Reserve = x: int | 0 <= x <= 1024

  const RESERVE: Reserve

  /** The largest length a prefix may announce: lengths are C++ `int`s. */
  const MAX_LENGTH: int := TWO_31 - 1 - RESERVE

  datatype Option<+T> = None | Some(value: T)

  datatype Reading<+T> = Bad | Read(value: T, taken: nat)

  lemma SliceOfSlice(data: Bytes, p: nat, limit: nat, a: nat, b: nat)
    requires p <= limit <= |data| && a <= b <= limit - p
    ensures data[p..limit][a..b] == data[p + a..p + b]
    ensures data[p..limit][a..] == data[p + a..limit]
  {
    var s := data[p..limit];
    assert forall i :: 0 <= i < |s| ==> s[i] == data[p + i];
  }

  lemma SliceHead(data: Bytes, p: nat, limit: nat)
    requires p < limit <= |data|
    ensures data[p..limit] == [data[p]] + data[p + 1..limit]
  {
  }

  // ---------------------------------------------------------------- integers

  /** Conversion to `int32_t`: keep the low 32 bits, read them as two's complement. */
  function ToInt32(x: int): Int32 {
    var low := x % TWO_32;
    if low < TWO_31 then low else low - TWO_32
  }

  function ToInt64(x: int): Int64 {
    var low := x % TWO_64;
    if low < TWO_63 then low else low - TWO_64
  }

  /** The 64-bit pattern written for a signed value: sign extension to 64 bits. */
  function SignExtend(x: Int64): UInt64 {
    if x < 0 then x + TWO_64 else x
  }

  lemma SignExtendUndone(x: Int64)
    ensures ToInt64(SignExtend(x)) == x
    ensures -TWO_31 <= x < TWO_31 ==> ToInt32(SignExtend(x)) == x
    ensures SignExtend(x) == 0 <==> x == 0
  {
    assert SignExtend(x) - x == 0 || SignExtend(x) - x == TWO_64;
    assert TWO_64 % TWO_32 == 0;
    hide ToInt32, ToInt64;
    ToInt64Iff(SignExtend(x), x);
    if -TWO_31 <= x < TWO_31 {
      ToInt32Iff(SignExtend(x), x);
    }
  }

  // ---------------------------------------------------------------- base-128 varints

  function Varint(n: nat): (r: Bytes)
    ensures |r| > 0
  {
    if n < 0x80 then [n] else [0x80 + n % 0x80] + Varint(n / 0x80)
  }

  /** 128 to the power `k`. */
  function Pow128(k: nat): (r: nat)
    ensures r > 0
  {
    if k == 0 then 1 else 0x80 * Pow128(k - 1)
  }

  /** Reads a base-128 number of at most `k` bytes, least significant group first. */
  function ReadBase128(s: Bytes, k: nat): (r: Reading<nat>)
    ensures r.Read? ==> 0 < r.taken <= |s| && r.taken <= k
  {
    if k == 0 || s == [] then Bad
    else if s[0] < 0x80 then Read(s[0], 1)
    else match ReadBase128(s[1..], k - 1)
      case Bad => Bad
      case Read(v, n) => Read(s[0] - 0x80 + 0x80 * v, n + 1)
  }

  /** The number whose seven-bit groups are the low bits of `s`, least significant first. */
  function GroupSum(s: Bytes): nat {
    if s == [] then 0 else s[0] % 0x80 + 0x80 * GroupSum(s[1..])
  }

  /** `s` starts with `n` bytes of which all but the last have the continuation bit set. */
  predicate IsVarint(s: Bytes, n: nat) {
    0 < n <= |s| && s[n - 1] < 0x80 && forall i :: 0 <= i < n - 1 ==> s[i] >= 0x80
  }

  /** A varint is accepted, padded or not, exactly when it ends within `k` bytes; its value is the
      sum of its groups. */
  lemma {:induction false} ReadBase128Iff(s: Bytes, k: nat, n: nat)
    ensures ReadBase128(s, k).Read? && ReadBase128(s, k).taken == n <==> IsVarint(s, n) && n <= k
    ensures IsVarint(s, n) && n <= k ==> ReadBase128(s, k).value == GroupSum(s[..n])
  {
    if k > 0 && s != [] {
      if s[0] < 0x80 {
        assert IsVarint(s, n) ==> n == 1;
        assert s[..1] == [s[0]] && [s[0]][1..] == [];
      } else if n > 0 {
        ReadBase128Iff(s[1..], k - 1, n - 1);
        assert IsVarint(s, n) <==> IsVarint(s[1..], n - 1) by { VarintTail(s, n); }
        assert n <= |s| ==> s[..n][1..] == s[1..][..n - 1];
      }
    }
  }

  lemma VarintTail(s: Bytes, n: nat)
    requires s != [] && s[0] >= 0x80 && n > 0
    ensures IsVarint(s, n) <==> IsVarint(s[1..], n - 1)
  {
    if IsVarint(s[1..], n - 1) {
      forall i | 0 <= i < n - 1
        ensures s[i] >= 0x80
      {
        assert i > 0 ==> s[i] == s[1..][i - 1];
      }
    }
  }

  lemma {:induction false} VarintMonotone(a: nat, b: nat)
    requires a <= b
    ensures |Varint(a)| <= |Varint(b)|
    decreases b
  {
    if b >= 0x80 {
      VarintMonotone(a / 0x80, b / 0x80);
    }
  }

  /** No varint of a number is shorter than the printed one. */
  lemma {:induction false} VarintShortest(s: Bytes, k: nat)
    requires ReadBase128(s, k).Read?
    ensures |Varint(ReadBase128(s, k).value)| <= ReadBase128(s, k).taken
  {
    if s[0] >= 0x80 {
      VarintShortest(s[1..], k - 1);
      assert ReadBase128(s, k).value / 0x80 == ReadBase128(s[1..], k - 1).value;
    }
  }

  lemma {:induction false} ReadBase128Varint(n: nat, t: Bytes, k: nat)
    requires 0 < k && n < Pow128(k)
    ensures ReadBase128(Varint(n) + t, k) == Read(n, |Varint(n)|)
  {
    var s := Varint(n) + t;
    if n >= 0x80 {
      assert s[0] == 0x80 + n % 0x80 && s[1..] == Varint(n / 0x80) + t;
      assert n / 0x80 < Pow128(k - 1) && k > 1;
      ReadBase128Varint(n / 0x80, t, k - 1);
    }
  }

  /** A reader that succeeded depends only on the bytes it took. */
  lemma {:induction false} ReadBase128Local(s: Bytes, t: Bytes, k: nat)
    requires ReadBase128(s, k).Read?
    requires ReadBase128(s, k).taken <= |t| && s[..ReadBase128(s, k).taken] == t[..ReadBase128(s, k).taken]
    ensures ReadBase128(t, k) == ReadBase128(s, k)
  {
    var n := ReadBase128(s, k).taken;
    assert s[0] == s[..n][0] == t[..n][0] == t[0];
    if s[0] >= 0x80 {
      assert s[1..][..n - 1] == s[..n][1..] == t[..n][1..] == t[1..][..n - 1];
      ReadBase128Local(s[1..], t[1..], k - 1);
    }
  }

  /** `ReadTag`: at most five bytes, truncated to 32 bits. */
  function ReadTag(s: Bytes): (r: Reading<UInt32>)
    ensures r.Read? ==> 0 < r.taken <= |s|
  {
    match ReadBase128(s, 5)
    case Bad => Bad
    case Read(v, n) => Read(v % TWO_32, n)
  }

  /** `ReadVarint64`: at most ten bytes, truncated to 64 bits. */
  function ReadVarint64(s: Bytes): (r: Reading<UInt64>)
    ensures r.Read? ==> 0 < r.taken <= |s|
  {
    match ReadBase128(s, 10)
    case Bad => Bad
    case Read(v, n) => Read(v % TWO_64, n)
  }

  /** `ReadVarint32` for an `int32` field: the same bytes, keeping the low 32 bits. */
  function ReadVarint32(s: Bytes): (r: Reading<Int32>)
    ensures r.Read? ==> 0 < r.taken <= |s|
  {
    match ReadVarint64(s)
    case Bad => Bad
    case Read(v, n) => Read(ToInt32(v), n)
  }

  /** `ReadSize`: a length prefix of at most five bytes that must not exceed the largest length. */
  function ReadSize(s: Bytes): (r: Reading<nat>)
    ensures r.Read? ==> 0 < r.taken <= |s| && r.value <= MAX_LENGTH
  {
    match ReadBase128(s, 5)
    case Bad => Bad
    case Read(v, n) => if v <= MAX_LENGTH then Read(v, n) else Bad
  }

  /** A length prefix and that many bytes after it. */
  function ReadDelimited(s: Bytes): (r: Reading<Bytes>)
    ensures r.Read? ==> 0 < r.taken <= |s| && |r.value| <= MAX_LENGTH
  {
    match ReadSize(s)
    case Bad => Bad
    case Read(size, n) =>
      if n + size <= |s| then Read(s[n..n + size], n + size) else Bad
  }

  /** Printing a length goes through `uint32_t`. */
  function Delimited(data: Bytes): (r: Bytes)
    ensures |r| > |data|
  {
    Varint(|data| % TWO_32) + data
  }

  // ---------------------------------------------------------------- exactly what is read

  /** Conversion to `int32_t` yields the one number in range that is the same modulo 2^32. */
  lemma ToInt32Iff(x: int, r: Int32)
    ensures ToInt32(x) == r <==> (x - r) % TWO_32 == 0
  {
    Congruent(x, r, TWO_32);
  }

  lemma ToInt64Iff(x: int, r: Int64)
    ensures ToInt64(x) == r <==> (x - r) % TWO_64 == 0
  {
    Congruent(x, r, TWO_64);
  }

  lemma Congruent(x: int, r: int, m: int)
    requires m == TWO_32 || m == TWO_64
    ensures (x - r) % m == 0 <==> x % m == r % m
  {
  }

  /** `ReadVarint64` accepts a varint, padded or not, of at most ten bytes, and keeps 64 bits. */
  lemma ReadVarint64Iff(s: Bytes, n: nat)
    ensures ReadVarint64(s).Read? && ReadVarint64(s).taken == n <==> IsVarint(s, n) && n <= 10
    ensures IsVarint(s, n) && n <= 10 ==> ReadVarint64(s).value == GroupSum(s[..n]) % TWO_64
  {
    hide ReadBase128, IsVarint, GroupSum;
    ReadBase128Iff(s, 10, n);
  }

  /** `ReadVarint32` takes the same bytes, and the value is the same modulo 2^32. */
  lemma ReadVarint32Iff(s: Bytes, n: nat)
    ensures ReadVarint32(s).Read? && ReadVarint32(s).taken == n <==> IsVarint(s, n) && n <= 10
    ensures IsVarint(s, n) && n <= 10 ==> (GroupSum(s[..n]) - ReadVarint32(s).value) % TWO_32 == 0
  {
    hide IsVarint, GroupSum, ReadVarint64;
    ReadVarint64Iff(s, n);
    if IsVarint(s, n) && n <= 10 {
      LowBits(GroupSum(s[..n]));
      ToInt32Iff(GroupSum(s[..n]), ReadVarint32(s).value);
    }
  }

  lemma LowBits(x: nat)
    ensures ToInt32(x % TWO_64) == ToInt32(x)
    ensures x % TWO_64 % TWO_32 == x % TWO_32
  {
    var r := x % TWO_64;
    var k := TWO_32 * (x / TWO_64);
    assert x == TWO_32 * k + r;
    MultipleDropped(k, r);
  }

  lemma MultipleDropped(k: nat, r: nat)
    ensures (TWO_32 * k + r) % TWO_32 == r % TWO_32
  {
  }

  /** A tag is a varint of at most five bytes, of which 32 bits are kept. */
  lemma ReadTagIff(s: Bytes, n: nat)
    ensures ReadTag(s).Read? && ReadTag(s).taken == n <==> IsVarint(s, n) && n <= 5
    ensures IsVarint(s, n) && n <= 5 ==> ReadTag(s).value == GroupSum(s[..n]) % TWO_32
  {
    hide ReadBase128, IsVarint, GroupSum;
    ReadBase128Iff(s, 5, n);
  }

  /** A length is a varint of at most five bytes that does not exceed the largest length. */
  lemma ReadSizeIff(s: Bytes, n: nat)
    ensures ReadSize(s).Read? && ReadSize(s).taken == n
            <==> IsVarint(s, n) && n <= 5 && GroupSum(s[..n]) <= MAX_LENGTH
    ensures IsVarint(s, n) && n <= 5 && GroupSum(s[..n]) <= MAX_LENGTH ==> ReadSize(s).value == GroupSum(s[..n])
  {
    hide ReadBase128, IsVarint, GroupSum;
    ReadBase128Iff(s, 5, n);
  }

  /** A length-delimited payload is a length and that many bytes, all before the limit. */
  lemma ReadDelimitedIff(s: Bytes, n: nat)
    requires IsVarint(s, n)
    ensures ReadDelimited(s).Read? <==> n <= 5 && GroupSum(s[..n]) <= MAX_LENGTH && n + GroupSum(s[..n]) <= |s|
    ensures ReadDelimited(s).Read? ==>
              && ReadDelimited(s).taken == n + GroupSum(s[..n])
              && ReadDelimited(s).value == s[n..n + GroupSum(s[..n])]
  {
    ReadSizeIff(s, n);
    if ReadSize(s).Read? {
      ReadSizeIff(s, ReadSize(s).taken);
      OneVarint(s, n, ReadSize(s).taken);
    }
    hide ReadSize, IsVarint, GroupSum;
  }

  /** Bytes start with at most one varint. */
  lemma OneVarint(s: Bytes, n: nat, k: nat)
    requires IsVarint(s, n) && IsVarint(s, k)
    ensures n == k
  {
  }

  // ---------------------------------------------------------------- fixed-width little endian

  function Fixed(v: nat, width: nat): (r: Bytes)
    ensures |r| == width
  {
    if width == 0 then [] else [v % 0x100] + Fixed(v / 0x100, width - 1)
  }

  function Pow256(k: nat): (r: nat)
    ensures r > 0
  {
    if k == 0 then 1 else 0x100 * Pow256(k - 1)
  }

  function ReadFixed(s: Bytes, width: nat): (r: Reading<nat>)
    ensures r.Read? ==> r.taken == width <= |s| && r.value < Pow256(width)
  {
    if width == 0 then Read(0, 0)
    else if s == [] then Bad
    else match ReadFixed(s[1..], width - 1)
      case Bad => Bad
      case Read(v, n) => Read(s[0] + 0x100 * v, n + 1)
  }

  lemma {:induction false} ReadFixedFixed(v: nat, width: nat, t: Bytes)
    requires v < Pow256(width)
    ensures ReadFixed(Fixed(v, width) + t, width) == Read(v, width)
  {
    var s := Fixed(v, width) + t;
    if width > 0 {
      assert s[1..] == Fixed(v / 0x100, width - 1) + t;
      ReadFixedFixed(v / 0x100, width - 1, t);
    }
  }

  /** Fixed-width numbers are read whenever their bytes are there, and stand for just those bytes. */
  lemma {:induction false} FixedReadFixed(s: Bytes, width: nat)
    ensures ReadFixed(s, width).Read? <==> width <= |s|
    ensures width <= |s| ==> Fixed(ReadFixed(s, width).value, width) == s[..width]
  {
    if width > 0 && s != [] {
      FixedReadFixed(s[1..], width - 1);
      assert width <= |s| ==> s[..width] == [s[0]] + s[1..][..width - 1];
    }
  }

  lemma {:induction false} ReadFixedLocal(s: Bytes, t: Bytes, width: nat)
    requires ReadFixed(s, width).Read? && width <= |t| && s[..width] == t[..width]
    ensures ReadFixed(t, width) == ReadFixed(s, width)
  {
    if width > 0 {
      assert s[0] == s[..width][0] == t[..width][0] == t[0];
      assert s[1..][..width - 1] == s[..width][1..] == t[..width][1..] == t[1..][..width - 1];
      ReadFixedLocal(s[1..], t[1..], width - 1);
    }
  }

  // ---------------------------------------------------------------- concrete widths

  lemma Powers()
    ensures Pow128(5) == 0x8_0000_0000 && Pow128(10) > TWO_64
    ensures Pow256(4) == TWO_32 && Pow256(8) == TWO_64
  {
    assert Pow128(3) == 0x20_0000 && Pow128(6) == 0x80 * Pow128(5) && Pow128(8) == 0x80 * Pow128(7)
        && Pow128(10) == 0x80 * Pow128(9);
    assert Pow256(2) == 0x1_0000 && Pow256(4) == TWO_32 && Pow256(6) == 0x100 * Pow256(5);
  }

  lemma ReadTagVarint(n: UInt32, t: Bytes)
    ensures ReadTag(Varint(n) + t) == Read(n, |Varint(n)|)
  {
    Powers();
    ReadBase128Varint(n, t, 5);
  }

  lemma ReadVarint64Varint(n: UInt64, t: Bytes)
    ensures ReadVarint64(Varint(n) + t) == Read(n, |Varint(n)|)
  {
    Powers();
    ReadBase128Varint(n, t, 10);
  }

  /** Contents no longer than the largest length are read back behind their prefix. */
  lemma ReadDelimitedDelimited(data: Bytes, t: Bytes)
    requires |data| <= MAX_LENGTH
    ensures ReadDelimited(Delimited(data) + t) == Read(data, |Delimited(data)|)
  {
    Powers();
    var prefix := Varint(|data|);
    var s := prefix + (data + t);
    ReadBase128Varint(|data|, data + t, 5);
    hide Varint, ReadBase128;
    assert Delimited(data) + t == s;
    assert s[|prefix|..|prefix| + |data|] == data;
  }

  lemma ReadDelimitedLocal(s: Bytes, t: Bytes)
    requires ReadDelimited(s).Read?
    requires ReadDelimited(s).taken <= |t| && s[..ReadDelimited(s).taken] == t[..ReadDelimited(s).taken]
    ensures ReadDelimited(t) == ReadDelimited(s)
  {
    var n := ReadBase128(s, 5).taken;
    var all := ReadDelimited(s).taken;
    assert s[..n] == s[..all][..n] == t[..all][..n] == t[..n];
    ReadBase128Local(s, t, 5);
    assert s[n..all] == s[..all][n..] == t[..all][n..] == t[n..all];
  }

  // ---------------------------------------------------------------- sizes

  /** `VarintSize64`: the number of seven-bit groups, found by thresholds. */
  function VarintSize(n: UInt64): (r: nat)
    ensures 1 <= r <= 10
  {
    if n < 0x80 then 1
    else if n < 0x4000 then 2
    else if n < 0x20_0000 then 3
    else if n < 0x1000_0000 then 4
    else if n < 0x8_0000_0000 then 5
    else if n < 0x400_0000_0000 then 6
    else if n < 0x2_0000_0000_0000 then 7
    else if n < 0x100_0000_0000_0000 then 8
    else if n < 0x8000_0000_0000_0000 then 9
    else 10
  }

  lemma {:induction false} VarintSizeExact(n: UInt64)
    ensures VarintSize(n) == |Varint(n)|
  {
    if n >= 0x80 {
      VarintSizeExact(n / 0x80);
    }
  }

  /** A negative `int32` takes ten bytes, because it is sign-extended first. */
  lemma NegativeIsTenBytes(x: Int64)
    requires x < 0
    ensures |Varint(SignExtend(x))| == 10
  {
    VarintSizeExact(SignExtend(x));
  }
}
