/**
 The check behind `VerifyUTF8`: the byte-sequence grammar of RFC 3629, section 4,
 together with the encoding of section 3 that it characterises.
 */
module Utf8 {
  import opened Wire

  /** A Unicode scalar value: any code point that is not a surrogate. */
  type Scalar = c: int | 0 <= c < 0xD800 || 0xE000 <= c <= 0x10FFFF

  predicate IsTail(b: Byte) {
    0x80 <= b <= 0xBF
  }

  /** The length of the UTF-8 character `s` starts with, or 0 if it starts with none. */
  function CharWidth(s: Bytes): (w: nat)
    ensures w <= |s| && w <= 4
  {
    if s == [] then 0
    else if s[0] <= 0x7F then 1
    else if 0xC2 <= s[0] <= 0xDF then
      if |s| >= 2 && IsTail(s[1]) then 2 else 0
    else if 0xE0 <= s[0] <= 0xEF then
      if |s| >= 3 && IsTail(s[1]) && IsTail(s[2])
         && (s[0] == 0xE0 ==> 0xA0 <= s[1]) && (s[0] == 0xED ==> s[1] <= 0x9F)
      then 3 else 0
    else if 0xF0 <= s[0] <= 0xF4 then
      if |s| >= 4 && IsTail(s[1]) && IsTail(s[2]) && IsTail(s[3])
         && (s[0] == 0xF0 ==> 0x90 <= s[1]) && (s[0] == 0xF4 ==> s[1] <= 0x8F)
      then 4 else 0
    else 0
  }

  predicate ValidUtf8(s: Bytes)
    decreases |s|
  {
    s == [] || (CharWidth(s) > 0 && ValidUtf8(s[CharWidth(s)..]))
  }

  /** A string a parser can produce. */
  predicate IsText(s: Bytes) {
    ValidUtf8(s) && |s| <= MAX_LENGTH
  }

  /** A tail byte carries the low six bits of `c`. */
  function Tail(c: nat): Byte {
    0x80 + c % 0x40
  }

  function EncodeScalar(c: Scalar): (r: Bytes)
    ensures 1 <= |r| <= 4
  {
    var c1 := c / 0x40;
    var c2 := c1 / 0x40;
    if c < 0x80 then [c]
    else if c < 0x800 then [0xC0 + c1, Tail(c)]
    else if c < 0x1_0000 then [0xE0 + c2, Tail(c1), Tail(c)]
    else [0xF0 + c2 / 0x40, Tail(c2), Tail(c1), Tail(c)]
  }

  function EncodeText(cs: seq<Scalar>): Bytes {
    if cs == [] then [] else EncodeScalar(cs[0]) + EncodeText(cs[1..])
  }

  /** Appends six bits to a number. */
  function Push(high: nat, b: Byte): (c: nat)
    requires IsTail(b)
    ensures c / 0x40 == high && Tail(c) == b
  {
    high * 0x40 + (b - 0x80)
  }

  /** The code point of the character `s` starts with. */
  function DecodeScalar(s: Bytes): (c: Scalar)
    requires CharWidth(s) > 0
    ensures EncodeScalar(c) == s[..CharWidth(s)]
  {
    var lead: int := s[0];
    match CharWidth(s)
    case 1 => lead
    case 2 => Push(lead - 0xC0, s[1])
    case 3 => Push(Push(lead - 0xE0, s[1]), s[2])
    case _ => Push(Push(Push(lead - 0xF0, s[1]), s[2]), s[3])
  }

  lemma EncodedWidth(c: Scalar, t: Bytes)
    ensures CharWidth(EncodeScalar(c) + t) == |EncodeScalar(c)|
  {
  }

  lemma {:induction false} EncodedTextIsValid(cs: seq<Scalar>)
    ensures ValidUtf8(EncodeText(cs))
  {
    if cs != [] {
      EncodedWidth(cs[0], EncodeText(cs[1..]));
      assert EncodeText(cs)[|EncodeScalar(cs[0])|..] == EncodeText(cs[1..]);
      EncodedTextIsValid(cs[1..]);
    }
  }

  function Decode(s: Bytes): (cs: seq<Scalar>)
    requires ValidUtf8(s)
    decreases |s|
  {
    if s == [] then [] else [DecodeScalar(s)] + Decode(s[CharWidth(s)..])
  }

  lemma NothingDecoded()
    ensures ValidUtf8([]) && EncodeText(Decode([])) == []
  {
  }

  lemma DecodeHead(s: Bytes)
    requires ValidUtf8(s) && s != []
    ensures var w := CharWidth(s);
            && 0 < w <= |s| && ValidUtf8(s[w..])
            && EncodeText(Decode(s)) == s[..w] + EncodeText(Decode(s[w..]))
  {
    hide CharWidth, EncodeScalar, DecodeScalar;
    var c, cs := DecodeScalar(s), Decode(s[CharWidth(s)..]);
    assert Decode(s) == [c] + cs && ([c] + cs)[1..] == cs;
  }

  lemma {:induction false} DecodeEncodes(s: Bytes)
    requires ValidUtf8(s)
    ensures EncodeText(Decode(s)) == s
    decreases |s|
  {
    hide ValidUtf8, CharWidth, EncodeText, Decode;
    if s == [] {
      NothingDecoded();
    } else {
      DecodeHead(s);
      DecodeEncodes(s[CharWidth(s)..]);
    }
  }

  /** The check accepts exactly the encodings of sequences of scalar values. */
  lemma ValidUtf8Iff(s: Bytes)
    ensures ValidUtf8(s) <==> exists cs :: EncodeText(cs) == s
  {
    if ValidUtf8(s) {
      DecodeEncodes(s);
    }
    forall cs | EncodeText(cs) == s
      ensures ValidUtf8(s)
    {
      EncodedTextIsValid(cs);
    }
  }
}
