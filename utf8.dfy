/** `Encoding.UTF8` on strings of Unicode scalar values (RFC 3629): each character becomes one
    to four bytes. The decoder is the reference reading of the same format; it refuses overlong
    forms, surrogates and values past U+10FFFF. */
module Utf8 {
  import opened Common

  /** The continuation byte carrying the six bits of `v` starting at bit 0. */
  function Tail(v: int): byte
    requires v >= 0
  {
    0x80 + v % 64
  }

  /** The bytes of one character. */
  function EncodeChar(c: char): (b: seq<byte>)
    ensures 1 <= |b| <= 4
    ensures |b| == 1 <==> c as int < 0x80
    ensures |b| == 1 ==> b[0] == c as int
  {
    var v := c as int;
    if v < 0x80 then [v]
    else if v < 0x800 then [0xc0 + v / 64, Tail(v)]
    else if v < 0x1_0000 then [0xe0 + v / 4096, Tail(v / 64), Tail(v)]
    else [0xf0 + v / 0x4_0000, Tail(v / 4096), Tail(v / 64), Tail(v)]
  }

  /** `GetBytes(s)`: the characters' bytes one after another. */
  function Encode(s: string): (b: seq<byte>)
    ensures |b| >= |s|
  {
    if s == [] then [] else EncodeChar(s[0]) + Encode(s[1..])
  }

  predicate IsTail(b: byte)
  {
    0x80 <= b < 0xc0
  }

  /** A valid code point, which Dafny's `char` represents. */
  predicate IsScalar(v: int)
  {
    0 <= v < 0xd800 || 0xe000 <= v < 0x11_0000
  }

  /** The character at the front of `b` and the number of bytes it occupies. */
  function DecodeChar(b: seq<byte>): (r: Option<(char, nat)>)
    ensures r.Some? ==> 1 <= r.value.1 <= |b|
  {
    if |b| == 0 then None
    else if b[0] < 0x80 then Some((b[0] as char, 1))
    else if 0xc0 <= b[0] < 0xe0 && |b| >= 2 && IsTail(b[1]) then
      var v := (b[0] as int - 0xc0) * 64 + (b[1] as int - 0x80);
      if v >= 0x80 then Some((v as char, 2)) else None
    else if 0xe0 <= b[0] < 0xf0 && |b| >= 3 && IsTail(b[1]) && IsTail(b[2]) then
      var v := (b[0] as int - 0xe0) * 4096 + (b[1] as int - 0x80) * 64 + (b[2] as int - 0x80);
      if v >= 0x800 && IsScalar(v) then Some((v as char, 3)) else None
    else if 0xf0 <= b[0] < 0xf8 && |b| >= 4 && IsTail(b[1]) && IsTail(b[2]) && IsTail(b[3]) then
      var v := (b[0] as int - 0xf0) * 0x4_0000 + (b[1] as int - 0x80) * 4096 + (b[2] as int - 0x80) * 64 + (b[3] as int - 0x80);
      if 0x1_0000 <= v && IsScalar(v) then Some((v as char, 4)) else None
    else None
  }

  /** The characters of a well-formed byte sequence, or `None`. */
  function Decode(b: seq<byte>): Option<string>
    decreases |b|
  {
    if b == [] then Some([])
    else match DecodeChar(b)
      case None => None
      case Some((c, n)) =>
        match Decode(b[n..])
        case None => None
        case Some(rest) => Some([c] + rest)
  }

  /** `v` split into its low six bits and the rest. */
  lemma SixBits(v: nat)
    ensures v == 64 * (v / 64) + v % 64 && 0 <= v % 64 < 64
  {
  }

  /** Dividing by 64 twice is dividing by 4096, and three times by 0x4_0000. */
  lemma NestedQuotients(v: nat)
    ensures v / 64 / 64 == v / 4096 && v / 4096 / 64 == v / 0x4_0000
  {
  }

  /** One encoded character reads back as itself, whatever follows it. */
  lemma DecodeEncodeChar(c: char, rest: seq<byte>)
    ensures DecodeChar(EncodeChar(c) + rest) == Some((c, |EncodeChar(c)|))
  {
    var v := c as int;
    if 0x80 <= v < 0x800 {
      DecodeTwo(c, rest);
    } else if 0x800 <= v < 0x1_0000 {
      DecodeThree(c, rest);
    } else if 0x1_0000 <= v {
      DecodeFour(c, rest);
    }
  }

  lemma DecodeTwo(c: char, rest: seq<byte>)
    requires 0x80 <= c as int < 0x800
    ensures DecodeChar(EncodeChar(c) + rest) == Some((c, 2))
  {
    var v := c as int;
    var b := EncodeChar(c) + rest;
    SixBits(v);
    assert b[0] as int - 0xc0 == v / 64 && b[1] as int - 0x80 == v % 64;
  }

  lemma DecodeThree(c: char, rest: seq<byte>)
    requires 0x800 <= c as int < 0x1_0000
    ensures DecodeChar(EncodeChar(c) + rest) == Some((c, 3))
  {
    var v := c as int;
    var b := EncodeChar(c) + rest;
    SixBits(v);
    SixBits(v / 64);
    NestedQuotients(v);
    assert b[0] as int - 0xe0 == v / 4096 && b[1] as int - 0x80 == (v / 64) % 64 && b[2] as int - 0x80 == v % 64;
  }

  lemma DecodeFour(c: char, rest: seq<byte>)
    requires 0x1_0000 <= c as int
    ensures DecodeChar(EncodeChar(c) + rest) == Some((c, 4))
  {
    var v := c as int;
    var b := EncodeChar(c) + rest;
    SixBits(v);
    SixBits(v / 64);
    SixBits(v / 4096);
    NestedQuotients(v);
    assert b[0] as int - 0xf0 == v / 0x4_0000 && b[1] as int - 0x80 == (v / 4096) % 64;
    assert b[2] as int - 0x80 == (v / 64) % 64 && b[3] as int - 0x80 == v % 64;
  }

  /** Decoding undoes encoding. */
  lemma {:induction false} DecodeEncode(s: string)
    ensures Decode(Encode(s)) == Some(s)
  {
    if s != [] {
      var head := EncodeChar(s[0]);
      var rest := Encode(s[1..]);
      DecodeEncodeChar(s[0], rest);
      assert (head + rest)[|head|..] == rest;
      DecodeEncode(s[1..]);
      assert s == [s[0]] + s[1..];
    }
  }

  /** The encoding of a concatenation is the concatenation of the encodings. */
  lemma {:induction false} EncodeAppend(s: string, t: string)
    ensures Encode(s + t) == Encode(s) + Encode(t)
  {
    if s != [] {
      assert s + t != [] && (s + t)[0] == s[0] && (s + t)[1..] == s[1..] + t;
      EncodeAppend(s[1..], t);
      assert Encode(s + t) == EncodeChar(s[0]) + (Encode(s[1..]) + Encode(t));
    } else {
      assert s + t == t;
    }
  }

  /** Characters below U+0080 are their own single byte. */
  lemma {:induction false} EncodeAscii(s: string)
    requires forall i :: 0 <= i < |s| ==> s[i] as int < 0x80
    ensures |Encode(s)| == |s|
    ensures forall i :: 0 <= i < |s| ==> Encode(s)[i] == s[i] as int
  {
    if s != [] {
      EncodeAscii(s[1..]);
    }
  }

  /** No encoded character contains a zero byte unless it is U+0000. */
  lemma {:induction false} EncodeNoZero(s: string)
    requires forall i :: 0 <= i < |s| ==> s[i] != '\0'
    ensures forall i :: 0 <= i < |Encode(s)| ==> Encode(s)[i] != 0
  {
    if s != [] {
      EncodeNoZero(s[1..]);
      var head := EncodeChar(s[0]);
      assert forall i :: 0 <= i < |head| ==> head[i] != 0;
    }
  }
}
