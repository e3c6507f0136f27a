/** UTF-8, the encoding of Python's `str.encode()`. A Dafny `char` is a
    Unicode scalar value, so every string has an encoding. */
module Utf8 {
  import opened Common
  import Sequence

  /** The one to four bytes of `c`. */
  function EncodeChar(c: char): (r: seq<Byte>)
    ensures 1 <= |r| <= 4
    ensures (|r| == 1) == (c as int < 0x80)
  {
    var cp := c as int;
    if cp < 0x80 then [cp]
    else if cp < 0x800 then [0xC0 + cp / 0x40, 0x80 + cp % 0x40]
    else if cp < 0x1_0000 then [0xE0 + cp / 0x1000, 0x80 + (cp / 0x40) % 0x40, 0x80 + cp % 0x40]
    else [0xF0 + cp / 0x4_0000, 0x80 + (cp / 0x1000) % 0x40, 0x80 + (cp / 0x40) % 0x40, 0x80 + cp % 0x40]
  }

  function Encode(s: string): seq<Byte>
  {
    Sequence.Flatten(s, EncodeChar)
  }

  predicate IsContinuation(b: Byte) { 0x80 <= b < 0xC0 }

  predicate IsScalar(cp: int) { 0 <= cp < 0xD800 || 0xE000 <= cp < 0x11_0000 }

  /** Reads one character, refusing truncated, overlong and surrogate forms. */
  function DecodeChar(bs: seq<Byte>): Option<(char, seq<Byte>)>
  {
    if |bs| == 0 then None
    else if bs[0] < 0x80 then Some((bs[0] as char, bs[1..]))
    else if bs[0] < 0xC0 then None
    else if bs[0] < 0xE0 then
      if |bs| < 2 || !IsContinuation(bs[1]) then None
      else
        var cp := (bs[0] as int - 0xC0) * 0x40 + (bs[1] as int - 0x80);
        if cp < 0x80 then None else Some((cp as char, bs[2..]))
    else if bs[0] < 0xF0 then
      if |bs| < 3 || !IsContinuation(bs[1]) || !IsContinuation(bs[2]) then None
      else
        var cp := ((bs[0] as int - 0xE0) * 0x40 + (bs[1] as int - 0x80)) * 0x40 + (bs[2] as int - 0x80);
        if cp < 0x800 || !IsScalar(cp) then None else Some((cp as char, bs[3..]))
    else if bs[0] < 0xF8 then
      if |bs| < 4 || !IsContinuation(bs[1]) || !IsContinuation(bs[2]) || !IsContinuation(bs[3]) then None
      else
        var cp := (((bs[0] as int - 0xF0) * 0x40 + (bs[1] as int - 0x80)) * 0x40 + (bs[2] as int - 0x80)) * 0x40 + (bs[3] as int - 0x80);
        if cp < 0x1_0000 || !IsScalar(cp) then None else Some((cp as char, bs[4..]))
    else None
  }

  /** Reads characters until the bytes run out. */
  function Decode(bs: seq<Byte>): Option<string>
    decreases |bs|
  {
    if bs == [] then Some([])
    else match DecodeChar(bs)
      case None => None
      case Some((c, rest)) =>
        if |rest| >= |bs| then None
        else match Decode(rest)
          case None => None
          case Some(s) => Some([c] + s)
  }

  lemma DecodeEncodeChar(c: char, rest: seq<Byte>)
    ensures DecodeChar(EncodeChar(c) + rest) == Some((c, rest))
  {
    var cp := c as int;
    if cp < 0x80 {
      assert (EncodeChar(c) + rest)[1..] == rest;
    } else if cp < 0x800 {
      DecodeTwo(c, rest);
    } else if cp < 0x1_0000 {
      DecodeThree(c, rest);
    } else {
      DecodeFour(c, rest);
    }
  }

  lemma DecodeTwo(c: char, rest: seq<Byte>)
    requires 0x80 <= c as int < 0x800
    ensures DecodeChar(EncodeChar(c) + rest) == Some((c, rest))
  {
    var cp := c as int;
    var bs := EncodeChar(c) + rest;
    var b0, b1 := 0xC0 + cp / 0x40, 0x80 + cp % 0x40;
    assert EncodeChar(c) == [b0, b1];
    assert bs[0] == b0 && bs[1] == b1 && bs[2..] == rest;
    assert (b0 - 0xC0) * 0x40 + (b1 - 0x80) == cp;
  }

  lemma DecodeThree(c: char, rest: seq<Byte>)
    requires 0x800 <= c as int < 0x1_0000
    ensures DecodeChar(EncodeChar(c) + rest) == Some((c, rest))
  {
    var cp := c as int;
    var bs := EncodeChar(c) + rest;
    var b0, b1, b2 := 0xE0 + cp / 0x1000, 0x80 + (cp / 0x40) % 0x40, 0x80 + cp % 0x40;
    assert EncodeChar(c) == [b0, b1, b2];
    assert bs[0] == b0 && bs[1] == b1 && bs[2] == b2 && bs[3..] == rest;
    assert (b0 - 0xE0) * 0x40 + (b1 - 0x80) == cp / 0x40;
    assert ((b0 - 0xE0) * 0x40 + (b1 - 0x80)) * 0x40 + (b2 - 0x80) == cp;
  }

  lemma DecodeFour(c: char, rest: seq<Byte>)
    requires 0x1_0000 <= c as int
    ensures DecodeChar(EncodeChar(c) + rest) == Some((c, rest))
  {
    var cp := c as int;
    var bs := EncodeChar(c) + rest;
    var b0, b1, b2, b3 := 0xF0 + cp / 0x4_0000, 0x80 + (cp / 0x1000) % 0x40, 0x80 + (cp / 0x40) % 0x40, 0x80 + cp % 0x40;
    assert EncodeChar(c) == [b0, b1, b2, b3];
    assert bs[0] == b0 && bs[1] == b1 && bs[2] == b2 && bs[3] == b3 && bs[4..] == rest;
    assert (b0 - 0xF0) * 0x40 + (b1 - 0x80) == cp / 0x1000;
    assert ((b0 - 0xF0) * 0x40 + (b1 - 0x80)) * 0x40 + (b2 - 0x80) == cp / 0x40;
    assert (((b0 - 0xF0) * 0x40 + (b1 - 0x80)) * 0x40 + (b2 - 0x80)) * 0x40 + (b3 - 0x80) == cp;
  }

  /** UTF-8 decoding undoes `str.encode()`. */
  lemma {:induction false} DecodeEncode(s: string)
    ensures Decode(Encode(s)) == Some(s)
  {
    if s != [] {
      var tail := Encode(s[1..]);
      assert Encode(s) == EncodeChar(s[0]) + tail;
      DecodeEncodeChar(s[0], tail);
      DecodeEncode(s[1..]);
      assert [s[0]] + s[1..] == s;
    }
  }
}
