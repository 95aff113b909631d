/** UTF-8, the encoding `QString::toUtf8` writes into every chat datagram,
    with a strict decoder as its inverse on well-formed input. A `char` here
    is a Unicode scalar value, so every string has an encoding. */
module Utf8 {
  import opened Common

  predicate IsContinuation(b: byte) {
    0x80 <= b < 0xC0
  }

  /** The one to four bytes of one scalar value, shortest form. */
  function EncodeChar(c: char): (bs: seq<byte>)
    ensures 1 <= |bs| <= 4
    ensures (c as int < 0x80) <==> |bs| == 1
    ensures c as int < 0x80 ==> bs == [c as int as byte]
  {
    var cp := c as int;
    if cp < 0x80 then
      [cp as byte]
    else if cp < 0x800 then
      [(0xC0 + cp / 64) as byte, (0x80 + cp % 64) as byte]
    else if cp < 0x1_0000 then
      [(0xE0 + cp / 4096) as byte, (0x80 + cp / 64 % 64) as byte, (0x80 + cp % 64) as byte]
    else
      [(0xF0 + cp / 262144) as byte, (0x80 + cp / 4096 % 64) as byte,
       (0x80 + cp / 64 % 64) as byte, (0x80 + cp % 64) as byte]
  }

  function Encode(s: string): (bs: seq<byte>)
    ensures |s| <= |bs| <= 4 * |s|
  {
    if |s| == 0 then [] else EncodeChar(s[0]) + Encode(s[1..])
  }

  /** Decodes the scalar value at the head of `bs`, rejecting overlong
      forms, surrogates and values beyond U+10FFFF. Returns the value and
      the number of bytes it took. */
  function DecodeChar(bs: seq<byte>): (r: Option<(char, nat)>)
    requires |bs| > 0
    ensures r.Some? ==> 1 <= r.value.1 <= |bs|
  {
    var b0 := bs[0] as int;
    if b0 < 0x80 then
      Some((b0 as char, 1))
    else if 0xC2 <= b0 < 0xE0 && |bs| >= 2 && IsContinuation(bs[1]) then
      var cp := (b0 - 0xC0) * 64 + (bs[1] as int - 0x80);
      Some((cp as char, 2))
    else if 0xE0 <= b0 < 0xF0 && |bs| >= 3 && IsContinuation(bs[1]) && IsContinuation(bs[2]) then
      var cp := (b0 - 0xE0) * 4096 + (bs[1] as int - 0x80) * 64 + (bs[2] as int - 0x80);
      if 0x800 <= cp && (cp < 0xD800 || 0xE000 <= cp) then Some((cp as char, 3)) else None
    else if 0xF0 <= b0 < 0xF5 && |bs| >= 4
            && IsContinuation(bs[1]) && IsContinuation(bs[2]) && IsContinuation(bs[3]) then
      var cp := (b0 - 0xF0) * 262144 + (bs[1] as int - 0x80) * 4096
                + (bs[2] as int - 0x80) * 64 + (bs[3] as int - 0x80);
      if 0x1_0000 <= cp <= 0x10_FFFF then Some((cp as char, 4)) else None
    else
      None
  }

  /** Well-formed UTF-8 to text; `None` on any ill-formed sequence. */
  function Decode(bs: seq<byte>): Option<string>
    decreases |bs|
  {
    if |bs| == 0 then Some([])
    else
      match DecodeChar(bs)
      case None => None
      case Some((c, n)) =>
        match Decode(bs[n..])
        case None => None
        case Some(s) => Some([c] + s)
  }

  /** The three six-bit groups of a value below 2^18, and the top bits. */
  lemma SixBitGroups(cp: int)
    requires 0 <= cp
    ensures cp == cp / 262144 * 262144 + cp / 4096 % 64 * 4096 + cp / 64 % 64 * 64 + cp % 64
    ensures cp == cp / 4096 * 4096 + cp / 64 % 64 * 64 + cp % 64
    ensures cp == cp / 64 * 64 + cp % 64
  {
    var q1 := cp / 64;
    var q2 := q1 / 64;
    assert cp == q1 * 64 + cp % 64;
    assert q1 == q2 * 64 + q1 % 64;
    assert cp / 4096 == q2;
    assert q2 == q2 / 64 * 64 + q2 % 64;
    assert cp / 262144 == q2 / 64;
  }

  lemma DecodeEncodeChar(c: char, rest: seq<byte>)
    ensures DecodeChar(EncodeChar(c) + rest) == Some((c, |EncodeChar(c)|))
  {
    var cp := c as int;
    if cp < 0x80 {
    } else if cp < 0x800 {
      DecodeEncodeTwo(c, rest);
    } else if cp < 0x1_0000 {
      DecodeEncodeThree(c, rest);
    } else {
      DecodeEncodeFour(c, rest);
    }
  }

  lemma DecodeEncodeTwo(c: char, rest: seq<byte>)
    requires 0x80 <= c as int < 0x800
    ensures DecodeChar(EncodeChar(c) + rest) == Some((c, 2))
  {
    var cp := c as int;
    var bs := EncodeChar(c) + rest;
    SixBitGroups(cp);
    assert bs[0] as int == 0xC0 + cp / 64 && bs[1] as int == 0x80 + cp % 64;
  }

  lemma DecodeEncodeThree(c: char, rest: seq<byte>)
    requires 0x800 <= c as int < 0x1_0000
    ensures DecodeChar(EncodeChar(c) + rest) == Some((c, 3))
  {
    var cp := c as int;
    var bs := EncodeChar(c) + rest;
    SixBitGroups(cp);
    assert bs[0] as int == 0xE0 + cp / 4096;
    assert bs[1] as int == 0x80 + cp / 64 % 64;
    assert bs[2] as int == 0x80 + cp % 64;
  }

  lemma DecodeEncodeFour(c: char, rest: seq<byte>)
    requires 0x1_0000 <= c as int
    ensures DecodeChar(EncodeChar(c) + rest) == Some((c, 4))
  {
    var cp := c as int;
    var bs := EncodeChar(c) + rest;
    SixBitGroups(cp);
    assert bs[0] as int == 0xF0 + cp / 262144;
    assert bs[1] as int == 0x80 + cp / 4096 % 64;
    assert bs[2] as int == 0x80 + cp / 64 % 64;
    assert bs[3] as int == 0x80 + cp % 64;
  }

  /** Decoding undoes encoding: the bytes of a chat datagram carry exactly
      the text that was typed. */
  lemma {:induction false} DecodeEncode(s: string)
    ensures Decode(Encode(s)) == Some(s)
  {
    if |s| > 0 {
      var head := EncodeChar(s[0]);
      var bs := Encode(s);
      DecodeEncodeChar(s[0], Encode(s[1..]));
      assert bs[|head|..] == Encode(s[1..]);
      DecodeEncode(s[1..]);
      assert s == [s[0]] + s[1..];
    }
  }
}
