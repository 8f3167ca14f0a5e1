/**
 * UTF-8 as in RFC 3629: `String.data(using: .utf8)` is `Encode`, and
 * `String(data:encoding: .utf8)` is `Decode`, which refuses ill-formed input
 * (stray continuation bytes, overlong forms, surrogates, code points above
 * U+10FFFF, truncated sequences).
 */
module Utf8 {
  import opened Wrappers
  import opened Bytes

  predicate IsContinuation(b: byte) {
    0x80 <= b <= 0xBF
  }

  function EncodeChar(c: char): (r: seq<byte>)
    ensures 1 <= |r| <= 4
    ensures |r| == 1 <==> c as int < 0x80
  {
    var cp := c as int;
    var m1 := cp / 64;
    var m2 := m1 / 64;
    var m3 := m2 / 64;
    if cp < 0x80 then [cp as byte]
    else if cp < 0x800 then [(0xC0 + m1) as byte, (0x80 + cp % 64) as byte]
    else if cp < 0x1_0000 then [(0xE0 + m2) as byte, (0x80 + m1 % 64) as byte, (0x80 + cp % 64) as byte]
    else [(0xF0 + m3) as byte, (0x80 + m2 % 64) as byte, (0x80 + m1 % 64) as byte, (0x80 + cp % 64) as byte]
  }

  function Encode(s: string): (r: seq<byte>)
    ensures |r| >= |s|
  {
    if |s| == 0 then [] else EncodeChar(s[0]) + Encode(s[1..])
  }

  /** The first scalar of `b` and the number of bytes it takes, if they are well formed. */
  function DecodeOne(b: seq<byte>): (r: Option<(char, nat)>)
    requires |b| > 0
    ensures r.Some? ==> 1 <= r.value.1 <= |b| && r.value.1 <= 4
  {
    var b0 := b[0] as int;
    if b0 < 0x80 then Some((b0 as char, 1))
    else if 0xC2 <= b0 <= 0xDF then
      if |b| >= 2 && IsContinuation(b[1]) then
        Some((((b0 - 0xC0) * 64 + (b[1] as int - 0x80)) as char, 2))
      else None
    else if 0xE0 <= b0 <= 0xEF then
      if |b| >= 3 && IsContinuation(b[1]) && IsContinuation(b[2]) then
        var cp := ((b0 - 0xE0) * 64 + (b[1] as int - 0x80)) * 64 + (b[2] as int - 0x80);
        if cp < 0x800 || 0xD800 <= cp <= 0xDFFF then None else Some((cp as char, 3))
      else None
    else if 0xF0 <= b0 <= 0xF4 then
      if |b| >= 4 && IsContinuation(b[1]) && IsContinuation(b[2]) && IsContinuation(b[3]) then
        var cp := (((b0 - 0xF0) * 64 + (b[1] as int - 0x80)) * 64 + (b[2] as int - 0x80)) * 64 + (b[3] as int - 0x80);
        if cp < 0x1_0000 || cp > 0x10_FFFF then None else Some((cp as char, 4))
      else None
    else None
  }

  function Decode(b: seq<byte>): (r: Option<string>)
    ensures r.Some? ==> |r.value| <= |b|
    decreases |b|
  {
    if |b| == 0 then Some([])
    else match DecodeOne(b)
      case None => None
      case Some((c, n)) =>
        match Decode(b[n..])
        case None => None
        case Some(s) => Some([c] + s)
  }

  lemma DecodeOneEncodeChar(c: char, rest: seq<byte>)
    ensures DecodeOne(EncodeChar(c) + rest) == Some((c, |EncodeChar(c)|))
  {
    var cp := c as int;
    if cp < 0x80 {
    } else if cp < 0x800 {
      DecodeTwoBytes(c, rest);
    } else if cp < 0x1_0000 {
      DecodeThreeBytes(c, rest);
    } else {
      DecodeFourBytes(c, rest);
    }
  }

  lemma DecodeTwoBytes(c: char, rest: seq<byte>)
    requires 0x80 <= c as int < 0x800
    ensures DecodeOne(EncodeChar(c) + rest) == Some((c, 2))
  {
    var cp := c as int;
    var m1 := cp / 64;
    var b := EncodeChar(c) + rest;
    assert cp == m1 * 64 + cp % 64;
    assert b[0] as int == 0xC0 + m1 && b[1] as int == 0x80 + cp % 64;
  }

  lemma DecodeThreeBytes(c: char, rest: seq<byte>)
    requires 0x800 <= c as int < 0x1_0000
    ensures DecodeOne(EncodeChar(c) + rest) == Some((c, 3))
  {
    var cp := c as int;
    var m1 := cp / 64;
    var m2 := m1 / 64;
    var b := EncodeChar(c) + rest;
    assert cp == m1 * 64 + cp % 64;
    assert m1 == m2 * 64 + m1 % 64;
    assert b[0] as int == 0xE0 + m2 && b[1] as int == 0x80 + m1 % 64 && b[2] as int == 0x80 + cp % 64;
  }

  lemma DecodeFourBytes(c: char, rest: seq<byte>)
    requires 0x1_0000 <= c as int
    ensures DecodeOne(EncodeChar(c) + rest) == Some((c, 4))
  {
    var cp := c as int;
    var m1 := cp / 64;
    var m2 := m1 / 64;
    var m3 := m2 / 64;
    var b := EncodeChar(c) + rest;
    assert cp == m1 * 64 + cp % 64;
    assert m1 == m2 * 64 + m1 % 64;
    assert m2 == m3 * 64 + m2 % 64;
    assert b[0] as int == 0xF0 + m3 && b[1] as int == 0x80 + m2 % 64;
    assert b[2] as int == 0x80 + m1 % 64 && b[3] as int == 0x80 + cp % 64;
  }

  lemma EncodeTwo(b0: byte, b1: byte)
    requires 0xC2 <= b0 <= 0xDF && IsContinuation(b1)
    ensures var cp := (b0 as int - 0xC0) * 64 + (b1 as int - 0x80);
            0x80 <= cp < 0x800 && EncodeChar(cp as char) == [b0, b1]
  {
  }

  lemma EncodeThree(b0: byte, b1: byte, b2: byte)
    requires 0xE0 <= b0 <= 0xEF && IsContinuation(b1) && IsContinuation(b2)
    requires var cp := ((b0 as int - 0xE0) * 64 + (b1 as int - 0x80)) * 64 + (b2 as int - 0x80);
             0x800 <= cp && !(0xD800 <= cp <= 0xDFFF)
    ensures var cp := ((b0 as int - 0xE0) * 64 + (b1 as int - 0x80)) * 64 + (b2 as int - 0x80);
            cp < 0x1_0000 && EncodeChar(cp as char) == [b0, b1, b2]
  {
    var m1 := (b0 as int - 0xE0) * 64 + (b1 as int - 0x80);
    var cp := m1 * 64 + (b2 as int - 0x80);
    assert cp / 64 == m1 && cp % 64 == b2 as int - 0x80;
    assert m1 / 64 == b0 as int - 0xE0 && m1 % 64 == b1 as int - 0x80;
  }

  lemma EncodeFour(b0: byte, b1: byte, b2: byte, b3: byte)
    requires 0xF0 <= b0 <= 0xF4 && IsContinuation(b1) && IsContinuation(b2) && IsContinuation(b3)
    requires var cp := (((b0 as int - 0xF0) * 64 + (b1 as int - 0x80)) * 64 + (b2 as int - 0x80)) * 64 + (b3 as int - 0x80);
             0x1_0000 <= cp <= 0x10_FFFF
    ensures var cp := (((b0 as int - 0xF0) * 64 + (b1 as int - 0x80)) * 64 + (b2 as int - 0x80)) * 64 + (b3 as int - 0x80);
            EncodeChar(cp as char) == [b0, b1, b2, b3]
  {
    var m2 := (b0 as int - 0xF0) * 64 + (b1 as int - 0x80);
    var m1 := m2 * 64 + (b2 as int - 0x80);
    var cp := m1 * 64 + (b3 as int - 0x80);
    assert cp / 64 == m1 && cp % 64 == b3 as int - 0x80;
    assert m1 / 64 == m2 && m1 % 64 == b2 as int - 0x80;
    assert m2 / 64 == b0 as int - 0xF0 && m2 % 64 == b1 as int - 0x80;
  }

  lemma EncodeCharDecodeOne(b: seq<byte>)
    requires |b| > 0 && DecodeOne(b).Some?
    ensures EncodeChar(DecodeOne(b).value.0) == b[..DecodeOne(b).value.1]
  {
    var b0 := b[0];
    if b0 < 0x80 {
    } else if 0xC2 <= b0 <= 0xDF {
      EncodeTwo(b0, b[1]);
    } else if 0xE0 <= b0 <= 0xEF {
      EncodeThree(b0, b[1], b[2]);
    } else {
      EncodeFour(b0, b[1], b[2], b[3]);
    }
  }

  /** Encoding distributes over concatenation. */
  lemma {:induction false} EncodeAppend(s: string, t: string)
    ensures Encode(s + t) == Encode(s) + Encode(t)
  {
    if |s| > 0 {
      assert (s + t)[0] == s[0];
      assert (s + t)[1..] == s[1..] + t;
      EncodeAppend(s[1..], t);
    } else {
      assert s + t == t;
    }
  }

  /** Decoding the encoding of any text gives the text back. */
  lemma {:induction false} DecodeEncode(s: string)
    ensures Decode(Encode(s)) == Some(s)
  {
    if |s| > 0 {
      var e := EncodeChar(s[0]);
      DecodeOneEncodeChar(s[0], Encode(s[1..]));
      assert (e + Encode(s[1..]))[|e|..] == Encode(s[1..]);
      DecodeEncode(s[1..]);
      assert [s[0]] + s[1..] == s;
    }
  }

  /** Whatever decodes is the encoding of what it decodes to. */
  lemma {:induction false} EncodeDecode(b: seq<byte>)
    requires Decode(b).Some?
    ensures Encode(Decode(b).value) == b
    decreases |b|
  {
    if |b| > 0 {
      var c := DecodeOne(b).value.0;
      var n := DecodeOne(b).value.1;
      var tail := Decode(b[n..]).value;
      assert Decode(b).value == [c] + tail;
      EncodeDecode(b[n..]);
      EncodeDecodeStep(b, c, n, tail);
    }
  }

  lemma EncodeDecodeStep(b: seq<byte>, c: char, n: nat, tail: string)
    requires |b| > 0 && DecodeOne(b) == Some((c, n))
    requires Encode(tail) == b[n..]
    ensures Encode([c] + tail) == b
  {
    EncodeCharDecodeOne(b);
    EncodeCons(c, tail);
    assert b == b[..n] + b[n..];
  }

  lemma EncodeCons(c: char, tail: string)
    ensures Encode([c] + tail) == EncodeChar(c) + Encode(tail)
  {
    var s := [c] + tail;
    assert s[0] == c && s[1..] == tail;
  }

  /** Every scalar below U+0080 is one byte, so an ASCII text has as many bytes as characters. */
  predicate IsAscii(s: string) {
    forall i :: 0 <= i < |s| ==> s[i] as int < 0x80
  }

  lemma {:induction false} AsciiLength(s: string)
    requires IsAscii(s)
    ensures |Encode(s)| == |s|
  {
    if |s| > 0 {
      AsciiLength(s[1..]);
    }
  }

  /** No scalar takes more than four bytes. */
  lemma {:induction false} EncodeBound(s: string)
    ensures |Encode(s)| <= 4 * |s|
  {
    if |s| > 0 {
      EncodeBound(s[1..]);
    }
  }

  /** The encoding is injective. */
  lemma EncodeInjective(s: string, t: string)
    requires Encode(s) == Encode(t)
    ensures s == t
  {
    DecodeEncode(s);
    DecodeEncode(t);
  }
}
