/**
  Bytes and the two text conversions the hub performs: the UTF-8 encoding of a
  string (`str::as_bytes`, used for the registry's payloads and for the line
  written to a socket) and the lossy decoding of a payload (`String::from_utf8_lossy`,
  used when a message is rendered).

  The lossy decoder follows the "maximal valid prefix" rule: at each position it
  either decodes one well-formed UTF-8 sequence, or it consumes the longest prefix
  of a well-formed sequence (at least one byte) and emits one U+FFFD.
 */
module Utf8 {

  type Byte = x: int | 0 <= x < 0x100

  const REPLACEMENT: char := '\U{FFFD}'

  /** A continuation byte 10xxxxxx. */
  predicate IsCont(b: Byte) {
    0x80 <= b < 0xC0
  }

  /** Length of the sequence a lead byte announces; 0 for a byte that cannot start one. */
  function Width(b: Byte): (w: nat)
    ensures w <= 4
    ensures w == 1 <==> b < 0x80
  {
    if b < 0x80 then 1
    else if 0xC2 <= b < 0xE0 then 2
    else if 0xE0 <= b < 0xF0 then 3
    else if 0xF0 <= b < 0xF5 then 4
    else 0
  }

  /** Whether `b1` may follow the multi-byte lead `b0` (excludes overlong forms, surrogates and values above U+10FFFF). */
  predicate SecondOk(b0: Byte, b1: Byte) {
    if b0 == 0xE0 then 0xA0 <= b1 < 0xC0
    else if b0 == 0xED then 0x80 <= b1 < 0xA0
    else if b0 == 0xF0 then 0x90 <= b1 < 0xC0
    else if b0 == 0xF4 then 0x80 <= b1 < 0x90
    else IsCont(b1)
  }

  /** The UTF-8 encoding of one Unicode scalar value. */
  function EncodeChar(c: char): (e: seq<Byte>)
    ensures 1 <= |e| <= 4
    ensures |e| == Width(e[0])
  {
    var cp := c as int;
    if cp < 0x80 then [cp]
    else if cp < 0x800 then [0xC0 + cp / 64, 0x80 + cp % 64]
    else if cp < 0x1_0000 then [0xE0 + cp / 64 / 64, 0x80 + cp / 64 % 64, 0x80 + cp % 64]
    else [0xF0 + cp / 64 / 64 / 64, 0x80 + cp / 64 / 64 % 64, 0x80 + cp / 64 % 64, 0x80 + cp % 64]
  }

  /** The UTF-8 encoding of a string (`str::as_bytes`). */
  function Encode(s: string): (e: seq<Byte>)
    ensures |s| <= |e| <= 4 * |s|
  {
    if |s| == 0 then [] else EncodeChar(s[0]) + Encode(s[1..])
  }

  /**
    Decodes the sequence at the front of `s`: the character and the number of
    bytes consumed. An ill-formed or truncated sequence yields U+FFFD and consumes
    the longest prefix of it that could still have been well formed.
   */
  function DecodeStep(s: seq<Byte>): (r: (char, nat))
    requires |s| > 0
    ensures 1 <= r.1 <= |s| && r.1 <= 4
  {
    var b0: int := s[0];
    var w := Width(s[0]);
    if w == 1 then (b0 as char, 1)
    else if w == 0 || |s| < 2 || !SecondOk(s[0], s[1]) then (REPLACEMENT, 1)
    else
      var x1: int := (b0 - 0xC0) * 64 + (s[1] - 0x80) as int;
      if w == 2 then (x1 as char, 2)
      else if |s| < 3 || !IsCont(s[2]) then (REPLACEMENT, 2)
      else
        var x2: int := ((b0 - 0xE0) * 64 + (s[1] - 0x80) as int) * 64 + (s[2] as int - 0x80);
        if w == 3 then (x2 as char, 3)
        else if |s| < 4 || !IsCont(s[3]) then (REPLACEMENT, 3)
        else
          var x3: int := (((b0 - 0xF0) * 64 + (s[1] as int - 0x80)) * 64 + (s[2] as int - 0x80)) * 64 + (s[3] as int - 0x80);
          (x3 as char, 4)
  }

  /** `String::from_utf8_lossy`: decodes `s`, replacing ill-formed parts by U+FFFD. */
  function Lossy(s: seq<Byte>): (t: string)
    ensures |t| <= |s|
    ensures |t| == 0 <==> |s| == 0
    decreases |s|
  {
    if |s| == 0 then ""
    else
      var (c, n) := DecodeStep(s);
      [c] + Lossy(s[n..])
  }

  /** Encoding distributes over concatenation. */
  lemma {:induction false} EncodeAppend(a: string, b: string)
    ensures Encode(a + b) == Encode(a) + Encode(b)
    decreases |a|
  {
    if |a| == 0 {
      assert a + b == b;
    } else {
      assert (a + b)[1..] == a[1..] + b;
      EncodeAppend(a[1..], b);
    }
  }

  /** The decoder reads back exactly the character that `EncodeChar` wrote, whatever follows it. */
  lemma DecodeEncodedChar(c: char, rest: seq<Byte>)
    ensures DecodeStep(EncodeChar(c) + rest) == (c, |EncodeChar(c)|)
  {
    var cp := c as int;
    if cp < 0x80 {
    } else if cp < 0x800 {
      DecodeTwo(c, rest);
    } else if cp < 0x1_0000 {
      DecodeThree(c, rest);
    } else {
      DecodeFour(c, rest);
    }
  }

  lemma DecodeTwo(c: char, rest: seq<Byte>)
    requires 0x80 <= c as int < 0x800
    ensures DecodeStep(EncodeChar(c) + rest) == (c, 2)
  {
    var cp := c as int;
    var s := EncodeChar(c) + rest;
    assert cp == cp / 64 * 64 + cp % 64;
    assert s[0] == 0xC0 + cp / 64 && s[1] == 0x80 + cp % 64;
  }

  lemma DecodeThree(c: char, rest: seq<Byte>)
    requires 0x800 <= c as int < 0x1_0000
    ensures DecodeStep(EncodeChar(c) + rest) == (c, 3)
  {
    var cp := c as int;
    var s := EncodeChar(c) + rest;
    var q1 := cp / 64;
    var q2 := q1 / 64;
    assert cp == q1 * 64 + cp % 64;
    assert q1 == q2 * 64 + q1 % 64;
    assert s[0] == 0xE0 + q2 && s[1] == 0x80 + q1 % 64 && s[2] == 0x80 + cp % 64;
    assert q2 < 16;
    assert s[0] == 0xE0 ==> q1 >= 32;
    assert s[0] == 0xED ==> q1 % 64 < 32;
  }

  lemma DecodeFour(c: char, rest: seq<Byte>)
    requires 0x1_0000 <= c as int
    ensures DecodeStep(EncodeChar(c) + rest) == (c, 4)
  {
    var cp := c as int;
    var s := EncodeChar(c) + rest;
    var q1 := cp / 64;
    var q2 := q1 / 64;
    var q3 := q2 / 64;
    assert cp == q1 * 64 + cp % 64;
    assert q1 == q2 * 64 + q1 % 64;
    assert q2 == q3 * 64 + q2 % 64;
    assert s[0] == 0xF0 + q3 && s[1] == 0x80 + q2 % 64;
    assert s[2] == 0x80 + q1 % 64 && s[3] == 0x80 + cp % 64;
    assert q3 <= 4;
    assert s[0] == 0xF0 ==> q2 >= 16;
    assert s[0] == 0xF4 ==> q2 % 64 < 16;
  }

  /** Lossy decoding undoes UTF-8 encoding: nothing is replaced in well-formed text. */
  lemma {:induction false} LossyEncode(s: string)
    ensures Lossy(Encode(s)) == s
    decreases |s|
  {
    if |s| > 0 {
      var e := EncodeChar(s[0]);
      var r := Encode(s[1..]);
      assert Encode(s) == e + r;
      DecodeEncodedChar(s[0], r);
      LossyStep(e, r, s[0]);
      LossyEncode(s[1..]);
      assert s == [s[0]] + s[1..];
    }
  }

  /** Decoding continues after a sequence the first step consumes entirely. */
  lemma LossyStep(e: seq<Byte>, rest: seq<Byte>, c: char)
    requires |e| > 0 && DecodeStep(e + rest) == (c, |e|)
    ensures Lossy(e + rest) == [c] + Lossy(rest)
  {
    assert (e + rest)[|e|..] == rest;
  }

  /** A line feed appears in the decoded text only where a 0x0A byte was in the input. */
  lemma {:induction false} LossyNoNewline(s: seq<Byte>)
    requires 0x0A !in s
    ensures '\n' !in Lossy(s)
    decreases |s|
  {
    if |s| > 0 {
      var (c, n) := DecodeStep(s);
      assert c != '\n';
      assert 0x0A !in s[n..] by {
        forall i | 0 <= i < |s[n..]| ensures s[n..][i] != 0x0A {
          assert s[n..][i] == s[i + n];
        }
      }
      LossyNoNewline(s[n..]);
    }
  }

  /** Only a line feed character encodes to a 0x0A byte. */
  lemma {:induction false} EncodeNoNewline(s: string)
    requires '\n' !in s
    ensures 0x0A !in Encode(s)
    decreases |s|
  {
    if |s| > 0 {
      assert '\n' !in s[1..] by {
        forall i | 0 <= i < |s[1..]| ensures s[1..][i] != '\n' {
          assert s[1..][i] == s[i + 1];
        }
      }
      EncodeNoNewline(s[1..]);
    }
  }
}
