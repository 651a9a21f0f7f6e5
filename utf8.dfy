/** UTF-8 as `Encoding.UTF8` uses it: `GetByteCount`/`GetBytes` on a string and
    `GetString` on a byte range. Strings are sequences of Unicode scalar values. */
module Utf8 {
  import opened Base

  const Nul: char := '\0'
  const ReplacementChar: char := '\U{FFFD}'

  /** The one to four bytes that encode one scalar value. */
  function EncodeChar(c: char): (r: seq<byte>)
    ensures 1 <= |r| <= 4
    ensures (r[0] == 0) <==> c == Nul
    ensures (r[|r| - 1] == 0) <==> c == Nul
    ensures |r| > 1 ==> forall i :: 0 < i < |r| ==> IsContinuation(r[i])
  {
    var cp := c as int;
    if cp < 0x80 then
      [cp]
    else if cp < 0x800 then
      [0xC0 + cp / 64, 0x80 + cp % 64]
    else if cp < 0x1_0000 then
      [0xE0 + cp / 64 / 64, 0x80 + cp / 64 % 64, 0x80 + cp % 64]
    else
      [0xF0 + cp / 64 / 64 / 64, 0x80 + cp / 64 / 64 % 64, 0x80 + cp / 64 % 64, 0x80 + cp % 64]
  }

  /** `Encoding.UTF8.GetBytes(s)`; its length is `GetByteCount(s)`. */
  function Encode(s: string): (r: seq<byte>)
    ensures |r| >= |s|
    ensures s == [] <==> r == []
  {
    if s == [] then [] else EncodeChar(s[0]) + Encode(s[1..])
  }

  predicate IsContinuation(b: byte) { 0x80 <= b < 0xC0 }

  /** Scalar value from three-byte sequences; the encoder only produces valid ones. */
  function Decode3(b0: byte, b1: byte, b2: byte): int
  {
    ((b0 as int - 0xE0) * 64 + (b1 as int - 0x80)) * 64 + (b2 as int - 0x80)
  }

  function Decode4(b0: byte, b1: byte, b2: byte, b3: byte): int
  {
    (((b0 as int - 0xF0) * 64 + (b1 as int - 0x80)) * 64 + (b2 as int - 0x80)) * 64 + (b3 as int - 0x80)
  }

  /** Decodes the scalar value at the head of `b`, returning it and the bytes it used.
      A byte that does not start a well-formed sequence decodes to U+FFFD. */
  function DecodeOne(b: seq<byte>): (r: (char, nat))
    requires |b| > 0
    ensures 1 <= r.1 <= |b|
  {
    var b0 := b[0];
    if b0 < 0x80 then
      (b0 as char, 1)
    else if 0xC2 <= b0 < 0xE0 && |b| >= 2 && IsContinuation(b[1]) then
      (((b0 as int - 0xC0) * 64 + (b[1] as int - 0x80)) as char, 2)
    else if 0xE0 <= b0 < 0xF0 && |b| >= 3 && IsContinuation(b[1]) && IsContinuation(b[2])
      && var cp := Decode3(b0, b[1], b[2]); 0x800 <= cp && !(0xD800 <= cp < 0xE000) then
      (Decode3(b0, b[1], b[2]) as char, 3)
    else if 0xF0 <= b0 < 0xF5 && |b| >= 4 && IsContinuation(b[1]) && IsContinuation(b[2]) && IsContinuation(b[3])
      && var cp := Decode4(b0, b[1], b[2], b[3]); 0x1_0000 <= cp < 0x11_0000 then
      (Decode4(b0, b[1], b[2], b[3]) as char, 4)
    else
      (ReplacementChar, 1)
  }

  /** `Encoding.UTF8.GetString(b)`. */
  function Decode(b: seq<byte>): (r: string)
    ensures |r| <= |b|
    ensures r == [] <==> b == []
    decreases |b|
  {
    if b == [] then "" else
      var (c, n) := DecodeOne(b);
      [c] + Decode(b[n..])
  }

  lemma DecodeOneEncodeChar(c: char, rest: seq<byte>)
    ensures DecodeOne(EncodeChar(c) + rest) == (c, |EncodeChar(c)|)
  {
    var cp := c as int;
    var e := EncodeChar(c) + rest;
    if cp < 0x80 {
    } else if cp < 0x800 {
      assert (cp / 64) * 64 + cp % 64 == cp;
    } else if cp < 0x1_0000 {
      assert Decode3(e[0], e[1], e[2]) == cp by {
        assert cp / 64 / 64 * 64 + cp / 64 % 64 == cp / 64;
        assert (cp / 64) * 64 + cp % 64 == cp;
      }
    } else {
      assert Decode4(e[0], e[1], e[2], e[3]) == cp by {
        assert cp / 64 / 64 / 64 * 64 + cp / 64 / 64 % 64 == cp / 64 / 64;
        assert cp / 64 / 64 * 64 + cp / 64 % 64 == cp / 64;
        assert (cp / 64) * 64 + cp % 64 == cp;
      }
    }
  }

  lemma {:induction false} EncodeAppend(a: string, b: string)
    ensures Encode(a + b) == Encode(a) + Encode(b)
  {
    if a != [] {
      assert (a + b)[1..] == a[1..] + b;
      EncodeAppend(a[1..], b);
    } else {
      assert a + b == b;
    }
  }

  /** Decoding what was encoded gives back the string. */
  lemma {:induction false} DecodeEncode(s: string)
    ensures Decode(Encode(s)) == s
  {
    if s != [] {
      var e := EncodeChar(s[0]);
      DecodeOneEncodeChar(s[0], Encode(s[1..]));
      assert (e + Encode(s[1..]))[|e|..] == Encode(s[1..]);
      DecodeEncode(s[1..]);
    }
  }

  /** The encoding starts with a zero byte exactly when the string starts with NUL. */
  lemma EncodeFirstByte(s: string)
    requires s != []
    ensures Encode(s)[0] == EncodeChar(s[0])[0]
    ensures Encode(s)[0] == 0 <==> s[0] == Nul
  {
  }

  /** The encoding ends with a zero byte exactly when the string ends with NUL. */
  lemma {:induction false} EncodeLastByte(s: string)
    requires s != []
    ensures Encode(s)[|Encode(s)| - 1] == 0 <==> s[|s| - 1] == Nul
  {
    var last := s[|s| - 1];
    assert s == s[..|s| - 1] + [last];
    EncodeAppend(s[..|s| - 1], [last]);
    assert Encode([last]) == EncodeChar(last) + Encode([]);
  }
}
