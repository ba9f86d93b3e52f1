/**
  The UTF-8 codec behind Python's `str.encode()` and `bytes.decode()` with
  their defaults ('utf-8', errors='strict'): Unicode scalar values to byte
  sequences and back. The decoder accepts exactly the well-formed byte
  sequences of Table 3-7 of the Unicode Standard, section 3.9, and fails
  (Python raises UnicodeDecodeError) on anything else.
*/
module Utf8 {
  import opened Wrappers
  import opened Bytes

  /** A character that UTF-8 encodes in a single byte. */
  predicate IsAscii(c: char) {
    c as int < 0x80
  }

  /** A continuation byte 10xxxxxx. */
  predicate IsContinuation(b: byte) {
    0x80 <= b <= 0xBF
  }

  /** The UTF-8 encoding of one scalar value: one to four bytes, shortest form. */
  function EncodeChar(c: char): (r: seq<byte>)
    ensures 1 <= |r| <= 4
    ensures |r| == 1 <==> IsAscii(c)
  {
    var n := c as int;
    if n < 0x80 then [n]
    else if n < 0x800 then [0xC0 + n / 64, 0x80 + n % 64]
    else if n < 0x1_0000 then [0xE0 + n / 4096, 0x80 + (n / 64) % 64, 0x80 + n % 64]
    else [0xF0 + n / 262144, 0x80 + (n / 4096) % 64, 0x80 + (n / 64) % 64, 0x80 + n % 64]
  }

  /** `s.encode('utf-8')`: the encodings of the characters, concatenated. */
  function Encode(s: string): (r: seq<byte>)
    ensures |r| >= |s|
  {
    if s == [] then [] else EncodeChar(s[0]) + Encode(s[1..])
  }

  /**
    Decodes the first character of a non-empty byte sequence, giving the
    character and the number of bytes it occupies, or None when the bytes do
    not start with a well-formed sequence (a stray continuation byte, a lead
    byte 0xC0, 0xC1 or 0xF5..0xFF, an overlong form, a surrogate, a value
    above U+10FFFF, or a truncated sequence).
  */
  function DecodeChar(b: seq<byte>): (r: Option<(char, nat)>)
    requires |b| > 0
    ensures r.Some? ==> 1 <= r.value.1 <= |b|
  {
    var b0: int := b[0];
    if b0 < 0x80 then
      Some((b0 as char, 1))
    else if 0xC2 <= b0 <= 0xDF then
      if |b| >= 2 && IsContinuation(b[1]) then
        Some((Value2(b0, b[1]) as char, 2))
      else None
    else if 0xE0 <= b0 <= 0xEF then
      var lo := if b0 == 0xE0 then 0xA0 else 0x80;
      var hi := if b0 == 0xED then 0x9F else 0xBF;
      if |b| >= 3 && lo <= b[1] <= hi && IsContinuation(b[2]) then
        Some((Value3(b0, b[1], b[2]) as char, 3))
      else None
    else if 0xF0 <= b0 <= 0xF4 then
      var lo := if b0 == 0xF0 then 0x90 else 0x80;
      var hi := if b0 == 0xF4 then 0x8F else 0xBF;
      if |b| >= 4 && lo <= b[1] <= hi && IsContinuation(b[2]) && IsContinuation(b[3]) then
        Some((Value4(b0, b[1], b[2], b[3]) as char, 4))
      else None
    else
      None
  }

  /** The scalar value carried by a two-byte sequence 110xxxxx 10yyyyyy. */
  function Value2(b0: int, b1: int): int {
    (b0 - 0xC0) * 64 + (b1 - 0x80)
  }

  /** The scalar value carried by a three-byte sequence 1110xxxx 10yyyyyy 10zzzzzz. */
  function Value3(b0: int, b1: int, b2: int): int {
    (b0 - 0xE0) * 4096 + (b1 - 0x80) * 64 + (b2 - 0x80)
  }

  /** The scalar value carried by a four-byte sequence 11110www 10xxxxxx 10yyyyyy 10zzzzzz. */
  function Value4(b0: int, b1: int, b2: int, b3: int): int {
    (b0 - 0xF0) * 262144 + (b1 - 0x80) * 4096 + (b2 - 0x80) * 64 + (b3 - 0x80)
  }

  /** `b.decode()`: the string b encodes, or None where Python raises UnicodeDecodeError. */
  function Decode(b: seq<byte>): Option<string>
    decreases |b|
  {
    if b == [] then Some([])
    else
      match DecodeChar(b)
      case None => None
      case Some((c, n)) =>
        match Decode(b[n..])
        case None => None
        case Some(rest) => Some([c] + rest)
  }

  /**
    A string's UTF-8 form has as many bytes as the string has characters
    exactly when every character is ASCII; otherwise it is longer.
  */
  lemma {:induction false} EncodeLengthIsCharCount(s: string)
    ensures |Encode(s)| == |s| <==> forall i :: 0 <= i < |s| ==> IsAscii(s[i])
  {
    if s != [] {
      EncodeLengthIsCharCount(s[1..]);
      assert forall i :: 1 <= i < |s| ==> s[i] == s[1..][i - 1];
    }
  }

  /** The UTF-8 form of an ASCII string is its sequence of code points. */
  lemma {:induction false} EncodeAscii(s: string)
    requires forall i :: 0 <= i < |s| ==> IsAscii(s[i])
    ensures |Encode(s)| == |s|
    ensures forall i :: 0 <= i < |s| ==> Encode(s)[i] == s[i] as int
  {
    if s != [] {
      EncodeAscii(s[1..]);
      assert forall i :: 1 <= i < |s| ==> s[i] == s[1..][i - 1];
    }
  }

  /** Decoding the encoding of a character, whatever follows it, gives back that character. */
  lemma DecodeCharEncodeChar(c: char, rest: seq<byte>)
    ensures DecodeChar(EncodeChar(c) + rest) == Some((c, |EncodeChar(c)|))
  {
    var n := c as int;
    var e := EncodeChar(c);
    var b := e + rest;
    assert b[..|e|] == e;
    if 0x80 <= n < 0x800 {
      SplitValue2(n);
      assert b[0] == e[0] && b[1] == e[1];
    } else if 0x800 <= n < 0x1_0000 {
      SplitValue3(n);
      assert b[0] == e[0] && b[1] == e[1] && b[2] == e[2];
    } else if 0x1_0000 <= n {
      SplitValue4(n);
      assert b[0] == e[0] && b[1] == e[1] && b[2] == e[2] && b[3] == e[3];
    }
  }

  /** The bytes of a two-byte encoding carry the value they were cut from. */
  lemma SplitValue2(n: int)
    requires 0x80 <= n < 0x800
    ensures 0xC2 <= 0xC0 + n / 64 <= 0xDF && 0x80 + n % 64 <= 0xBF
    ensures Value2(0xC0 + n / 64, 0x80 + n % 64) == n
  {
  }

  /** The bytes of a three-byte encoding carry the value they were cut from, and pass the checks on the second byte. */
  lemma SplitValue3(n: int)
    requires 0x800 <= n < 0x1_0000 && !(0xD800 <= n < 0xE000)
    ensures var b0, b1, b2 := 0xE0 + n / 4096, 0x80 + (n / 64) % 64, 0x80 + n % 64;
      b0 <= 0xEF && b1 <= 0xBF && b2 <= 0xBF
      && (b0 == 0xE0 ==> b1 >= 0xA0) && (b0 == 0xED ==> b1 <= 0x9F)
      && Value3(b0, b1, b2) == n
  {
    assert n == (n / 64) * 64 + n % 64;
    assert n / 64 == (n / 4096) * 64 + (n / 64) % 64;
  }

  /** The bytes of a four-byte encoding carry the value they were cut from, and pass the checks on the second byte. */
  lemma SplitValue4(n: int)
    requires 0x1_0000 <= n < 0x11_0000
    ensures var b0, b1, b2, b3 := 0xF0 + n / 262144, 0x80 + (n / 4096) % 64, 0x80 + (n / 64) % 64, 0x80 + n % 64;
      b0 <= 0xF4 && b1 <= 0xBF && b2 <= 0xBF && b3 <= 0xBF
      && (b0 == 0xF0 ==> b1 >= 0x90) && (b0 == 0xF4 ==> b1 <= 0x8F)
      && Value4(b0, b1, b2, b3) == n
  {
    assert n == (n / 64) * 64 + n % 64;
    assert n / 64 == (n / 4096) * 64 + (n / 64) % 64;
    assert n / 4096 == (n / 262144) * 64 + (n / 4096) % 64;
  }

  /** Whatever DecodeChar accepts is the shortest-form encoding of the character it returns. */
  lemma DecodeCharIsEncoding(b: seq<byte>)
    requires |b| > 0 && DecodeChar(b).Some?
    ensures EncodeChar(DecodeChar(b).value.0) == b[..DecodeChar(b).value.1]
  {
    if b[0] >= 0x80 {
      if b[0] <= 0xDF {
        EncodeValue2(b[0], b[1]);
      } else if b[0] <= 0xEF {
        EncodeValue3(b[0], b[1], b[2]);
      } else {
        EncodeValue4(b[0], b[1], b[2], b[3]);
      }
    }
  }

  lemma EncodeValue2(b0: byte, b1: byte)
    requires 0xC2 <= b0 <= 0xDF && IsContinuation(b1)
    ensures 0x80 <= Value2(b0, b1) < 0x800
    ensures EncodeChar(Value2(b0, b1) as char) == [b0, b1]
  {
    var n := Value2(b0, b1);
    assert n / 64 == b0 - 0xC0 && n % 64 == b1 - 0x80;
  }

  lemma EncodeValue3(b0: byte, b1: byte, b2: byte)
    requires 0xE0 <= b0 <= 0xEF && IsContinuation(b1) && IsContinuation(b2)
    requires b0 == 0xE0 ==> b1 >= 0xA0
    requires b0 == 0xED ==> b1 <= 0x9F
    ensures 0x800 <= Value3(b0, b1, b2) < 0x1_0000
    ensures EncodeChar(Value3(b0, b1, b2) as char) == [b0, b1, b2]
  {
    var n := Value3(b0, b1, b2);
    var m := (b0 - 0xE0) * 64 + (b1 - 0x80);
    assert n == m * 64 + (b2 - 0x80);
    assert n / 64 == m && n % 64 == b2 - 0x80;
    assert m / 64 == b0 - 0xE0 && m % 64 == b1 - 0x80;
    assert n / 4096 == b0 - 0xE0;
  }

  lemma EncodeValue4(b0: byte, b1: byte, b2: byte, b3: byte)
    requires 0xF0 <= b0 <= 0xF4 && IsContinuation(b1) && IsContinuation(b2) && IsContinuation(b3)
    requires b0 == 0xF0 ==> b1 >= 0x90
    requires b0 == 0xF4 ==> b1 <= 0x8F
    ensures 0x1_0000 <= Value4(b0, b1, b2, b3) < 0x11_0000
    ensures EncodeChar(Value4(b0, b1, b2, b3) as char) == [b0, b1, b2, b3]
  {
    var n := Value4(b0, b1, b2, b3);
    var k := (b0 - 0xF0) * 64 + (b1 - 0x80);
    var m := k * 64 + (b2 - 0x80);
    assert n == m * 64 + (b3 - 0x80);
    assert n / 64 == m && n % 64 == b3 - 0x80;
    assert m / 64 == k && m % 64 == b2 - 0x80;
    assert k / 64 == b0 - 0xF0 && k % 64 == b1 - 0x80;
    assert n / 4096 == k;
    assert n / 262144 == b0 - 0xF0;
  }

  /** Round trip: decoding the UTF-8 form of any string gives back the string. */
  lemma {:induction false} DecodeEncode(s: string)
    ensures Decode(Encode(s)) == Some(s)
  {
    if s != [] {
      var e := EncodeChar(s[0]);
      DecodeCharEncodeChar(s[0], Encode(s[1..]));
      assert (e + Encode(s[1..]))[|e|..] == Encode(s[1..]);
      DecodeEncode(s[1..]);
      assert [s[0]] + s[1..] == s;
    }
  }

  /** Round trip the other way: whatever decodes to a string is that string's UTF-8 form. */
  lemma {:induction false} EncodeDecode(b: seq<byte>)
    requires Decode(b).Some?
    ensures Encode(Decode(b).value) == b
    decreases |b|
  {
    if b != [] {
      var (c, n) := DecodeChar(b).value;
      DecodeCharIsEncoding(b);
      EncodeDecode(b[n..]);
      var s := Decode(b).value;
      assert s == [c] + Decode(b[n..]).value;
      assert s[1..] == Decode(b[n..]).value;
      assert b == b[..n] + b[n..];
    }
  }
}
