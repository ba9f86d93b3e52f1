/**
  Python's `base64.b64encode` and `base64.b64decode` for the standard
  alphabet with padding, as section 4 of RFC 4648 defines it. Encoding
  turns each group of three bytes into four characters of the 64-character
  alphabet, and a final group of one or two bytes into two or three
  characters followed by "==" or "=".
*/
module Base64 {
  import opened Wrappers
  import opened Bytes

  /** A 6-bit value, the index of one alphabet character. */
  type sextet = x: int | 0 <= x < 64

  /** The pad character. */
  const Pad: char := '='

  /** A character of the 64-character alphabet (the pad is not one). */
  predicate IsAlphabetChar(c: char) {
    'A' <= c <= 'Z' || 'a' <= c <= 'z' || '0' <= c <= '9' || c == '+' || c == '/'
  }

  /**
    The character that encodes a 6-bit value, after Table 1 of RFC 4648:
    0..25 are 'A'..'Z', 26..51 are 'a'..'z', 52..61 are '0'..'9', 62 is '+'
    and 63 is '/'.
  */
  function CharOf(v: sextet): (c: char)
    ensures IsAlphabetChar(c)
  {
    if v < 26 then ('A' as int + v) as char
    else if v < 52 then ('a' as int + (v - 26)) as char
    else if v < 62 then ('0' as int + (v - 52)) as char
    else if v == 62 then '+'
    else '/'
  }

  /** The 6-bit value an alphabet character encodes; None for every other character, the pad included. */
  function ValueOf(c: char): (r: Option<sextet>)
    ensures r.Some? <==> IsAlphabetChar(c)
  {
    if 'A' <= c <= 'Z' then Some(c as int - 'A' as int)
    else if 'a' <= c <= 'z' then Some(c as int - 'a' as int + 26)
    else if '0' <= c <= '9' then Some(c as int - '0' as int + 52)
    else if c == '+' then Some(62)
    else if c == '/' then Some(63)
    else None
  }

  /** CharOf and ValueOf are inverse to each other. */
  lemma CharValueInverse(v: sextet, c: char)
    ensures ValueOf(CharOf(v)) == Some(v)
    ensures ValueOf(c) == Some(v) ==> CharOf(v) == c
  {
  }

  /** The four characters of a full group of three bytes. */
  function EncodeGroup(b0: byte, b1: byte, b2: byte): (q: string)
  {
    [CharOf(b0 / 4), CharOf((b0 % 4) * 16 + b1 / 16), CharOf((b1 % 16) * 4 + b2 / 64), CharOf(b2 % 64)]
  }

  /** `base64.b64encode(b).decode()`. */
  function Encode(b: seq<byte>): string
    decreases |b|
  {
    if |b| == 0 then []
    else if |b| == 1 then [CharOf(b[0] / 4), CharOf((b[0] % 4) * 16), Pad, Pad]
    else if |b| == 2 then [CharOf(b[0] / 4), CharOf((b[0] % 4) * 16 + b[1] / 16), CharOf((b[1] % 16) * 4), Pad]
    else EncodeGroup(b[0], b[1], b[2]) + Encode(b[3..])
  }

  /**
    The bytes of one four-character group. A group may end in padding only
    when it is the last one; the bits that padding leaves over must be zero
    (section 3.5 of RFC 4648 allows a decoder to insist on this).
  */
  function DecodeGroup(q: string, last: bool): (r: Option<seq<byte>>)
    requires |q| == 4
    ensures r.Some? ==> 1 <= |r.value| <= 3
  {
    var v0, v1, v2, v3 := ValueOf(q[0]), ValueOf(q[1]), ValueOf(q[2]), ValueOf(q[3]);
    if v0.None? || v1.None? then None
    else if v2.Some? && v3.Some? then
      Some([High(v0.value, v1.value), Middle(v1.value, v2.value), Low(v2.value, v3.value)])
    else if !last then None
    else if v2.Some? && q[3] == Pad && v2.value % 4 == 0 then
      Some([High(v0.value, v1.value), Middle(v1.value, v2.value)])
    else if q[2] == Pad && q[3] == Pad && v1.value % 16 == 0 then
      Some([High(v0.value, v1.value)])
    else None
  }

  /** The first byte of a group: the 6 bits of v0 and the top 2 bits of v1. */
  function High(v0: sextet, v1: sextet): byte {
    var x: int := v0 * 4 + v1 / 16; x
  }

  /** The second byte of a group: the low 4 bits of v1 and the top 4 bits of v2. */
  function Middle(v1: sextet, v2: sextet): byte {
    var x: int := (v1 % 16) * 16 + v2 / 4; x
  }

  /** The third byte of a group: the low 2 bits of v2 and the 6 bits of v3. */
  function Low(v2: sextet, v3: sextet): byte {
    var x: int := (v2 % 4) * 64 + v3; x
  }

  /**
    `base64.b64decode(s)` on canonical input: the bytes s encodes, or None for
    a string that is not the padded standard encoding of any byte sequence.
  */
  function Decode(s: string): (r: Option<seq<byte>>)
    ensures r.Some? ==> |s| % 4 == 0 && |s| <= 4 * |r.value| <= 3 * |s|
    decreases |s|
  {
    if |s| == 0 then Some([])
    else if |s| < 4 then None
    else
      match DecodeGroup(s[..4], |s| == 4)
      case None => None
      case Some(g) =>
        match Decode(s[4..])
        case None => None
        case Some(rest) => Some(g + rest)
  }

  /** An encoding has four characters for every started group of three bytes: 4 * ceil(n / 3) for n bytes. */
  lemma {:induction false} EncodeLength(b: seq<byte>)
    ensures |Encode(b)| == 4 * ((|b| + 2) / 3)
    decreases |b|
  {
    if |b| >= 3 {
      EncodeLength(b[3..]);
      assert Encode(b) == EncodeGroup(b[0], b[1], b[2]) + Encode(b[3..]);
      assert (|b| + 2) / 3 == (|b[3..]| + 2) / 3 + 1;
    }
  }

  /** Every character of an encoding is an alphabet character or the pad, and the pad appears only at the end. */
  lemma {:induction false} EncodeAlphabet(b: seq<byte>)
    ensures forall i :: 0 <= i < |Encode(b)| ==> IsAlphabetChar(Encode(b)[i]) || Encode(b)[i] == Pad
    ensures forall i, j :: 0 <= i < j < |Encode(b)| && Encode(b)[i] == Pad ==> Encode(b)[j] == Pad
    ensures forall i :: 0 <= i < |Encode(b)| && Encode(b)[i] == Pad ==> i >= |Encode(b)| - 2
    decreases |b|
  {
    if |b| >= 3 {
      EncodeAlphabet(b[3..]);
    }
  }

  /** The arithmetic of a full group: splitting three bytes into four sextets and joining them again is the identity. */
  lemma SplitJoinThree(b0: byte, b1: byte, b2: byte)
    ensures High(b0 / 4, (b0 % 4) * 16 + b1 / 16) == b0
    ensures Middle((b0 % 4) * 16 + b1 / 16, (b1 % 16) * 4 + b2 / 64) == b1
    ensures Low((b1 % 16) * 4 + b2 / 64, b2 % 64) == b2
  {
    var v1, v2 := (b0 % 4) * 16 + b1 / 16, (b1 % 16) * 4 + b2 / 64;
    assert v1 / 16 == b0 % 4 && v1 % 16 == b1 / 16;
    assert v2 / 4 == b1 % 16 && v2 % 4 == b2 / 64;
  }

  /** The three groups that Encode produces decode back to their bytes. */
  lemma DecodeEncodeGroup(b0: byte, b1: byte, b2: byte, last: bool)
    ensures DecodeGroup(EncodeGroup(b0, b1, b2), last) == Some([b0, b1, b2])
  {
    var v0, v1, v2, v3 := b0 / 4, (b0 % 4) * 16 + b1 / 16, (b1 % 16) * 4 + b2 / 64, b2 % 64;
    CharValueInverse(v0, Pad);
    CharValueInverse(v1, Pad);
    CharValueInverse(v2, Pad);
    CharValueInverse(v3, Pad);
    SplitJoinThree(b0, b1, b2);
  }

  lemma DecodeEncodeTwo(b0: byte, b1: byte)
    ensures Decode(Encode([b0, b1])) == Some([b0, b1])
  {
    var v0, v1, v2 := b0 / 4, (b0 % 4) * 16 + b1 / 16, (b1 % 16) * 4;
    var s := Encode([b0, b1]);
    assert s == [CharOf(v0), CharOf(v1), CharOf(v2), Pad];
    CharValueInverse(v0, Pad);
    CharValueInverse(v1, Pad);
    CharValueInverse(v2, Pad);
    assert v1 / 16 == b0 % 4 && v1 % 16 == b1 / 16;
    assert v2 / 4 == b1 % 16 && v2 % 4 == 0;
    assert DecodeGroup(s, true) == Some([b0, b1]);
    assert s[..4] == s && s[4..] == [];
    assert [b0, b1] + [] == [b0, b1];
  }

  lemma DecodeEncodeOne(b0: byte)
    ensures Decode(Encode([b0])) == Some([b0])
  {
    var v0, v1 := b0 / 4, (b0 % 4) * 16;
    var s := Encode([b0]);
    assert s == [CharOf(v0), CharOf(v1), Pad, Pad];
    CharValueInverse(v0, Pad);
    CharValueInverse(v1, Pad);
    assert v1 / 16 == b0 % 4 && v1 % 16 == 0;
    assert DecodeGroup(s, true) == Some([b0]);
    assert s[..4] == s && s[4..] == [];
    assert [b0] + [] == [b0];
  }

  /** Decoding a group followed by more text. */
  lemma DecodeCons(q: string, t: string)
    requires |q| == 4 && DecodeGroup(q, t == []).Some? && Decode(t).Some?
    ensures Decode(q + t) == Some(DecodeGroup(q, t == []).value + Decode(t).value)
  {
    var s := q + t;
    assert s[..4] == q && s[4..] == t;
  }

  /** Round trip: decoding an encoding gives back the bytes. */
  lemma {:induction false} DecodeEncode(b: seq<byte>)
    ensures Decode(Encode(b)) == Some(b)
    decreases |b|
  {
    if |b| == 1 {
      DecodeEncodeOne(b[0]);
      assert [b[0]] == b;
    } else if |b| == 2 {
      DecodeEncodeTwo(b[0], b[1]);
      assert [b[0], b[1]] == b;
    } else if |b| >= 3 {
      DecodeEncode(b[3..]);
      DecodeEncodeFull(b);
    }
  }

  /** The inductive step of DecodeEncode: a leading full group decodes back, given that the rest does. */
  lemma DecodeEncodeFull(b: seq<byte>)
    requires |b| >= 3 && Decode(Encode(b[3..])) == Some(b[3..])
    ensures Decode(Encode(b)) == Some(b)
  {
    var q, t := EncodeGroup(b[0], b[1], b[2]), Encode(b[3..]);
    DecodeEncodeGroup(b[0], b[1], b[2], t == []);
    DecodeCons(q, t);
    EncodeSplit(b);
  }

  /** Encode consumes a leading full group of three bytes. */
  lemma EncodeSplit(b: seq<byte>)
    requires |b| >= 3
    ensures b == [b[0], b[1], b[2]] + b[3..]
    ensures Encode(b) == EncodeGroup(b[0], b[1], b[2]) + Encode(b[3..])
  {
    SplitThree(b);
  }

  lemma SplitThree<T>(b: seq<T>)
    requires |b| >= 3
    ensures b == [b[0], b[1], b[2]] + b[3..]
  {
  }

  /**
    Padding ends the text: every string the decoder accepts holds only alphabet
    characters and `=`, and a `=` is followed only by `=` and sits in one of the
    last two positions. So a pad group followed by more text, and a `=` that
    does not complete a pad group, are both rejected.
  */
  lemma DecodeRejectsInnerPadding(s: string)
    requires Decode(s).Some?
    ensures forall i :: 0 <= i < |s| ==> IsAlphabetChar(s[i]) || s[i] == Pad
    ensures forall i, j :: 0 <= i < j < |s| && s[i] == Pad ==> s[j] == Pad
    ensures forall i :: 0 <= i < |s| && s[i] == Pad ==> i >= |s| - 2
  {
    EncodeDecode(s);
    EncodeAlphabet(Decode(s).value);
  }

  /** Two texts Python's lenient decoder accepts and the strict decoder rejects. */
  lemma InnerPaddingExamples()
    ensures Decode("QQ==QUJD").None?
    ensures Decode("QU=JD").None?
  {
  }

  /** Round trip the other way: a string that decodes is the encoding of what it decodes to. */
  lemma {:induction false} EncodeDecode(s: string)
    requires Decode(s).Some?
    ensures Encode(Decode(s).value) == s
    decreases |s|
  {
    if |s| > 0 {
      var q := s[..4];
      var g := DecodeGroup(q, |s| == 4).value;
      var rest := Decode(s[4..]).value;
      assert Decode(s).value == g + rest;
      EncodeDecode(s[4..]);
      EncodeGroupInverse(q, |s| == 4);
      SplitAt(s, 4);
      if |s| == 4 {
        assert rest == [];
        AppendEmpty(g);
      } else {
        EncodeAppendGroup(g, rest);
      }
    }
  }

  /** A full group in front of more bytes is encoded in front of their encoding. */
  lemma EncodeAppendGroup(g: seq<byte>, rest: seq<byte>)
    requires |g| == 3
    ensures Encode(g + rest) == Encode(g) + Encode(rest)
  {
    var b := g + rest;
    SplitAt(b, 3);
    assert b[..3] == g;
    EncodeSplit(b);
    EncodeSplit(g);
    SplitAt(g, 3);
  }

  lemma SplitAt<T>(s: seq<T>, k: nat)
    requires k <= |s|
    ensures s == s[..k] + s[k..]
    ensures s[k..] == [] <==> k == |s|
  {
  }

  lemma AppendEmpty<T>(s: seq<T>)
    ensures s + [] == s
  {
  }

  /** A group that decodes is the encoding of the bytes it decodes to. */
  lemma EncodeGroupInverse(q: string, last: bool)
    requires |q| == 4 && DecodeGroup(q, last).Some?
    ensures var g := DecodeGroup(q, last).value;
      (last || |g| == 3) && Encode(g) == q
  {
    SplitFour(q);
    var v0, v1 := ValueOf(q[0]).value, ValueOf(q[1]).value;
    CharValueInverse(v0, q[0]);
    CharValueInverse(v1, q[1]);
    if ValueOf(q[2]).Some? {
      var v2 := ValueOf(q[2]).value;
      CharValueInverse(v2, q[2]);
      if ValueOf(q[3]).Some? {
        var v3 := ValueOf(q[3]).value;
        CharValueInverse(v3, q[3]);
        EncodeJoinThree(v0, v1, v2, v3);
      } else {
        EncodeJoinTwo(v0, v1, v2);
      }
    } else {
      EncodeJoinOne(v0, v1);
    }
  }

  /** Joining four sextets into three bytes and encoding them gives back the four characters. */
  lemma EncodeJoinThree(v0: sextet, v1: sextet, v2: sextet, v3: sextet)
    ensures Encode([High(v0, v1), Middle(v1, v2), Low(v2, v3)]) == [CharOf(v0), CharOf(v1), CharOf(v2), CharOf(v3)]
  {
    var b0, b1, b2 := High(v0, v1), Middle(v1, v2), Low(v2, v3);
    assert b0 / 4 == v0 && (b0 % 4) * 16 + b1 / 16 == v1;
    assert (b1 % 16) * 4 + b2 / 64 == v2 && b2 % 64 == v3;
    var b := [b0, b1, b2];
    assert b[3..] == [];
    assert Encode(b) == EncodeGroup(b0, b1, b2) + Encode([]);
  }

  /** Joining three sextets whose low 2 bits are spare into two bytes, and encoding them, gives back the group. */
  lemma EncodeJoinTwo(v0: sextet, v1: sextet, v2: sextet)
    requires v2 % 4 == 0
    ensures Encode([High(v0, v1), Middle(v1, v2)]) == [CharOf(v0), CharOf(v1), CharOf(v2), Pad]
  {
    var b0, b1 := High(v0, v1), Middle(v1, v2);
    assert b0 / 4 == v0 && (b0 % 4) * 16 + b1 / 16 == v1;
    assert (b1 % 16) * 4 == v2;
  }

  /** Joining two sextets whose low 4 bits are spare into one byte, and encoding it, gives back the group. */
  lemma EncodeJoinOne(v0: sextet, v1: sextet)
    requires v1 % 16 == 0
    ensures Encode([High(v0, v1)]) == [CharOf(v0), CharOf(v1), Pad, Pad]
  {
    var b0 := High(v0, v1);
    assert b0 / 4 == v0 && (b0 % 4) * 16 == v1;
  }

  lemma SplitFour<T>(q: seq<T>)
    requires |q| == 4
    ensures q == [q[0], q[1], q[2], q[3]]
  {
  }
}
