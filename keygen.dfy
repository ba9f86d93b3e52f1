/**
  `gen_key(length=8)` of app.py: a string of `length` characters, each
  drawn by `secrets.choice` from `string.ascii_letters + string.digits`,
  that is 'a'..'z', then 'A'..'Z', then '0'..'9'. The random source is a
  parameter: `picks` holds the index that each call of `secrets.choice`
  selected in that 62-character sequence.
*/
module KeyGen {
  import Utf8

  /** The default key length of gen_key, and the length the decrypt route insists on. */
  const DefaultKeyLength: nat := 8

  /** len(string.ascii_letters + string.digits). */
  const AlphabetSize: nat := 62

  /** A character of string.ascii_letters + string.digits. */
  predicate IsKeyChar(c: char) {
    'a' <= c <= 'z' || 'A' <= c <= 'Z' || '0' <= c <= '9'
  }

  /** Character j of string.ascii_letters + string.digits. */
  function KeyChar(j: nat): (c: char)
    requires j < AlphabetSize
    ensures IsKeyChar(c)
  {
    if j < 26 then ('a' as int + j) as char
    else if j < 52 then ('A' as int + (j - 26)) as char
    else ('0' as int + (j - 52)) as char
  }

  /** The position of a key character in string.ascii_letters + string.digits. */
  function KeyIndex(c: char): (j: nat)
    requires IsKeyChar(c)
    ensures j < AlphabetSize && KeyChar(j) == c
  {
    if 'a' <= c <= 'z' then c as int - 'a' as int
    else if 'A' <= c <= 'Z' then c as int - 'A' as int + 26
    else c as int - '0' as int + 52
  }

  /** The draws are positions in the alphabet, as secrets.choice returns. */
  predicate ValidPicks(picks: seq<nat>) {
    forall i :: 0 <= i < |picks| ==> picks[i] < AlphabetSize
  }

  /** `gen_key(length)`, with the choices of secrets.choice given by picks. */
  function GenKey(length: nat, picks: seq<nat>): (key: string)
    requires |picks| == length && ValidPicks(picks)
    ensures |key| == length
    ensures forall i :: 0 <= i < |key| ==> IsKeyChar(key[i])
    decreases length
  {
    if length == 0 then []
    else [KeyChar(picks[0])] + GenKey(length - 1, picks[1..])
  }

  /** Character i of the key is the character that draw i selected. */
  lemma {:induction false} GenKeyAt(length: nat, picks: seq<nat>, i: nat)
    requires |picks| == length && ValidPicks(picks) && i < length
    ensures GenKey(length, picks)[i] == KeyChar(picks[i])
    decreases length
  {
    if i > 0 {
      GenKeyAt(length - 1, picks[1..], i - 1);
    }
  }

  /** The draws that produce a given key. */
  function PicksFor(key: string): (picks: seq<nat>)
    requires forall i :: 0 <= i < |key| ==> IsKeyChar(key[i])
    ensures |picks| == |key| && ValidPicks(picks)
  {
    seq(|key|, i requires 0 <= i < |key| => KeyIndex(key[i]))
  }

  /** Every string of the right length over the alphabet is a possible key: the model leaves out no outcome. */
  lemma GenKeyCoversAll(key: string)
    requires forall i :: 0 <= i < |key| ==> IsKeyChar(key[i])
    ensures GenKey(|key|, PicksFor(key)) == key
  {
    var picks := PicksFor(key);
    forall i | 0 <= i < |key|
      ensures GenKey(|key|, picks)[i] == key[i]
    {
      GenKeyAt(|key|, picks, i);
    }
  }

  /**
    A generated key is ASCII, so its UTF-8 form has exactly one byte per
    character, the character's code, and is non-empty for a non-zero length.
  */
  lemma GenKeyUtf8(length: nat, picks: seq<nat>)
    requires |picks| == length && ValidPicks(picks)
    ensures var key := GenKey(length, picks);
      |Utf8.Encode(key)| == length
      && (length > 0 ==> Utf8.Encode(key) != [])
      && forall i :: 0 <= i < length ==> Utf8.Encode(key)[i] == key[i] as int
  {
    var key := GenKey(length, picks);
    assert forall i :: 0 <= i < |key| ==> Utf8.IsAscii(key[i]);
    Utf8.EncodeAscii(key);
  }
}
