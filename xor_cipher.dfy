/**
  The repeating-key XOR obfuscation of app.py: `xor_encrypt(data, key_str)`
  XORs byte i of the data with byte i mod n of the UTF-8 form of the key,
  where n is that form's length. The same function encrypts before the
  payload is hidden and decrypts after it is revealed.
*/
module XorCipher {
  import opened Wrappers
  import opened Bytes
  import Utf8

  /** One output byte: `b ^ k` for two bytes. */
  function XorByte(b: byte, k: byte): (r: byte)
    ensures Xor(r, k) == b
  {
    XorIsByte(b, k);
    XorSelfInverse(b, k);
    Xor(b, k)
  }

  /**
    The data XORed with the key repeated from key position `offset` on:
    the comprehension of app.py over `enumerate(data_bytes)`, with the
    enumeration index counted from `offset`.
  */
  function XorFrom(data: seq<byte>, key: seq<byte>, offset: nat): (r: seq<byte>)
    requires |key| > 0
    ensures |r| == |data|
    decreases |data|
  {
    if data == [] then []
    else [XorByte(data[0], key[offset % |key|])] + XorFrom(data[1..], key, offset + 1)
  }

  /** The data XORed with the key repeated from its first byte on. */
  function XorBytes(data: seq<byte>, key: seq<byte>): (r: seq<byte>)
    requires |key| > 0
  {
    XorFrom(data, key, 0)
  }

  /**
    `xor_encrypt(data_bytes, key_str)`. None where Python raises
    ZeroDivisionError: the key's UTF-8 form is empty and there is a byte to
    encrypt.
  */
  function XorEncrypt(data: seq<byte>, keyStr: string): (r: Option<seq<byte>>)
    ensures r.None? <==> keyStr == [] && data != []
  {
    var key := Utf8.Encode(keyStr);
    if |key| == 0 then
      if data == [] then Some([]) else None
    else
      Some(XorBytes(data, key))
  }

  /** Byte i of the output is byte i of the data XOR key byte (offset + i) mod n. */
  lemma {:induction false} XorFromAt(data: seq<byte>, key: seq<byte>, offset: nat, i: nat)
    requires |key| > 0 && i < |data|
    ensures XorFrom(data, key, offset)[i] == Xor(data[i], key[(offset + i) % |key|])
    decreases i
  {
    if i > 0 {
      XorFromAt(data[1..], key, offset + 1, i - 1);
      assert offset + 1 + (i - 1) == offset + i;
    }
  }

  /** XorFrom undoes itself: applying it twice with the same key and offset restores the data. */
  lemma {:induction false} XorFromTwice(data: seq<byte>, key: seq<byte>, offset: nat)
    requires |key| > 0
    ensures XorFrom(XorFrom(data, key, offset), key, offset) == data
    decreases |data|
  {
    if data != [] {
      var e := XorFrom(data, key, offset);
      assert e[0] == XorByte(data[0], key[offset % |key|]);
      assert e[1..] == XorFrom(data[1..], key, offset + 1);
      XorFromTwice(data[1..], key, offset + 1);
      assert data == [data[0]] + data[1..];
    }
  }

  /** The output has exactly as many bytes as the input, and byte i is data[i] ^ key[i % n]. */
  lemma XorEncryptPointwise(data: seq<byte>, keyStr: string, i: nat)
    requires keyStr != [] && i < |data|
    ensures var key := Utf8.Encode(keyStr);
      var r := XorEncrypt(data, keyStr).value;
      |key| > 0 && |r| == |data| && r[i] == Xor(data[i], key[i % |key|])
  {
    var key := Utf8.Encode(keyStr);
    XorFromAt(data, key, 0, i);
  }

  /** Involution: with any non-empty key, decrypting the encryption gives back the data. */
  lemma XorEncryptInvolution(data: seq<byte>, keyStr: string)
    requires keyStr != []
    ensures XorEncrypt(XorEncrypt(data, keyStr).value, keyStr) == Some(data)
  {
    XorFromTwice(data, Utf8.Encode(keyStr), 0);
  }

  /**
    The scheme is a repeating-key XOR, so a plaintext byte and the
    ciphertext byte at the same position give away the key byte used there.
  */
  lemma XorEncryptRevealsKey(data: seq<byte>, keyStr: string, i: nat)
    requires keyStr != [] && i < |data|
    ensures var key := Utf8.Encode(keyStr);
      |key| > 0 && Xor(XorEncrypt(data, keyStr).value[i], data[i]) == key[i % |key|]
  {
    var key := Utf8.Encode(keyStr);
    XorEncryptPointwise(data, keyStr, i);
    XorRecoversOperand(data[i], key[i % |key|]);
  }
}
