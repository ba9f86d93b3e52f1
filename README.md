# Steganography with dynamic keys: the keyed payload pipeline

This project models the core of `app.py`, a Flask application that hides a
text message in a PNG image. The model covers:

- the repeating-key XOR obfuscation `xor_encrypt`;
- the key generator `gen_key`;
- the two encodings the routes wrap around it: UTF-8 (`str.encode` /
  `bytes.decode`) and padded Base64 (`base64.b64encode` / `b64decode`, as
  section 4 of RFC 4648 defines it);
- the non-I/O logic of the `upload` and `decrypt` routes: the guards on
  the form fields, and the composition of normalising, encrypting, encoding,
  hiding, revealing and decoding.

Everything is pure, as in the source: datatypes, functions and lemmas.

Modules, leaf first:

- `Wrappers` (`wrappers.dfy`): `Option` and `Result`.
- `Bytes` (`bytes.dfy`): bytes as integers 0..255. Python's `^` is written
  out bit by bit, with its laws proved by induction: bounded, commutative and
  self-inverse, and equal to the bit-by-bit definition.
- `Utf8` (`utf8.dfy`): the strict UTF-8 codec. The decoder accepts exactly the
  well-formed sequences of Table 3-7 of the Unicode Standard. Both round
  trips are proved.
- `Base64` (`base64.dfy`): the standard alphabet with padding. Both round
  trips are proved, along with the length and the alphabet of an encoding.
- `XorCipher` (`xor_cipher.dfy`): `xor_encrypt`, and its length, pointwise,
  involution and key-leak lemmas.
- `KeyGen` (`keygen.dfy`): `gen_key`. The random draws are a parameter.
- `StegoApp` (`stego_app.dfy`): the two routes. The lemmas cover the guards,
  the session an upload produces, the end-to-end round trip, and decrypting
  with a wrong key.

Parameters that stand for what the model cannot see:

- `picks`: the indices that `secrets.choice` returned, one per key character.
- `Channel`: three total functions standing for `to_png_bytes` (normalize),
  `hide_message` (hide) and `reveal_message` (extract). `None` means that
  normalize or hide raised, or that extract found nothing. The round trip is
  proved under the hypothesis `RoundTrips(ch)`: hiding a text and revealing
  it from the normalised stego image gives the text back. This is a `requires`
  of the lemmas, not an axiom.

How `app.py` behaves at the points where a reader might expect otherwise, as
the model follows it:

- `xor_encrypt` fails only when the key's UTF-8 form is empty and there is at
  least one byte to encrypt; then `i % len(key)` raises ZeroDivisionError.
  With no data it returns the empty result, whatever the key.
- `app.py` does not embed or extract bits itself: it delegates that to a
  library (`hide_message`, `reveal_message`), so the bit order, terminator and
  capacity of the embedding are an opaque channel here.
- The two modelled routes flash three messages and let every other failure
  escape as an exception. The `RouteError` datatype names both kinds.
- The decrypt guard counts characters (`len(key) != 8`), not bytes. An
  accepted key with non-ASCII characters has more than 8 UTF-8 bytes.
  `Utf8.EncodeLengthIsCharCount` states exactly when the two counts agree.

## Model

| member | source | states |
|---|---|---|
| `Bytes.Xor` | app.py:48 | Python's `^` on non-negative integers; no contract of its own: see `Bytes.XorBitAt`, `Bytes.XorSelfInverse` and `Bytes.XorIsByte` |
| `Bytes.XorSelfInverse` | app.py:48 | `(a ^ k) ^ k == a` for all non-negative integers: XOR with the same key byte undoes itself |
| `Bytes.XorBitAt` | app.py:48 | bit i of `a ^ b` is set exactly when bit i of `a` and of `b` differ, so `Xor` is Python's bitwise operator |
| `Bytes.XorBelow` | app.py:48 | the XOR of two numbers below 2^n is below 2^n |
| `Bytes.XorIsByte` | app.py:48 | the XOR of two bytes is a byte, so `bytes([...])` never sees a value outside 0..255 |
| `Bytes.XorCommutes` | app.py:48 | `a ^ b == b ^ a` |
| `Bytes.XorRecoversOperand` | app.py:48 | `(a ^ k) ^ a == k`: a plaintext byte and its ciphertext byte give away the key byte |
| `Utf8.Encode` | app.py:47 | `str.encode('utf-8')` has at least as many bytes as the string has characters |
| `Utf8.EncodeLengthIsCharCount` | app.py:208 | a string's UTF-8 form has exactly as many bytes as it has characters if and only if every character is ASCII |
| `Utf8.EncodeAscii` | app.py:47 | the UTF-8 form of an ASCII string is its sequence of code points |
| `Utf8.DecodeCharEncodeChar` | app.py:220 | decoding the encoding of one character, whatever bytes follow, returns that character and its byte count |
| `Utf8.DecodeCharIsEncoding` | app.py:220 | whatever prefix the decoder accepts is the shortest-form encoding of the character it returns, so it accepts no overlong forms and no surrogates |
| `Utf8.Decode` | app.py:220 | strict `bytes.decode()`; no contract of its own: see `Utf8.DecodeEncode`, `Utf8.EncodeDecode` and `Utf8.DecodeCharIsEncoding` |
| `Utf8.DecodeEncode` | app.py:220 | `s.encode().decode() == s` for every string |
| `Utf8.EncodeDecode` | app.py:220 | bytes that decode to a string are exactly that string's UTF-8 form |
| `Base64.CharValueInverse` | app.py:161 | the character table and its reverse lookup are inverse to each other |
| `Base64.Encode` | app.py:161 | `base64.b64encode`; no contract of its own: see `Base64.EncodeLength`, `Base64.EncodeAlphabet` and `Base64.DecodeEncode` |
| `Base64.EncodeLength` | app.py:161 | the Base64 text of n bytes has 4 * ceil(n / 3) characters |
| `Base64.EncodeAlphabet` | app.py:161 | the Base64 text uses only the 64 alphabet characters and '=', and '=' appears only in the last two positions, as a suffix |
| `Base64.Decode` | app.py:219 | a string the strict decoder accepts has a multiple of 4 characters, and decodes to between one and three bytes per group of four; see also `Base64.DecodeEncode` and `Base64.EncodeDecode` |
| `Base64.DecodeEncode` | app.py:219 | decoding the Base64 text of any bytes gives back those bytes |
| `Base64.DecodeRejectsInnerPadding` | app.py:219 | every string the strict decoder accepts holds only alphabet characters and '=', and every '=' is followed only by '=' and sits in the last two positions; so a pad group followed by more text, and a '=' that does not complete a pad group, are rejected |
| `Base64.InnerPaddingExamples` | app.py:219 | the strict decoder rejects `"QQ==QUJD"` and `"QU=JD"`, two texts Python's lenient decoder accepts |
| `Base64.EncodeDecode` | app.py:219 | a string the strict decoder accepts is exactly the Base64 text of what it decodes to (not true of Python's non-strict decoder; see "## Left out") |
| `Base64.EncodeGroupInverse` | app.py:219 | a four-character group that decodes is the encoding of its bytes, and padding is accepted only in the last group |
| `XorCipher.XorByte` | app.py:48 | one output byte `b ^ k` is a byte, and XOR with `k` again gives back `b` |
| `XorCipher.XorFrom` | app.py:48 | the XORed sequence has as many bytes as the data |
| `XorCipher.XorEncrypt` | app.py:46-48 | `xor_encrypt` fails (ZeroDivisionError) if and only if the key is empty and the data is not |
| `XorCipher.XorFromAt` | app.py:48 | output byte i is `data[i] ^ key[(offset + i) % len(key)]` |
| `XorCipher.XorFromTwice` | app.py:48 | applying the repeated-key XOR twice with the same key and offset restores the data |
| `XorCipher.XorEncryptPointwise` | app.py:47-48 | with a non-empty key string, the output has exactly the data's length and byte i is `data[i] ^ key[i % len(key)]` over the key's UTF-8 bytes |
| `XorCipher.XorEncryptInvolution` | app.py:46-48 | `xor_encrypt(xor_encrypt(d, k), k) == d` for every non-empty key: the same function encrypts (line 160) and decrypts (line 219) |
| `XorCipher.XorEncryptRevealsKey` | app.py:48 | a known plaintext byte XORed with its ciphertext byte gives the key byte at that position |
| `KeyGen.KeyChar` | app.py:51 | every position of `ascii_letters + digits` holds a letter or a digit |
| `KeyGen.KeyIndex` | app.py:51 | every letter and digit occurs in `ascii_letters + digits`, at a position below 62 |
| `KeyGen.GenKey` | app.py:50-51 | `gen_key(length)` has exactly `length` characters, each in `[A-Za-z0-9]` |
| `KeyGen.GenKeyAt` | app.py:51 | character i of the key is the alphabet character that draw i selected |
| `KeyGen.GenKeyCoversAll` | app.py:51 | every string of that length over the alphabet is a possible key |
| `KeyGen.GenKeyUtf8` | app.py:50-51 | the key's UTF-8 form has exactly `length` bytes, the character codes, and is non-empty when `length > 0` |
| `StegoApp.Decrypt` | app.py:205-220 | the route answers "8-character key required" exactly when the image is missing or the key does not have 8 characters. Past that check it answers "no hidden message" exactly when extract finds nothing or an empty string. It never fails on an empty key |
| `StegoApp.EncodePayload` | app.py:160-161 | `b64encode(xor_encrypt(message.encode(), key)).decode()`; no contract of its own: see `StegoApp.EncodePayloadFails`, `StegoApp.EncodePayloadShape` and `StegoApp.PayloadRoundTrip` |
| `StegoApp.DecodePayload` | app.py:219-220 | `xor_encrypt(b64decode(hidden), key).decode()`; no contract of its own: see `StegoApp.PayloadRoundTrip` and `StegoApp.WrongKeyYieldsGarbage` |
| `StegoApp.EncodePayloadFails` | app.py:160-161 | building the payload fails, on an empty key, exactly when the key is empty and the message is not |
| `StegoApp.EncodePayloadShape` | app.py:159-161 | with a non-empty key, the text handed to `hide_message` is padded Base64 over the alphabet and '='. It is 4 * ceil(n / 3) long for an n-byte UTF-8 message, and is non-empty for a non-empty message |
| `StegoApp.PayloadRoundTrip` | app.py:219-220 | decoding the payload built with a non-empty key, using the same key, yields the message |
| `StegoApp.Upload` | app.py:151-162 | the upload route; no contract of its own: see `StegoApp.UploadRejectsMissing`, `StegoApp.UploadSession` and `StegoApp.UploadDecryptRoundTrip` |
| `StegoApp.UploadRejectsMissing` | app.py:151-156 | the upload route answers "please upload both image and message" exactly when the image or the message is missing |
| `StegoApp.UploadSession` | app.py:158-162 | a successful upload hands out `gen_key()`: 8 characters over the key alphabet, whose UTF-8 form is 8 bytes. It hides the non-empty payload built with that key in the normalised image |
| `StegoApp.UploadDecryptRoundTrip` | app.py:158-162 | when the channel gives back what was hidden, decrypting the stego image of a successful upload with its key yields exactly the message |
| `StegoApp.WrongKeyYieldsGarbage` | app.py:219-220 | decrypting a real stego image with any 8-character key, right or wrong, yields some string, or fails only because the bytes are not UTF-8 |

## Left out

- Flask routing, sessions, templates, redirects and flashed text (`index`,
  `register`, `login`, `logout`, `dashboard`, `download_image`, the
  `current_user` check at the top of each route): web plumbing with no
  algorithmic content.
- SQLite storage and password hashing (`get_db`, `init_db`, the INSERT in
  `upload`, the lookups in `login`, `current_user` and `download_image`):
  database I/O and a foreign library.
- `to_png_bytes`, `hide_message` and `reveal_message`: these are image
  decoding and temporary-file I/O around PIL and the `stegano` LSB library.
  Their code is not part of this model, including the bit order and the
  terminator of the embedding. They are the three functions of
  `StegoApp.Channel`, and the round trip is stated under the hypothesis
  `StegoApp.RoundTrips`.
- The randomness and cryptographic quality of `secrets.choice`: the draws
  are the `picks` parameter. `KeyGen.GenKeyCoversAll` shows that every key
  of the right shape can come out.
- Base64.Decode: models the strict decoder of section 4 of RFC 4648, not
  Python's default (non-strict) `b64decode` at app.py:219. The strict decoder
  rejects every string that is not canonical Base64 text; Python's accepts
  more of them:
  - it drops ASCII characters outside the alphabet; a non-ASCII character
    raises ValueError (the text is first converted with `encode('ascii')`),
    as the model's `MalformedPayload` does;
  - it accepts non-zero bits left over by padding;
  - it skips a `=` that does not complete a pad group, so `"QU=JD"`,
    `"=QUJD"` and `"QUJD=="` decode like `"QUJD"`;
  - it stops at the first complete pad group and ignores what follows, so
    `"QQ==QUJD"` decodes to the single byte `A`
    (`Base64.InnerPaddingExamples` shows the strict decoder's answer, and
    `Base64.DecodeRejectsInnerPadding` the general rule).
  For such a revealed text `StegoApp.DecodePayload` and `StegoApp.Decrypt`
  answer `MalformedPayload` where app.py:219 carries on with the bytes
  Python's decoder returns (for a text of ASCII characters only). `Base64.EncodeDecode` (every accepted string is
  the encoding of what it decodes to) holds for the strict decoder only; for
  Python's it is false. The two decoders agree on every string that is the
  Base64 encoding of some bytes (`Base64.DecodeEncode`), which covers every
  payload an upload creates, so `StegoApp.UploadDecryptRoundTrip` and
  `StegoApp.WrongKeyYieldsGarbage` are unaffected.
- StegoApp.Channel: `extract` has no failure outcome. `reveal_message`
  (app.py:213) is assumed never to raise; if it did, `app.py` would answer
  HTTP 500, while the model can only answer `NoHiddenMessage` for an extract
  that yields nothing.
- Python strings may hold lone surrogates, which `str.encode('utf-8')` rejects.
  Dafny characters are Unicode scalar values, so that case cannot arise.
- A missing form field raises KeyError, which Flask answers with HTTP 400.
  The model cannot express that: a missing `request.files['image']`
  (app.py:151, 205) is folded into "no image", like the empty filename test
  of `not file`. A missing `request.form['message']` (app.py:152) or
  `request.form['key']` (app.py:206) can only be given as an empty string,
  which leads to the flashed message instead.
- Exceptions the routes do not catch are `RouteError` values. They would
  surface as HTTP 500 responses. They cover:
  - an undecodable image, in the image library;
  - a text too long for the image, in the LSB library;
  - malformed Base64;
  - bytes that are not UTF-8.
- `test.py`: a demo script doing file I/O around the same libraries. Its only
  logic is a file-extension test, which is not part of this model.
