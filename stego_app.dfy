/**
  The non-I/O logic of the `upload` and `decrypt` routes of app.py. Upload
  normalises the image, draws a key, XORs the UTF-8 message with it,
  Base64-encodes the result and hides that text in the image. Decrypt checks
  for an image and an 8-character key, reveals the hidden text, and undoes
  the two encodings. The image codec and the LSB library are not modelled:
  they are the three functions of a Channel.
*/
module StegoApp {
  import opened Wrappers
  import opened Bytes
  import Utf8
  import Base64
  import XorCipher
  import KeyGen

  /**
    Why a request did not produce its result. The first three are the
    flashed messages of the two routes; the others are exceptions the routes
    do not catch.
  */
  datatype RouteError =
    | MissingImageOrMessage  // "Please upload both image and message."
    | KeyRequired            // "Image and 8-character key required"
    | NoHiddenMessage        // "No hidden message found"
    | UnsupportedImage       // the image library cannot read the upload
    | HideFailed             // the LSB library refuses the text (the image is too small)
    | EmptyKey               // xor_encrypt divides by the length of an empty key
    | MalformedPayload       // base64.b64decode rejects the revealed text
    | UndecodableMessage     // the decrypted bytes are not UTF-8

  /**
    The collaborators the routes call through: `to_png_bytes` (normalize),
    `hide_message` (hide) and `reveal_message` (extract). None stands for an
    exception from normalize or hide, and for an extract that found nothing.
  */
  datatype Channel = Channel(
    normalize: seq<byte> -> Option<seq<byte>>,
    hide: (seq<byte>, string) -> Option<seq<byte>>,
    extract: seq<byte> -> Option<string>)

  /**
    The assumption the round trip rests on: whatever text hide puts into an
    image, normalising that stego image and revealing gives the text back.
  */
  ghost predicate RoundTrips(ch: Channel) {
    forall png: seq<byte>, text: string :: ch.hide(png, text).Some? ==>
      var n := ch.normalize(ch.hide(png, text).value);
      n.Some? && ch.extract(n.value) == Some(text)
  }

  /** What one upload produces: the key shown to the user, the text handed to hide_message, and the stego PNG stored. */
  datatype Session = Session(key: string, payload: string, stego: seq<byte>)

  /** Lines 160-161 of the upload route: `base64.b64encode(xor_encrypt(message.encode(), key)).decode()`. */
  function EncodePayload(message: string, key: string): Result<string, RouteError>
  {
    match XorCipher.XorEncrypt(Utf8.Encode(message), key)
    case None => Failure(EmptyKey)
    case Some(enc) => Success(Base64.Encode(enc))
  }

  /** Lines 219-220 of the decrypt route: `xor_encrypt(base64.b64decode(hidden), key).decode()`. */
  function DecodePayload(hidden: string, key: string): Result<string, RouteError>
  {
    match Base64.Decode(hidden)
    case None => Failure(MalformedPayload)
    case Some(enc) =>
      match XorCipher.XorEncrypt(enc, key)
      case None => Failure(EmptyKey)
      case Some(dec) =>
        match Utf8.Decode(dec)
        case None => Failure(UndecodableMessage)
        case Some(message) => Success(message)
  }

  /**
    The upload route from the form fields on: `image` is None when no file
    was sent, and `picks` are the draws of gen_key.
  */
  function Upload(image: Option<seq<byte>>, message: string, picks: seq<nat>, ch: Channel): Result<Session, RouteError>
    requires |picks| == KeyGen.DefaultKeyLength && KeyGen.ValidPicks(picks)
  {
    if image.None? || message == [] then Failure(MissingImageOrMessage)
    else
      match ch.normalize(image.value)
      case None => Failure(UnsupportedImage)
      case Some(png) =>
        var key := KeyGen.GenKey(KeyGen.DefaultKeyLength, picks);
        match EncodePayload(message, key)
        case Failure(e) => Failure(e)
        case Success(payload) =>
          match ch.hide(png, payload)
          case None => Failure(HideFailed)
          case Some(stego) => Success(Session(key, payload, stego))
  }

  /**
    The decrypt route from the form fields on: `image` is None when no file
    was sent. It turns the request away before touching the image exactly
    when there is no image or the key does not have 8 characters; past that
    check it reports "no hidden message" exactly when the revealed text is
    absent or empty; and since an accepted key is never empty, xor_encrypt
    never divides by zero here.
  */
  function Decrypt(image: Option<seq<byte>>, key: string, ch: Channel): (r: Result<string, RouteError>)
    ensures r == Failure(KeyRequired) <==> image.None? || |key| != KeyGen.DefaultKeyLength
    ensures image.Some? && |key| == KeyGen.DefaultKeyLength && ch.normalize(image.value).Some? ==>
      var hidden := ch.extract(ch.normalize(image.value).value);
      (r == Failure(NoHiddenMessage) <==> hidden.None? || hidden.value == [])
    ensures r != Failure(EmptyKey)
  {
    if image.None? || key == [] || |key| != KeyGen.DefaultKeyLength then Failure(KeyRequired)
    else
      match ch.normalize(image.value)
      case None => Failure(UnsupportedImage)
      case Some(png) =>
        match ch.extract(png)
        case None => Failure(NoHiddenMessage)
        case Some(hidden) =>
          if hidden == [] then Failure(NoHiddenMessage)
          else DecodePayload(hidden, key)
  }

  /**
    The payload handed to the LSB library is padded Base64 text: only
    alphabet characters and '=', 4 * ceil(n / 3) of them for the n bytes
    of the UTF-8 message, and never empty for a non-empty message.
  */
  lemma EncodePayloadShape(message: string, key: string)
    requires key != []
    ensures EncodePayload(message, key).Success?
    ensures var p := EncodePayload(message, key).value;
      var n := |Utf8.Encode(message)|;
      |p| == 4 * ((n + 2) / 3)
      && (forall i :: 0 <= i < |p| ==> Base64.IsAlphabetChar(p[i]) || p[i] == Base64.Pad)
      && (message != [] ==> p != [])
  {
    var enc := XorCipher.XorEncrypt(Utf8.Encode(message), key).value;
    Base64.EncodeLength(enc);
    Base64.EncodeAlphabet(enc);
  }

  /** EncodePayload fails exactly when the key is empty and there is a message to encrypt. */
  lemma EncodePayloadFails(message: string, key: string)
    ensures EncodePayload(message, key).Failure? <==> key == [] && message != []
    ensures EncodePayload(message, key).Failure? ==> EncodePayload(message, key).error == EmptyKey
  {
    Utf8.EncodeLengthIsCharCount(message);
    if message != [] {
      assert |Utf8.Encode(message)| >= 1;
    }
  }

  /** With any non-empty key, decoding a payload encoded with that key gives back the message. */
  lemma PayloadRoundTrip(message: string, key: string)
    requires key != []
    ensures EncodePayload(message, key).Success?
    ensures DecodePayload(EncodePayload(message, key).value, key) == Success(message)
  {
    var bytes := Utf8.Encode(message);
    var enc := XorCipher.XorEncrypt(bytes, key).value;
    Base64.DecodeEncode(enc);
    XorCipher.XorEncryptInvolution(bytes, key);
    Utf8.DecodeEncode(message);
  }

  /** The upload route turns the request away exactly when the image or the message is missing. */
  lemma UploadRejectsMissing(image: Option<seq<byte>>, message: string, picks: seq<nat>, ch: Channel)
    requires |picks| == KeyGen.DefaultKeyLength && KeyGen.ValidPicks(picks)
    ensures Upload(image, message, picks, ch) == Failure(MissingImageOrMessage) <==> image.None? || message == []
  {
    if image.Some? && message != [] && ch.normalize(image.value).Some? {
      var key := KeyGen.GenKey(KeyGen.DefaultKeyLength, picks);
      EncodePayloadFails(message, key);
    }
  }

  /**
    A successful upload hands out an 8-character key over the key alphabet,
    and hides the Base64 text of the encrypted message, which is never
    empty; the key's UTF-8 form is the 8 bytes of its characters.
  */
  lemma UploadSession(image: Option<seq<byte>>, message: string, picks: seq<nat>, ch: Channel)
    requires |picks| == KeyGen.DefaultKeyLength && KeyGen.ValidPicks(picks)
    requires Upload(image, message, picks, ch).Success?
    ensures var s := Upload(image, message, picks, ch).value;
      && s.key == KeyGen.GenKey(KeyGen.DefaultKeyLength, picks)
      && |s.key| == KeyGen.DefaultKeyLength
      && (forall i :: 0 <= i < |s.key| ==> KeyGen.IsKeyChar(s.key[i]))
      && |Utf8.Encode(s.key)| == KeyGen.DefaultKeyLength
      && s.payload == EncodePayload(message, s.key).value
      && s.payload != []
      && Some(s.stego) == ch.hide(ch.normalize(image.value).value, s.payload)
  {
    var s := Upload(image, message, picks, ch).value;
    KeyGen.GenKeyUtf8(KeyGen.DefaultKeyLength, picks);
    EncodePayloadShape(message, s.key);
  }

  /**
    End to end: when the channel gives back what was hidden, decrypting the
    stego image of a successful upload with the key it handed out yields
    exactly the message.
  */
  lemma UploadDecryptRoundTrip(image: Option<seq<byte>>, message: string, picks: seq<nat>, ch: Channel)
    requires |picks| == KeyGen.DefaultKeyLength && KeyGen.ValidPicks(picks)
    requires RoundTrips(ch)
    requires Upload(image, message, picks, ch).Success?
    ensures var s := Upload(image, message, picks, ch).value;
      Decrypt(Some(s.stego), s.key, ch) == Success(message)
  {
    var s := Upload(image, message, picks, ch).value;
    UploadSession(image, message, picks, ch);
    var png := ch.normalize(image.value).value;
    assert ch.hide(png, s.payload).Some?;
    PayloadRoundTrip(message, s.key);
  }

  /**
    A wrong key is not an error of its own: decrypting a real stego image
    with any 8-character key, right or wrong, yields some string, or fails
    only because the XORed bytes are not UTF-8.
  */
  lemma WrongKeyYieldsGarbage(image: Option<seq<byte>>, message: string, picks: seq<nat>, ch: Channel, anyKey: string)
    requires |picks| == KeyGen.DefaultKeyLength && KeyGen.ValidPicks(picks)
    requires RoundTrips(ch)
    requires Upload(image, message, picks, ch).Success?
    requires |anyKey| == KeyGen.DefaultKeyLength
    ensures var s := Upload(image, message, picks, ch).value;
      var r := Decrypt(Some(s.stego), anyKey, ch);
      r.Success? || r == Failure(UndecodableMessage)
  {
    var s := Upload(image, message, picks, ch).value;
    UploadSession(image, message, picks, ch);
    var png := ch.normalize(image.value).value;
    assert ch.hide(png, s.payload).Some?;
    var enc := XorCipher.XorEncrypt(Utf8.Encode(message), s.key).value;
    Base64.DecodeEncode(enc);
  }
}
