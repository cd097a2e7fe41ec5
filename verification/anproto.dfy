/** The envelope protocol of `src/lib.rs`: key generation, hashing, signing
    and opening. Every text value is a byte string; every boundary inside a
    text value is one of the fixed widths below, never a parsed field. */
module Anproto {
  import opened Bytes
  import opened Base64
  import opened Utf8
  import opened Decimal
  import opened Primitives

  /** Byte sizes fixed by Ed25519. */
  const PublicKeySize := 32
  const KeypairSize := 64
  const SignatureSize := 64

  /** Base64 widths of the sized values: 32 bytes take 44 symbols and 64
      bytes take 88, so a keypair blob is 132 symbols long. */
  const PublicKeyWidth := 44
  const KeypairBytesWidth := 88
  const KeypairWidth := PublicKeyWidth + KeypairBytesWidth

  /** The failures `sign` and `open` report, one per check. */
  datatype Error =
    | InvalidKeyLength
    | InvalidSecretKeyBase64
    | InvalidSecretKeyLength
    | InvalidSecretKey
    | InvalidMessageLength
    | InvalidSignedMessageBase64
    | SignedMessageTooShort
    | InvalidPublicKeyBase64
    | InvalidPublicKeyLength
    | InvalidPublicKey
    | SignatureVerificationFailed
    | InvalidUtf8

  /** The text the library returns for each failure. Every failure but a
      short signed message and a failed verification reads "invalid ...". */
  function Message(e: Error): (r: string)
    ensures |r| > 8 && (r[0] == 'i' <==> !(e.SignedMessageTooShort? || e.SignatureVerificationFailed?))
    ensures r[0] == 'i' ==> r[..8] == "invalid "
  {
    match e
    case InvalidKeyLength => "invalid key length"
    case InvalidSecretKeyBase64 => "invalid secret key base64"
    case InvalidSecretKeyLength => "invalid secret key length"
    case InvalidSecretKey => "invalid secret key"
    case InvalidMessageLength => "invalid message length"
    case InvalidSignedMessageBase64 => "invalid signed message base64"
    case SignedMessageTooShort => "signed message too short"
    case InvalidPublicKeyBase64 => "invalid public key base64"
    case InvalidPublicKeyLength => "invalid public key length"
    case InvalidPublicKey => "invalid public key"
    case SignatureVerificationFailed => "signature verification failed"
    case InvalidUtf8 => "invalid utf8 in message"
  }

  datatype Result<T> = Ok(value: T) | Err(error: Error)

  /** `gen`: the keypair blob for a random seed (the seed is a parameter):
      the base64 verifying key followed by the base64 keypair bytes. */
  function Gen(c: Crypto, seed: Bytes32): (r: Result<seq<Byte>>)
    ensures r.Ok? && |r.value| == KeypairWidth
  {
    var kp := c.keypairFromSeed(seed);
    Ok(Encode(c.verifyingKey(kp)) + Encode(kp))
  }

  /** `hash`: the base64 of the SHA-256 digest of the text's bytes. */
  function Hash(c: Crypto, data: seq<Byte>): (r: seq<Byte>)
    ensures |r| == PublicKeyWidth
  {
    Encode(c.sha256(data))
  }

  /** A hash is ASCII text and decodes to the digest. */
  lemma HashDecodes(c: Crypto, data: seq<Byte>)
    ensures IsAscii(Hash(c, data)) && Decode(Hash(c, data)) == Some(c.sha256(data))
  {
    EncodeFacts(c.sha256(data));
  }

  /** `sign`: signs the timestamp's decimal digits followed by `h` with the
      keypair in the tail of `k`, and returns the first 44 bytes of `k`
      verbatim followed by the base64 of signature and signed bytes. The
      clock reading `ts` (milliseconds since the Unix epoch) is a parameter.
      Slicing `k` at 44 panics in the source unless 44 is a char boundary. */
  function Sign(c: Crypto, h: seq<Byte>, k: seq<Byte>, ts: nat): (r: Result<seq<Byte>>)
    requires |k| >= KeypairWidth ==> IsCharBoundary(k, PublicKeyWidth)
    ensures |k| < KeypairWidth ==> r == Err(InvalidKeyLength)
    ensures r.Ok? ==> |k| == KeypairWidth && |r.value| >= PublicKeyWidth
    ensures r.Ok? ==> r.value[..PublicKeyWidth] == k[..PublicKeyWidth]
  {
    if |k| < KeypairWidth then Err(InvalidKeyLength)
    else
      var pub, sec := k[..PublicKeyWidth], k[PublicKeyWidth..];
      match Decode(sec)
      case None => Err(InvalidSecretKeyBase64)
      case Some(secBytes) =>
        if |secBytes| != KeypairSize then Err(InvalidSecretKeyLength)
        else if !c.keypairValid(secBytes) then Err(InvalidSecretKey)
        else
          DecodedLength(sec, secBytes);
          var msg := Digits(ts) + h;
          var signed := c.sign(secBytes, msg) + msg;
          Ok(pub + Encode(signed))
  }

  /** `open`: checks an envelope and returns the bytes that were signed. The
      checks run in a fixed order and the first that fails decides the error.
      Slicing `m` at 44 panics in the source unless 44 is a char boundary. */
  function Open(c: Crypto, m: seq<Byte>): (r: Result<seq<Byte>>)
    requires |m| >= PublicKeyWidth ==> IsCharBoundary(m, PublicKeyWidth)
    ensures |m| < PublicKeyWidth ==> r == Err(InvalidMessageLength)
    ensures r.Ok? ==> ValidUtf8(r.value)
  {
    if |m| < PublicKeyWidth then Err(InvalidMessageLength)
    else
      var pub, signedB64 := m[..PublicKeyWidth], m[PublicKeyWidth..];
      match Decode(signedB64)
      case None => Err(InvalidSignedMessageBase64)
      case Some(signed) =>
        if |signed| < SignatureSize then Err(SignedMessageTooShort)
        else
          var sig, msg := signed[..SignatureSize], signed[SignatureSize..];
          match Decode(pub)
          case None => Err(InvalidPublicKeyBase64)
          case Some(pubBytes) =>
            if |pubBytes| != PublicKeySize then Err(InvalidPublicKeyLength)
            else if !c.publicKeyValid(pubBytes) then Err(InvalidPublicKey)
            else if !c.verify(pubBytes, msg, sig) then Err(SignatureVerificationFailed)
            else if !ValidUtf8(msg) then Err(InvalidUtf8)
            else Ok(msg)
  }

  /** The envelope layout: the base64 public key, then the base64 of the
      signature followed by the signed bytes. */
  function Envelope(pk: Bytes32, sig: Bytes64, t: seq<Byte>): (r: seq<Byte>)
    ensures |r| >= PublicKeyWidth + KeypairBytesWidth
  {
    Encode(pk) + Encode(sig + t)
  }

  /** An envelope is ASCII text whose two parts decode to the key and to the
      signature followed by the signed bytes. */
  lemma EnvelopeDecodes(pk: Bytes32, sig: Bytes64, t: seq<Byte>)
    ensures IsAscii(Envelope(pk, sig, t))
    ensures Decode(Envelope(pk, sig, t)[..PublicKeyWidth]) == Some(pk)
    ensures Decode(Envelope(pk, sig, t)[PublicKeyWidth..]) == Some(sig + t)
  {
    var head, tail := EnvelopeSplit(pk, sig, t);
    EncodeFacts(pk);
    EncodeFacts(sig + t);
  }

  /** The two encoded parts of an envelope, side by side and ASCII. */
  lemma EnvelopeSplit(pk: Bytes32, sig: Bytes64, t: seq<Byte>) returns (head: seq<Byte>, tail: seq<Byte>)
    ensures head == Encode(pk) && tail == Encode(sig + t)
    ensures Envelope(pk, sig, t)[..PublicKeyWidth] == head
    ensures Envelope(pk, sig, t)[PublicKeyWidth..] == tail
    ensures IsAscii(Envelope(pk, sig, t))
  {
    head, tail := Encode(pk), Encode(sig + t);
    EncodeAlphabet(pk);
    EncodeAlphabet(sig + t);
    WidthOfSignedBytes(|sig + t|);
    EnvelopeParts(head, tail);
  }

  /** At least 64 bytes take at least 88 base64 symbols. */
  lemma WidthOfSignedBytes(n: nat)
    requires n >= SignatureSize
    ensures 4 * ((n + 2) / 3) >= KeypairBytesWidth
  {
  }

  /** The two encoded parts of an envelope sit side by side, unchanged. */
  lemma EnvelopeParts(head: seq<Byte>, tail: seq<Byte>)
    requires |head| == PublicKeyWidth && |tail| >= 88 && IsAscii(head) && IsAscii(tail)
    ensures (head + tail)[..PublicKeyWidth] == head && (head + tail)[PublicKeyWidth..] == tail
    ensures IsAscii(head + tail)
  {
    var r := head + tail;
    forall i | 0 <= i < |r| ensures r[i] < 0x80 {
      if i < |head| { assert r[i] == head[i]; } else { assert r[i] == tail[i - |head|]; }
    }
    assert r[..PublicKeyWidth] == head && r[PublicKeyWidth..] == tail;
  }

  /** A keypair blob that `gen` could have produced: 132 bytes whose tail is a
      valid keypair and whose head is the base64 of that keypair's verifying key. */
  ghost predicate WellFormedKeypair(c: Crypto, k: seq<Byte>)
  {
    && |k| == KeypairWidth
    && Decode(k[PublicKeyWidth..]).Some?
    && var kp := Decode(k[PublicKeyWidth..]).value;
    && |kp| == KeypairSize
    && c.keypairValid(kp)
    && Decode(k[..PublicKeyWidth]) == Some(c.verifyingKey(kp))
  }

  // ----- Error taxonomy -----

  /** The error strings are pairwise distinct, so a caller can tell every
      failure apart by its text. */
  lemma MessageInjective(e: Error, e': Error)
    requires Message(e) == Message(e')
    ensures e == e'
  {
  }

  /** The checks of `sign`, in order. The tail of the keypair blob, not just
      88 bytes of it, must decode to exactly 64 bytes, so a longer blob can
      only fail on its base64 or its length. */
  lemma SignErrors(c: Crypto, h: seq<Byte>, k: seq<Byte>, ts: nat)
    requires |k| >= KeypairWidth ==> IsCharBoundary(k, PublicKeyWidth)
    ensures Sign(c, h, k, ts) == Err(InvalidKeyLength) <==> |k| < KeypairWidth
    ensures Sign(c, h, k, ts) == Err(InvalidSecretKeyBase64)
      <==> |k| >= KeypairWidth && Decode(k[PublicKeyWidth..]).None?
    ensures Sign(c, h, k, ts) == Err(InvalidSecretKeyLength)
      <==> |k| >= KeypairWidth && Decode(k[PublicKeyWidth..]).Some?
           && |Decode(k[PublicKeyWidth..]).value| != KeypairSize
    ensures Sign(c, h, k, ts) == Err(InvalidSecretKey)
      <==> |k| == KeypairWidth && Decode(k[PublicKeyWidth..]).Some?
           && |Decode(k[PublicKeyWidth..]).value| == KeypairSize
           && !c.keypairValid(Decode(k[PublicKeyWidth..]).value)
    ensures |k| > KeypairWidth
      ==> Sign(c, h, k, ts) in {Err(InvalidSecretKeyBase64), Err(InvalidSecretKeyLength)}
    ensures Sign(c, h, k, ts).Ok?
      <==> |k| >= KeypairWidth && Decode(k[PublicKeyWidth..]).Some?
           && |Decode(k[PublicKeyWidth..]).value| == KeypairSize
           && c.keypairValid(Decode(k[PublicKeyWidth..]).value)
  {
    if |k| >= KeypairWidth {
      var sec := k[PublicKeyWidth..];
      if Decode(sec).Some? && |Decode(sec).value| == KeypairSize {
        DecodedLength(sec, Decode(sec).value);
      }
    }
  }

  /** The first 44 bytes of the blob are never checked: two blobs with the
      same tail succeed or fail alike, and on success differ only in the
      copied prefix. */
  lemma SignIgnoresHead(c: Crypto, h: seq<Byte>, k: seq<Byte>, k': seq<Byte>, ts: nat)
    requires |k| == |k'| >= KeypairWidth && k[PublicKeyWidth..] == k'[PublicKeyWidth..]
    requires IsCharBoundary(k, PublicKeyWidth) && IsCharBoundary(k', PublicKeyWidth)
    ensures Sign(c, h, k, ts).Ok? <==> Sign(c, h, k', ts).Ok?
    ensures !Sign(c, h, k, ts).Ok? ==> Sign(c, h, k', ts) == Sign(c, h, k, ts)
    ensures Sign(c, h, k, ts).Ok?
      ==> Sign(c, h, k', ts).value == k'[..PublicKeyWidth] + Sign(c, h, k, ts).value[PublicKeyWidth..]
  {
  }

  /** What `sign` emits: after the verbatim key prefix comes the base64 of the
      64-byte signature followed by the timestamp digits and `h`, with no
      separator, and the signature is over exactly those signed bytes. */
  lemma SignedTail(c: Crypto, h: seq<Byte>, k: seq<Byte>, ts: nat)
    requires |k| >= KeypairWidth ==> IsCharBoundary(k, PublicKeyWidth)
    requires Sign(c, h, k, ts).Ok?
    ensures Decode(k[PublicKeyWidth..]).Some? && |Decode(k[PublicKeyWidth..]).value| == KeypairSize
    ensures var kp: Bytes64 := Decode(k[PublicKeyWidth..]).value;
            var msg := Digits(ts) + h;
            var env := Sign(c, h, k, ts).value;
            && c.keypairValid(kp)
            && Decode(env[PublicKeyWidth..]) == Some(c.sign(kp, msg) + msg)
            && (Sound(c) ==> c.verify(c.verifyingKey(kp), msg, c.sign(kp, msg)))
  {
    var kp: Bytes64 := Decode(k[PublicKeyWidth..]).value;
    var msg := Digits(ts) + h;
    var env := Sign(c, h, k, ts).value;
    DecodeEncode(c.sign(kp, msg) + msg);
    assert env[PublicKeyWidth..] == Encode(c.sign(kp, msg) + msg);
  }

  /** The checks of `open`, in order: the tail's base64, the tail's length,
      the key's base64, the key's length, the key's validity, the signature,
      the text. Each error is reported exactly when every earlier check
      passed and its own failed. */
  lemma OpenErrors(c: Crypto, m: seq<Byte>)
    requires |m| >= PublicKeyWidth ==> IsCharBoundary(m, PublicKeyWidth)
    ensures Open(c, m) == Err(InvalidMessageLength) <==> |m| < PublicKeyWidth
    ensures Open(c, m) == Err(InvalidSignedMessageBase64)
      <==> |m| >= PublicKeyWidth && Decode(m[PublicKeyWidth..]).None?
    ensures Open(c, m) == Err(SignedMessageTooShort)
      <==> |m| >= PublicKeyWidth && Decode(m[PublicKeyWidth..]).Some?
           && |Decode(m[PublicKeyWidth..]).value| < SignatureSize
    ensures Open(c, m) == Err(SignedMessageTooShort) ==> |m| <= PublicKeyWidth + 84
    ensures Open(c, m) == Err(InvalidPublicKeyBase64)
      <==> TailDecodes(m) && Decode(m[..PublicKeyWidth]).None?
    ensures Open(c, m) == Err(InvalidPublicKeyLength)
      <==> TailDecodes(m) && Decode(m[..PublicKeyWidth]).Some?
           && |Decode(m[..PublicKeyWidth]).value| != PublicKeySize
    ensures Open(c, m) == Err(InvalidPublicKey)
      <==> KeyDecodes(m) && !c.publicKeyValid(Decode(m[..PublicKeyWidth]).value)
    ensures Open(c, m) == Err(SignatureVerificationFailed)
      <==> KeyDecodes(m) && c.publicKeyValid(Decode(m[..PublicKeyWidth]).value)
           && !c.verify(Decode(m[..PublicKeyWidth]).value, SignedBytes(m), Signature(m))
    ensures Open(c, m) == Err(InvalidUtf8)
      <==> KeyDecodes(m) && c.publicKeyValid(Decode(m[..PublicKeyWidth]).value)
           && c.verify(Decode(m[..PublicKeyWidth]).value, SignedBytes(m), Signature(m))
           && !ValidUtf8(SignedBytes(m))
  {
    if Open(c, m) == Err(SignedMessageTooShort) {
      var signed := Decode(m[PublicKeyWidth..]).value;
      DecodedLength(m[PublicKeyWidth..], signed);
    }
  }

  /** The tail of `m` decodes to at least a signature's worth of bytes. */
  ghost predicate TailDecodes(m: seq<Byte>)
  {
    |m| >= PublicKeyWidth && Decode(m[PublicKeyWidth..]).Some?
    && |Decode(m[PublicKeyWidth..]).value| >= SignatureSize
  }

  /** ... and the head of `m` decodes to a 32-byte key. */
  ghost predicate KeyDecodes(m: seq<Byte>)
  {
    TailDecodes(m) && Decode(m[..PublicKeyWidth]).Some?
    && |Decode(m[..PublicKeyWidth]).value| == PublicKeySize
  }

  /** The first 64 decoded bytes of the tail. */
  ghost function Signature(m: seq<Byte>): Bytes64
    requires TailDecodes(m)
  {
    Decode(m[PublicKeyWidth..]).value[..SignatureSize]
  }

  /** The decoded bytes of the tail after the signature. */
  ghost function SignedBytes(m: seq<Byte>): seq<Byte>
    requires TailDecodes(m)
  {
    Decode(m[PublicKeyWidth..]).value[SignatureSize..]
  }

  /** A malformed tail is reported whatever the first 44 bytes are: the tail
      is checked before the public key. */
  lemma OpenChecksTailFirst(c: Crypto, a: seq<Byte>, b: seq<Byte>, t: seq<Byte>)
    requires |a| == PublicKeyWidth && |b| == PublicKeyWidth
    requires t != [] ==> !IsContinuation(t[0])
    requires Open(c, a + t) in {Err(InvalidSignedMessageBase64), Err(SignedMessageTooShort)}
    ensures Open(c, b + t) == Open(c, a + t)
  {
  }

  // ----- Opening is exactly the inverse of the envelope layout -----

  /** Whatever `open` accepts is an envelope, in its one canonical encoding,
      of a valid public key, a signature that verifies under it, and the text
      it returns: the bytes after the first 64 decoded bytes, unsplit. */
  lemma OpenSound(c: Crypto, m: seq<Byte>)
    requires |m| >= PublicKeyWidth ==> IsCharBoundary(m, PublicKeyWidth)
    requires Open(c, m).Ok?
    ensures var t := Open(c, m).value;
      exists pk: Bytes32, sig: Bytes64 ::
        && m == Envelope(pk, sig, t)
        && c.publicKeyValid(pk)
        && c.verify(pk, t, sig)
        && ValidUtf8(t)
  {
    var t := Open(c, m).value;
    var head, tail := m[..PublicKeyWidth], m[PublicKeyWidth..];
    var pk: Bytes32 := Decode(head).value;
    var signed := Decode(tail).value;
    var sig: Bytes64 := signed[..SignatureSize];
    assert signed == sig + t;
    EncodeDecode(head, pk);
    EncodeDecode(tail, signed);
    assert m == head + tail;
    assert m == Envelope(pk, sig, t);
  }

  /** Every envelope of a valid key, a verifying signature and valid text is
      accepted, and `open` returns that text. */
  lemma OpenComplete(c: Crypto, pk: Bytes32, sig: Bytes64, t: seq<Byte>)
    requires c.publicKeyValid(pk) && c.verify(pk, t, sig) && ValidUtf8(t)
    ensures IsCharBoundary(Envelope(pk, sig, t), PublicKeyWidth)
    ensures Open(c, Envelope(pk, sig, t)) == Ok(t)
  {
    EnvelopeDecodes(pk, sig, t);
    assert (sig + t)[..SignatureSize] == sig && (sig + t)[SignatureSize..] == t;
  }

  // ----- Round trips -----

  /** `gen` produces a well-formed keypair blob. */
  lemma GenWellFormed(c: Crypto, seed: Bytes32)
    requires Sound(c)
    ensures WellFormedKeypair(c, Gen(c, seed).value)
  {
    var kp := c.keypairFromSeed(seed);
    var k := Gen(c, seed).value;
    assert k[..PublicKeyWidth] == Encode(c.verifyingKey(kp));
    assert k[PublicKeyWidth..] == Encode(kp);
    DecodeEncode(c.verifyingKey(kp));
    DecodeEncode(kp);
  }

  /** Opening what `sign` produced from a well-formed keypair blob returns the
      timestamp digits followed by `h`, which therefore ends with `h`. */
  lemma RoundTrip(c: Crypto, h: seq<Byte>, k: seq<Byte>, ts: nat)
    requires Sound(c) && WellFormedKeypair(c, k) && ValidUtf8(h)
    ensures IsCharBoundary(k, PublicKeyWidth) && Sign(c, h, k, ts).Ok?
    ensures var env := Sign(c, h, k, ts).value;
      && |env| >= PublicKeyWidth
      && IsCharBoundary(env, PublicKeyWidth)
      && Open(c, env) == Ok(Digits(ts) + h)
  {
    var head, tail := k[..PublicKeyWidth], k[PublicKeyWidth..];
    var kp: Bytes64 := Decode(tail).value;
    var pk := c.verifyingKey(kp);
    DecodedLength(tail, kp);
    assert tail[0] == k[PublicKeyWidth];
    EncodeDecode(head, pk);
    var msg := Digits(ts) + h;
    var sig := c.sign(kp, msg);
    AsciiIsUtf8(Digits(ts));
    ConcatUtf8(Digits(ts), h);
    var env := Sign(c, h, k, ts).value;
    assert env == Envelope(pk, sig, msg);
    OpenComplete(c, pk, sig, msg);
  }

  /** The library's own scenario: hash a text, generate a keypair, sign the
      hash and open the envelope; the result is the timestamp digits followed
      by the hash. */
  lemma EndToEnd(c: Crypto, data: seq<Byte>, seed: Bytes32, ts: nat)
    requires Sound(c)
    ensures var k := Gen(c, seed).value;
      && IsCharBoundary(k, PublicKeyWidth)
      && Sign(c, Hash(c, data), k, ts).Ok?
      && var env := Sign(c, Hash(c, data), k, ts).value;
      && |env| >= PublicKeyWidth
      && IsCharBoundary(env, PublicKeyWidth)
      && Open(c, env) == Ok(Digits(ts) + Hash(c, data))
  {
    var h := Hash(c, data);
    GenWellFormed(c, seed);
    HashDecodes(c, data);
    AsciiIsUtf8(h);
    RoundTrip(c, h, Gen(c, seed).value, ts);
  }

  /** What `open` returns ends with the hash, and because a hash has a fixed
      width the digits before it read back as the timestamp. */
  lemma TimestampRecoverable(ts: nat, h: seq<Byte>)
    requires |h| == PublicKeyWidth
    ensures var t := Digits(ts) + h;
      && |t| > PublicKeyWidth
      && t[|t| - PublicKeyWidth..] == h
      && AllDigits(t[..|t| - PublicKeyWidth])
      && Parse(t[..|t| - PublicKeyWidth]) == ts
  {
  }
}
