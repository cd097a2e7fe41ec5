# anproto envelopes in Dafny

A model of the anproto library (`src/lib.rs`). The library issues and checks signed, timestamped envelopes as plain text:

- `gen` builds a keypair blob: the base64 of a 32-byte Ed25519 verifying key followed by the base64 of the 64-byte keypair bytes (132 characters).
- `hash` gives the base64 of the SHA-256 digest of a text (44 characters).
- `sign(h, k)` checks the keypair blob `k` and splits it at the fixed offset 44. It signs the decimal millisecond timestamp followed by `h` and returns `k[..44] ++ base64(signature(64) ++ timestamp ++ h)`.
- `open(m)` splits an envelope at 44 and decodes the tail. It takes the first 64 decoded bytes as the signature, then decodes and checks the public key, verifies the signature and returns the remaining bytes as text.

Every boundary is a protocol constant: 44, 44 + 88 and 64. Each check maps to exactly one error.

## Structure

- `bytes.dfy` (`Bytes`): the byte type, `Option`, `IsAscii`.
- `base64.dfy` (`Base64`): the base64 of RFC 4648, section 4 (standard alphabet, `=` padding). Decoding is strict like the Rust `base64` crate's STANDARD engine: padding is required, the length must be a multiple of four, and non-zero trailing bits are refused. Both round trips are proved. Decode after encode is the identity. A string that decodes is the one canonical encoding of its result, so its length is fixed by the decoded length.
- `utf8.dfy` (`Utf8`): UTF-8 well-formedness as `String::from_utf8` checks it (Table 3-7 of the Unicode Standard), and the char-boundary test done by `&str` slicing.
- `decimal.dfy` (`Decimal`): the decimal text of the timestamp (`format!("{}", ts)`) and its inverse.
- `primitives.dfy` (`Primitives`): SHA-256 and Ed25519 as a `Crypto` record of functions. Their fixed output sizes are part of the function types. `Sound(c)` collects the laws the protocol needs: a seed gives a valid keypair, a valid keypair's verifying key is a valid public key, and a signature made with a valid keypair verifies under its verifying key.
- `anproto.dfy` (`Anproto`): `Gen`, `Hash`, `Sign` and `Open`, the error taxonomy, and the properties.

Text values (`&str`, `String`) are their UTF-8 bytes. Errors are an `Error` datatype. `Message` gives the exact string the library returns for each one.

`Envelope(pk, sig, t)` is an independent description of the layout: `Encode(pk) ++ Encode(sig ++ t)`. `OpenSound` and `OpenComplete` together show that `Open` accepts exactly the envelopes of a valid key, a signature that verifies and valid text, and returns that text.

## Model

| member | source | states |
|---|---|---|
| `Base64.Encode` | src/lib.rs:12-13 | The length law of base64: `n` bytes take `4 * ceil(n / 3)` symbols (32 -> 44, 64 -> 88) |
| `Base64.EncodeAlphabet` | src/lib.rs:21 | Every byte of an encoding is an alphabet symbol or `=`, so it is ASCII |
| `Base64.DecodeEncode` | src/lib.rs:46 | Decoding what was encoded returns exactly the encoded bytes |
| `Base64.Decode` | src/lib.rs:46 | Strict STANDARD decoding, the same decoder at lines 30 and 53: a length that is not a multiple of four is refused and the empty string decodes to no bytes. With `DecodeEncode` and `EncodeDecode`, it accepts exactly the encodings (padding required, zero trailing bits) and inverts `Encode` |
| `Base64.EncodeDecode` | src/lib.rs:30 | Strict decoding is canonical: a string that decodes equals the encoding of its result |
| `Base64.DecodedLength` | src/lib.rs:30-31 | A decodable string's length is fixed by its decoded length (64 bytes only from 88 symbols), and it is ASCII |
| `Utf8.ValidUtf8` | src/lib.rs:56 | The check of `String::from_utf8`: a string is valid when it splits into well-formed scalar sequences of Table 3-7. A valid non-empty string never starts with a continuation byte, 0xC0, 0xC1 or a byte above 0xF4 |
| `Utf8.AsciiIsUtf8` | src/lib.rs:56 | Every ASCII byte string passes the UTF-8 check |
| `Utf8.ConcatUtf8` | src/lib.rs:33 | Concatenating two valid UTF-8 strings gives valid UTF-8 |
| `Decimal.Digits` | src/lib.rs:33 | The timestamp's text is a non-empty string of ASCII digits with no leading zero unless the value is 0 |
| `Decimal.ParseDigits` | src/lib.rs:33 | Reading the digits back gives the timestamp |
| `Decimal.DigitsInjective` | src/lib.rs:33 | Different timestamps have different decimal texts |
| `Anproto.Gen` | src/lib.rs:7-15 | `gen` always succeeds and its blob is 132 bytes |
| `Anproto.GenWellFormed` | src/lib.rs:7-15 | The blob's tail decodes to a valid 64-byte keypair, and its head decodes to that keypair's verifying key |
| `Anproto.Hash` | src/lib.rs:17-22 | The hash text is 44 bytes |
| `Anproto.HashDecodes` | src/lib.rs:17-22 | The hash text is ASCII and decodes to the 32-byte SHA-256 digest |
| `Anproto.Message` | src/lib.rs:26-56 | The twelve error strings of the library, verbatim. Every one reads "invalid ..." except "signed message too short" and "signature verification failed" |
| `Anproto.MessageInjective` | src/lib.rs:26-56 | The error strings are pairwise distinct |
| `Anproto.Sign` | src/lib.rs:24-38 | A blob shorter than 132 bytes gives "invalid key length" before any decoding. On success the blob is exactly 132 bytes and the output starts with its first 44 bytes verbatim |
| `Anproto.SignErrors` | src/lib.rs:25-31 | Each `sign` error arises exactly when all earlier checks pass and its own check fails. The whole tail must decode to 64 bytes, so a blob longer than 132 fails only with the base64 or length error. `sign` succeeds exactly when the tail decodes to a valid 64-byte keypair, whatever the first 44 bytes are |
| `Anproto.SignIgnoresHead` | src/lib.rs:28-37 | The first 44 bytes are copied unvalidated: two blobs with the same tail give the same error, or both succeed with outputs that differ only in the copied prefix |
| `Anproto.SignedTail` | src/lib.rs:32-37 | The output's tail decodes to the 64-byte signature, then the timestamp digits, then `h`, with no separator. The signature is over exactly digits ++ `h` and verifies under the keypair's verifying key |
| `Anproto.Open` | src/lib.rs:40-57 | Input shorter than 44 bytes gives "invalid message length". What `open` returns is valid UTF-8 |
| `Anproto.OpenErrors` | src/lib.rs:41-56 | Fixed order: tail base64, tail length >= 64, key base64, key length 32, key validity, signature, UTF-8. Each error arises exactly when all earlier checks pass and its own fails. "signed message too short" implies a total length of at most 128 |
| `Anproto.OpenChecksTailFirst` | src/lib.rs:44-53 | A malformed tail gives the same error whatever the first 44 bytes are |
| `Anproto.EnvelopeDecodes` | src/lib.rs:35-37 | An envelope is ASCII. Its head decodes to the public key, and its tail decodes to the signature followed by the signed bytes |
| `Anproto.OpenSound` | src/lib.rs:44-56 | Whatever `open` accepts is the canonical envelope of a valid key, a signature that verifies under it, and the returned text, which is everything after the first 64 decoded bytes |
| `Anproto.OpenComplete` | src/lib.rs:44-56 | Every envelope of a valid key, a verifying signature and valid text opens to that text |
| `Anproto.RoundTrip` | src/lib.rs:24-57 | For a well-formed keypair blob and any text `h`, `sign` succeeds and `open` of its output returns the timestamp digits followed by `h` |
| `Anproto.EndToEnd` | src/lib.rs:76-83 | Hash, gen, sign, open: the result is the timestamp digits followed by the hash |
| `Anproto.TimestampRecoverable` | src/lib.rs:33 | The signed text ends with the 44-byte hash, and the digits before it read back as the timestamp |

## Left out

- Ed25519 and SHA-256 internals (curve arithmetic, the consistency check in `SigningKey::from_keypair_bytes`, point decompression in `VerifyingKey::from_bytes`, `verify`, the compression function). They are foreign library code. They appear only as the functions of `Crypto`, constrained by the laws in `Sound`.
- Tamper sensitivity and cross-key rejection (a changed payload or a substituted key fails verification). These rest on Ed25519 unforgeability, which the laws do not include. `OpenSound` only shows that `open` returns nothing that `verify` did not accept under the key in the envelope.
- Randomness in `gen` (src/lib.rs:8-9): the 32-byte seed is a parameter.
- The clock in `sign` (src/lib.rs:32): the millisecond timestamp is a `nat` parameter. Not modelled: the `nat` timestamp leaves out the `unwrap` panic for a clock set before the epoch. The `u128` width of `as_millis` is not modelled because no value changes under it.
- The panic when `&str` slicing at byte 44 cuts a multi-byte character (src/lib.rs:28-29, src/lib.rs:44-45). It is a precondition of `Sign` and `Open`, required only when the slice happens.
- `String` results are byte sequences. `RoundTrip` requires `h` to be valid UTF-8, which every Rust `&str` is.
- The error strings are kept (`Message`), but the results carry the `Error` datatype instead of a `String`.
- The printing test (src/lib.rs:85-102) and `examples/example.rs`: thin callers that write to the console.
- A single undifferentiated verification failure for every cause after decoding. The code reports "invalid public key" separately from "signature verification failed" (src/lib.rs:54-55), and the model follows the code.
