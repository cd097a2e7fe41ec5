/** The cryptographic primitives the protocol calls: SHA-256 and Ed25519.
    Their internals are not part of this model. A `Crypto` value supplies
    them as functions, and `Sound` collects the laws the protocol relies on.
    Fixed output sizes are carried by the types of the functions. */
module Primitives {
  import opened Bytes

  type Bytes32 = s: seq<Byte> | |s| == 32 witness seq(32, _ => 0)
  type Bytes64 = s: seq<Byte> | |s| == 64 witness seq(64, _ => 0)

  datatype Crypto = Crypto(
    /** SHA-256 of a byte string. */
    sha256: seq<Byte> -> Bytes32,
    /** `SigningKey::from_bytes(seed).to_keypair_bytes()`: the 64-byte
        keypair representation (secret half, then public half) for a seed. */
    keypairFromSeed: Bytes32 -> Bytes64,
    /** `SigningKey::from_keypair_bytes` succeeds on these bytes. */
    keypairValid: Bytes64 -> bool,
    /** The 32-byte verifying key of a signing key given by its keypair bytes. */
    verifyingKey: Bytes64 -> Bytes32,
    /** The 64-byte Ed25519 signature of a message under a signing key. */
    sign: (Bytes64, seq<Byte>) -> Bytes64,
    /** `VerifyingKey::from_bytes` succeeds on these bytes. */
    publicKeyValid: Bytes32 -> bool,
    /** `verify(message, signature)` succeeds under a verifying key. */
    verify: (Bytes32, seq<Byte>, Bytes64) -> bool
  )

  /** The laws of Ed25519 the protocol depends on: a key generated from a seed
      is a valid keypair, the verifying key of a valid keypair is a valid public
      key, and a signature made with a valid keypair verifies under its
      verifying key for every message. */
  ghost predicate Sound(c: Crypto)
  {
    && (forall seed: Bytes32 :: c.keypairValid(c.keypairFromSeed(seed)))
    && (forall kp: Bytes64 :: c.keypairValid(kp) ==> c.publicKeyValid(c.verifyingKey(kp)))
    && (forall kp: Bytes64, m: seq<Byte> :: c.keypairValid(kp) ==> c.verify(c.verifyingKey(kp), m, c.sign(kp, m)))
  }
}
