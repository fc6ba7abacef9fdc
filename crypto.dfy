/**
 The cryptographic capabilities the common coin relies on, kept abstract.

 The threshold-signature scheme (Boldyreva threshold BLS) and SHA-256 are
 foreign library code. They appear here only as function values carried by
 the key records, so the coin's state machine can call them without the
 model saying anything about how they compute.
 */
module Crypto {

  newtype byte = x: int | 0 <= x < 256

  type Bytes = seq<byte>

  /** A SHA-256 digest: always 32 bytes, so its first byte exists. */
  type Sha256Digest = d: Bytes | |d| == 32 witness seq(32, _ => 0)

  /** A group element: a signature share, a combined signature or a message hash. */
  type Element(==, !new)

  /** The instance identifier that scopes every signed message. */
  type SessionId = string

  /** A coin value. */
  type Bit = b: int | 0 <= b < 2

  /**
   The threshold public key: `k` shares are needed out of `l` shareholders,
   plus the operations the coin uses on it.
   */
  datatype PublicKey = PublicKey(
    k: nat,
    l: nat,
    // pk.hash_message(str((sid, r))): the message every share for round r signs
    hashMessage: (SessionId, int) -> Element,
    // pk.verify_share(sig, i, h): false where the library raises AssertionError
    verifyShare: (Element, int, Element) -> bool,
    // pk.combine_shares(sigs), with the dictionary given in its iteration order
    combineShares: seq<(nat, Element)> -> Element,
    // pk.verify_signature(sig, h)
    verifySignature: (Element, Element) -> bool,
    // serialize and deserialize1 of the signature library
    serialize: Element -> Bytes,
    deserialize: Bytes -> Element
  )

  /** This party's private key share: only `sign` is used. */
  datatype PrivateKey = PrivateKey(sign: Element -> Element)

  /**
   The coin bit of a combined signature: the parity of the first byte of
   the SHA-256 digest of its serialization.
   */
  function CoinBit(sha256: Bytes -> Sha256Digest, serialized: Bytes): (b: nat)
    ensures b <= 1
    ensures b == 0 <==> sha256(serialized)[0] as int % 2 == 0
  {
    sha256(serialized)[0] as int % 2
  }
}
