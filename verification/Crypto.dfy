/** The cryptography the secure-UDP stack calls, as a record of uninterpreted functions and
    the algebraic laws a proof may use. Nothing else is assumed of hash, HKDF, DH or AEAD. */
module Crypto {
  import opened Wrappers
  import opened ByteStrings

  const DH_LEN := 32
  const HASH_LEN := 32
  const TAG_LEN := 16

  /** Every reason for which the Noise code throws. */
  datatype Fault =
    | AlreadyComplete
    | MessageTooLarge
    | ShortMessage
    | NonceExhausted
    | CiphertextTooShort
    | BadTag
    | BadPublicKey
    | MissingKey

  /** A call that may throw part-way through: the state it leaves behind, and its outcome. */
  datatype Stepped<+S, +T> = Stepped(state: S, outcome: Result<T, Fault>)

  datatype KeyPair = KeyPair(privateKey: Bytes, publicRaw: Bytes)

  datatype Suite = Suite(
    hash: Bytes -> Bytes,                            // SHA-256
    hkdf: (Bytes, Bytes) -> (Bytes, Bytes),          // chaining key, input key material
    publicKey: Bytes -> Bytes,                       // X25519 public key of a scalar
    dh: (Bytes, Bytes) -> Option<Bytes>,             // None: the peer's key is refused
    seal: (Bytes, nat, Bytes, Bytes) -> Bytes,       // key, nonce, associated data, plaintext
    open: (Bytes, nat, Bytes, Bytes) -> Option<Bytes>
  )

  ghost predicate DhCommutes(c: Suite) {
    forall a, b ::
      c.dh(a, c.publicKey(b)).Some? && c.dh(a, c.publicKey(b)) == c.dh(b, c.publicKey(a))
  }

  /** Ideal AEAD: `open` accepts exactly what `seal` made under the same key, nonce and data. */
  ghost predicate AeadIsExact(c: Suite) {
    && (forall k, n, ad, pt :: c.open(k, n, ad, c.seal(k, n, ad, pt)) == Some(pt))
    && (forall k, n, ad, ct, pt :: c.open(k, n, ad, ct) == Some(pt) ==> ct == c.seal(k, n, ad, pt))
  }

  ghost predicate LengthsAreFixed(c: Suite) {
    && (forall a :: |c.publicKey(a)| == DH_LEN)
    && (forall x :: |c.hash(x)| == HASH_LEN)
    && (forall k, n, ad, pt :: |c.seal(k, n, ad, pt)| == |pt| + TAG_LEN)
  }

  ghost predicate Lawful(c: Suite) {
    DhCommutes(c) && AeadIsExact(c) && LengthsAreFixed(c)
  }

  ghost predicate Genuine(c: Suite, k: KeyPair) {
    k.publicRaw == c.publicKey(k.privateKey)
  }

  /** The laws are consistent: here is a suite (of no cryptographic worth) that meets them. */
  lemma LawfulSuiteExists()
    ensures exists c: Suite :: Lawful(c)
  {
    var zeros: Bytes := seq(32, _ => 0);
    var tag: Bytes := zeros[..TAG_LEN];
    var c := Suite(
      (x: Bytes) => zeros,
      (ck: Bytes, ikm: Bytes) => (zeros, zeros),
      (a: Bytes) => zeros,
      (a: Bytes, b: Bytes) => Some(zeros),
      (k: Bytes, n: nat, ad: Bytes, pt: Bytes) => pt + tag,
      (k: Bytes, n: nat, ad: Bytes, ct: Bytes) =>
        if |ct| >= TAG_LEN && ct[|ct| - TAG_LEN..] == tag then Some(ct[..|ct| - TAG_LEN]) else None
    );
    forall k, n, ad, ct, pt | c.open(k, n, ad, ct) == Some(pt)
      ensures ct == c.seal(k, n, ad, pt)
    {
      assert ct == ct[..|ct| - TAG_LEN] + ct[|ct| - TAG_LEN..];
    }
    forall k, n, ad, pt ensures c.open(k, n, ad, c.seal(k, n, ad, pt)) == Some(pt) {
      var ct := c.seal(k, n, ad, pt);
      assert ct[|ct| - TAG_LEN..] == tag && ct[..|ct| - TAG_LEN] == pt;
    }
    assert Lawful(c);
  }
}
