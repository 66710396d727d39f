/** ts/net/noise/cipher-state.ts: AEAD under a key and a message counter. */
module CipherStates {
  import opened Wrappers
  import opened ByteStrings
  import opened Crypto

  // 2^64 - 1 is reserved by section 5.1 of the Noise specification.
  const NONCE_MAX: nat := TWO_TO_THE_64 - 1

  /** The value of a `CipherState` object. */
  datatype Cipher = Cipher(key: Option<Bytes>, n: nat)

  function SealAt(c: Suite, s: Cipher, n: nat, ad: Bytes, pt: Bytes): Bytes {
    if s.key.None? then pt else c.seal(s.key.value, n, ad, pt)
  }

  function OpenAt(c: Suite, s: Cipher, n: nat, ad: Bytes, ct: Bytes): Result<Bytes, Fault> {
    if s.key.None? then Ok(ct)
    else if |ct| < TAG_LEN then Err(CiphertextTooShort)
    else
      match c.open(s.key.value, n, ad, ct)
      case None => Err(BadTag)
      case Some(pt) => Ok(pt)
  }

  function Encrypt(c: Suite, s: Cipher, ad: Bytes, pt: Bytes): Stepped<Cipher, Bytes> {
    if s.key.None? then Stepped(s, Ok(pt))
    else if s.n >= NONCE_MAX then Stepped(s, Err(NonceExhausted))
    else Stepped(s.(n := s.n + 1), Ok(SealAt(c, s, s.n, ad, pt)))
  }

  function Decrypt(c: Suite, s: Cipher, ad: Bytes, ct: Bytes): Stepped<Cipher, Bytes> {
    if s.key.None? then Stepped(s, Ok(ct))
    else if s.n >= NONCE_MAX then Stepped(s, Err(NonceExhausted))
    else
      var pt := OpenAt(c, s, s.n, ad, ct);
      Stepped(if pt.Ok? then s.(n := s.n + 1) else s, pt)
  }

  /** Two equal cipher states: what one encrypts the other decrypts, and they stay equal;
      what one accepts is what the other would have sent. */
  lemma DecryptInvertsEncrypt(c: Suite, s: Cipher, ad: Bytes, pt: Bytes, ct: Bytes)
    requires Lawful(c)
    ensures Encrypt(c, s, ad, pt).outcome == Ok(ct) <==> Decrypt(c, s, ad, ct).outcome == Ok(pt)
    ensures Encrypt(c, s, ad, pt).outcome == Ok(ct)
      ==> Decrypt(c, s, ad, ct).state == Encrypt(c, s, ad, pt).state
    ensures Encrypt(c, s, ad, pt).outcome == Ok(ct)
      ==> |ct| == |pt| + if s.key.None? then 0 else TAG_LEN
  {
    if s.key.Some? {
      var sealed := c.seal(s.key.value, s.n, ad, pt);
      assert |sealed| == |pt| + TAG_LEN;
      assert c.open(s.key.value, s.n, ad, sealed) == Some(pt);
    }
  }

  /** At an explicit counter: a text opens as a plaintext exactly when it is what sealing that
      plaintext gives under the same key, counter and associated data. */
  lemma OpenInvertsSeal(c: Suite, s: Cipher, n: nat, ad: Bytes, pt: Bytes, ct: Bytes)
    requires Lawful(c)
    ensures OpenAt(c, s, n, ad, ct) == Ok(pt) <==> ct == SealAt(c, s, n, ad, pt)
    ensures |SealAt(c, s, n, ad, pt)| == |pt| + if s.key.None? then 0 else TAG_LEN
  {
    if s.key.Some? {
      var sealed := c.seal(s.key.value, n, ad, pt);
      assert |sealed| == |pt| + TAG_LEN;
      assert c.open(s.key.value, n, ad, sealed) == Some(pt);
    }
  }

  class CipherState {
    const crypto: Suite
    var key: Option<Bytes>
    var n: nat

    ghost function View(): Cipher
      reads this
    {
      Cipher(key, n)
    }

    constructor (crypto: Suite, key: Option<Bytes>)
      ensures this.crypto == crypto && View() == Cipher(key, 0)
    {
      this.crypto, this.key, this.n := crypto, key, 0;
    }

    method HasKey() returns (r: bool)
      ensures r == View().key.Some?
    {
      r := key.Some?;
    }

    method EncryptWithAd(ad: Bytes, plaintext: Bytes) returns (r: Result<Bytes, Fault>)
      modifies this
      ensures Stepped(View(), r) == Encrypt(crypto, old(View()), ad, plaintext)
    {
      if key.None? {
        return Ok(plaintext);
      }
      if n >= NONCE_MAX {
        return Err(NonceExhausted);
      }
      var sealed := crypto.seal(key.value, n, ad, plaintext);
      n := n + 1;
      return Ok(sealed);
    }

    method DecryptWithAd(ad: Bytes, ciphertext: Bytes) returns (r: Result<Bytes, Fault>)
      modifies this
      ensures Stepped(View(), r) == Decrypt(crypto, old(View()), ad, ciphertext)
    {
      if key.None? {
        return Ok(ciphertext);
      }
      if n >= NONCE_MAX {
        return Err(NonceExhausted);
      }
      if |ciphertext| < TAG_LEN {
        return Err(CiphertextTooShort);
      }
      var plain := crypto.open(key.value, n, ad, ciphertext);
      if plain.None? {
        return Err(BadTag);
      }
      n := n + 1;
      return Ok(plain.value);
    }

    /** Accepts exactly what `EncryptAt` makes at that counter with that data, and gives it back. */
    method DecryptAt(n: nat, ad: Bytes, ciphertext: Bytes) returns (r: Result<Bytes, Fault>)
      ensures r == OpenAt(crypto, View(), n, ad, ciphertext)
      ensures Lawful(crypto) ==>
                forall pt :: r == Ok(pt) <==> ciphertext == SealAt(crypto, View(), n, ad, pt)
    {
      if Lawful(crypto) {
        forall pt
          ensures OpenAt(crypto, View(), n, ad, ciphertext) == Ok(pt)
                  <==> ciphertext == SealAt(crypto, View(), n, ad, pt)
        {
          OpenInvertsSeal(crypto, View(), n, ad, pt, ciphertext);
        }
      }
      if key.None? {
        return Ok(ciphertext);
      }
      if |ciphertext| < TAG_LEN {
        return Err(CiphertextTooShort);
      }
      var plain := crypto.open(key.value, n, ad, ciphertext);
      return if plain.None? then Err(BadTag) else Ok(plain.value);
    }

    /** What it makes opens at that counter with that data as the plaintext, 16 bytes longer. */
    method EncryptAt(n: nat, ad: Bytes, plaintext: Bytes) returns (r: Bytes)
      ensures r == SealAt(crypto, View(), n, ad, plaintext)
      ensures Lawful(crypto) ==>
                && OpenAt(crypto, View(), n, ad, r) == Ok(plaintext)
                && |r| == |plaintext| + if key.None? then 0 else TAG_LEN
    {
      if Lawful(crypto) {
        OpenInvertsSeal(crypto, View(), n, ad, plaintext, SealAt(crypto, View(), n, ad, plaintext));
      }
      r := if key.None? then plaintext else crypto.seal(key.value, n, ad, plaintext);
    }
  }
}
