/** ts/net/noise/symmetric-state.ts: the chaining key, the transcript hash and their cipher. */
module SymmetricStates {
  import opened Wrappers
  import opened ByteStrings
  import opened Crypto
  import opened CipherStates

  /** The value of a `SymmetricState` object. */
  datatype Symmetric = Symmetric(ck: Bytes, h: Bytes, cipher: Cipher)

  /** The start state: a name that fits a digest is zero-padded, a longer one is hashed. */
  function Named(c: Suite, name: Bytes): Symmetric {
    var h := if |name| <= HASH_LEN then name + seq(HASH_LEN - |name|, _ => 0) else c.hash(name);
    Symmetric(h, h, Cipher(None, 0))
  }

  function MixHash(c: Suite, s: Symmetric, data: Bytes): Symmetric {
    s.(h := c.hash(s.h + data))
  }

  function MixKey(c: Suite, s: Symmetric, input: Bytes): Symmetric {
    var (ck, k) := c.hkdf(s.ck, input);
    s.(ck := ck, cipher := Cipher(Some(k), 0))
  }

  function EncryptAndHash(c: Suite, s: Symmetric, pt: Bytes): Stepped<Symmetric, Bytes> {
    var e := Encrypt(c, s.cipher, s.h, pt);
    var s1 := s.(cipher := e.state);
    Stepped(if e.outcome.Ok? then MixHash(c, s1, e.outcome.value) else s1, e.outcome)
  }

  function DecryptAndHash(c: Suite, s: Symmetric, ct: Bytes): Stepped<Symmetric, Bytes> {
    var d := Decrypt(c, s.cipher, s.h, ct);
    var s1 := s.(cipher := d.state);
    Stepped(if d.outcome.Ok? then MixHash(c, s1, ct) else s1, d.outcome)
  }

  function Split(c: Suite, s: Symmetric): (Cipher, Cipher) {
    var (k1, k2) := c.hkdf(s.ck, []);
    (Cipher(Some(k1), 0), Cipher(Some(k2), 0))
  }

  class SymmetricState {
    const crypto: Suite
    var ck: Bytes
    var h: Bytes
    var cipher: CipherState

    ghost predicate Valid()
      reads this, cipher
    {
      cipher.crypto == crypto
    }

    ghost function View(): Symmetric
      reads this, cipher
    {
      Symmetric(ck, h, cipher.View())
    }

    constructor (crypto: Suite, protocolName: Bytes)
      ensures this.crypto == crypto && Valid() && fresh(cipher)
      ensures View() == Named(crypto, protocolName)
    {
      this.crypto := crypto;
      var start: Bytes := if |protocolName| <= HASH_LEN
      then protocolName + seq(HASH_LEN - |protocolName|, _ => 0) else crypto.hash(protocolName);
      h, ck := start, start;
      cipher := new CipherState(crypto, None);
    }

    method DoMixKey(input: Bytes)
      requires Valid()
      modifies this
      ensures Valid() && fresh(cipher)
      ensures View() == MixKey(crypto, old(View()), input)
      ensures h == old(h) && cipher.n == 0
      ensures var (newCk, k) := crypto.hkdf(old(ck), input); ck == newCk && cipher.key == Some(k)
    {
      var (newCk, tempK) := crypto.hkdf(ck, input);
      ck := newCk;
      cipher := new CipherState(crypto, Some(tempK));
    }

    method DoMixHash(data: Bytes)
      requires Valid()
      modifies this`h
      ensures Valid() && View() == MixHash(crypto, old(View()), data)
    {
      h := crypto.hash(h + data);
    }

    method DoEncryptAndHash(plaintext: Bytes) returns (r: Result<Bytes, Fault>)
      requires Valid()
      modifies this`h, cipher
      ensures Valid() && Stepped(View(), r) == EncryptAndHash(crypto, old(View()), plaintext)
    {
      r := cipher.EncryptWithAd(h, plaintext);
      if r.Ok? {
        DoMixHash(r.value);
      }
    }

    method DoDecryptAndHash(ciphertext: Bytes) returns (r: Result<Bytes, Fault>)
      requires Valid()
      modifies this`h, cipher
      ensures Valid() && Stepped(View(), r) == DecryptAndHash(crypto, old(View()), ciphertext)
    {
      r := cipher.DecryptWithAd(h, ciphertext);
      if r.Ok? {
        DoMixHash(ciphertext);
      }
    }

    method DoSplit() returns (send: CipherState, recv: CipherState)
      requires Valid()
      ensures fresh(send) && fresh(recv) && send != recv
      ensures send.crypto == recv.crypto == crypto
      ensures (send.View(), recv.View()) == Split(crypto, View())
    {
      var (k1, k2) := crypto.hkdf(ck, []);
      send := new CipherState(crypto, Some(k1));
      recv := new CipherState(crypto, Some(k2));
    }

    method HasKey() returns (r: bool)
      requires Valid()
      ensures r == View().cipher.key.Some?
    {
      r := cipher.HasKey();
    }
  }
}
