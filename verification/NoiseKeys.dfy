/** The XX handshake spelled out: what its three messages are on the wire and what its transport
    keys are, in terms of the hash, HKDF, DH and AEAD alone (section 5 and 7.5 of the Noise Protocol
    Framework, revision 34), and that the token machine of ts/net/noise computes exactly that. */
module NoiseKeys {
  import opened Wrappers
  import opened ByteStrings
  import opened Crypto
  import opened CipherStates
  import opened SymmetricStates
  import opened HandshakeStates
  import opened NoiseAgreement

  predicate IsAscii(s: string) {
    forall i :: 0 <= i < |s| ==> s[i] as int < 128
  }

  function Ascii(s: string): (b: Bytes)
    requires IsAscii(s)
    ensures |b| == |s|
  {
    seq(|s|, i requires 0 <= i < |s| => s[i] as int)
  }

  /** The protocol name, padded with zeros to the length of a digest. */
  function PaddedName(): Bytes {
    Ascii("Noise_XX_25519_AESGCM_SHA256") + [0, 0, 0, 0]
  }

  /** The DH secret of a private and a public key. */
  function Secret(c: Suite, a: KeyPair, b: KeyPair): Bytes {
    match c.dh(a.privateKey, b.publicRaw)
    case Some(secret) => secret
    case None => []
  }

  /** The four keys of a run: one for each DH secret mixed in, and the chaining key behind the last. */
  datatype Keys = Keys(ck: Bytes, k1: Bytes, k2: Bytes, k3: Bytes)

  /** Each secret is mixed into the chaining key of the one before: ee, then es, then se. */
  function KeysFrom(c: Suite, name: Bytes, ee: Bytes, es: Bytes, se: Bytes): Keys {
    var (ck1, k1) := c.hkdf(name, ee);
    var (ck2, k2) := c.hkdf(ck1, es);
    var (ck3, k3) := c.hkdf(ck2, se);
    Keys(ck3, k1, k2, k3)
  }

  /** The transcript hash after each thing hashed, and the sealed fields of the messages. */
  datatype Spelled = Spelled(
    first: Bytes, second: Bytes, third: Bytes,   // the messages on the wire
    hash: Bytes,                                 // the handshake hash
    toResponder: Bytes, toInitiator: Bytes       // the transport keys
  )

  function SpellOut(c: Suite, sI: KeyPair, sR: KeyPair, eI: KeyPair, eR: KeyPair, prologue: Bytes,
                    p1: Bytes, p2: Bytes, p3: Bytes): Spelled {
    var k := KeysFrom(c, PaddedName(), Secret(c, eI, eR), Secret(c, eI, sR), Secret(c, sI, eR));
    var h0 := c.hash(PaddedName() + prologue);
    var h1 := c.hash(c.hash(h0 + eI.publicRaw) + p1);
    var h2 := c.hash(h1 + eR.publicRaw);
    var static2 := c.seal(k.k1, 0, h2, sR.publicRaw);
    var h3 := c.hash(h2 + static2);
    var payload2 := c.seal(k.k2, 0, h3, p2);
    var h4 := c.hash(h3 + payload2);
    var static3 := c.seal(k.k2, 1, h4, sI.publicRaw);
    var h5 := c.hash(h4 + static3);
    var payload3 := c.seal(k.k3, 0, h5, p3);
    var (toResponder, toInitiator) := c.hkdf(k.ck, []);
    Spelled(eI.publicRaw + p1, eR.publicRaw + static2 + payload2, static3 + payload3,
            c.hash(h5 + payload3), toResponder, toInitiator)
  }

  lemma NameIsPadded(c: Suite)
    ensures Named(c, PROTOCOL_NAME) == Symmetric(PaddedName(), PaddedName(), Cipher(None, 0))
  {
    assert PROTOCOL_NAME == Ascii("Noise_XX_25519_AESGCM_SHA256");
  }

  // ----- One message at a time, from the writer's side -----

  lemma TokensEnd(c: Suite, hs: Handshake, ephemeral: KeyPair, written: Bytes)
    ensures WriteTokens(c, hs, [], ephemeral, written) == Stepped(hs, Ok(written))
  {
  }

  lemma TokensNext(c: Suite, hs: Handshake, token: Token, tokens: seq<Token>, ephemeral: KeyPair, written: Bytes)
    requires WriteToken(c, hs, token, ephemeral).outcome.Ok?
    ensures var w := WriteToken(c, hs, token, ephemeral);
            WriteTokens(c, hs, [token] + tokens, ephemeral, written)
            == WriteTokens(c, w.state, tokens, ephemeral, written + w.outcome.value)
  {
    assert ([token] + tokens)[1..] == tokens;
  }

  /** msg1: the initiator's ephemeral key and a payload, both in the clear. */
  lemma FirstSpelled(c: Suite, hs: Handshake, p1: Bytes, eI: KeyPair)
    requires hs.step == 0 && hs.ss.cipher == Cipher(None, 0)
    ensures var w := WriteMessage(c, hs, p1, eI);
            && w.outcome == Ok(Flight(eI.publicRaw + p1, None))
            && w.state == hs.(e := Some(eI), step := 1,
                              ss := hs.ss.(h := c.hash(c.hash(hs.ss.h + eI.publicRaw) + p1)))
  {
    assert XX[0] == [E] + [];
    TokensNext(c, hs, E, [], eI, []);
    assert [] + eI.publicRaw == eI.publicRaw;
  }

  /** The symmetric state after a secret is mixed in. */
  function Mixed(c: Suite, ck: Bytes, h: Bytes, secret: Bytes): Symmetric {
    Symmetric(c.hkdf(ck, secret).0, h, Cipher(Some(c.hkdf(ck, secret).1), 0))
  }

  lemma MixSpelled(c: Suite, hs: Handshake, token: Token, a: KeyPair, b: KeyPair)
    requires token != E && token != S && DhInputs(hs, token) == (Some(a), Some(b.publicRaw))
    requires c.dh(a.privateKey, b.publicRaw).Some?
    ensures MixDh(c, hs, token) == Stepped(hs.(ss := Mixed(c, hs.ss.ck, hs.ss.h, Secret(c, a, b))), Ok(()))
  {
  }

  lemma SealSpelled(c: Suite, s: Symmetric, pt: Bytes)
    requires s.cipher.key.Some? && s.cipher.n < 10
    ensures var sealed := c.seal(s.cipher.key.value, s.cipher.n, s.h, pt);
            EncryptAndHash(c, s, pt)
            == Stepped(s.(h := c.hash(s.h + sealed), cipher := s.cipher.(n := s.cipher.n + 1)), Ok(sealed))
  {
  }

  /** msg2: the responder's ephemeral key, its static key under ee, a payload under es. */
  lemma SecondSpelled(c: Suite, hs: Handshake, p2: Bytes, eI: KeyPair, eR: KeyPair)
    requires hs.step == 1 && !hs.initiator && hs.re == Some(eI.publicRaw)
    requires c.dh(eR.privateKey, eI.publicRaw).Some? && c.dh(hs.s.privateKey, eI.publicRaw).Some?
    ensures var (ck1, k1) := c.hkdf(hs.ss.ck, Secret(c, eR, eI));
            var (ck2, k2) := c.hkdf(ck1, Secret(c, hs.s, eI));
            var h2 := c.hash(hs.ss.h + eR.publicRaw);
            var static2 := c.seal(k1, 0, h2, hs.s.publicRaw);
            var h3 := c.hash(h2 + static2);
            var payload2 := c.seal(k2, 0, h3, p2);
            var w := WriteMessage(c, hs, p2, eR);
            && w.outcome == Ok(Flight(eR.publicRaw + static2 + payload2, None))
            && w.state == hs.(e := Some(eR), step := 2,
                              ss := Symmetric(ck2, c.hash(h3 + payload2), Cipher(Some(k2), 1)))
  {
    hide EncryptAndHash;
    var hs1 := hs.(e := Some(eR), ss := MixHash(c, hs.ss, eR.publicRaw));
    MixSpelled(c, hs1, EE, eR, eI);
    var hs2 := hs1.(ss := Mixed(c, hs1.ss.ck, hs1.ss.h, Secret(c, eR, eI)));
    SealSpelled(c, hs2.ss, hs.s.publicRaw);
    var hs3 := hs2.(ss := EncryptAndHash(c, hs2.ss, hs.s.publicRaw).state);
    var static2 := EncryptAndHash(c, hs2.ss, hs.s.publicRaw).outcome.value;
    MixSpelled(c, hs3, ES, hs.s, eI);
    var hs4 := hs3.(ss := Mixed(c, hs3.ss.ck, hs3.ss.h, Secret(c, hs.s, eI)));
    SealSpelled(c, hs4.ss, p2);
    assert XX[1] == [E] + ([EE] + ([S] + ([ES] + [])));
    TokensNext(c, hs, E, [EE] + ([S] + ([ES] + [])), eR, []);
    TokensNext(c, hs1, EE, [S] + ([ES] + []), eR, [] + eR.publicRaw);
    TokensNext(c, hs2, S, [ES] + [], eR, [] + eR.publicRaw + []);
    TokensNext(c, hs3, ES, [], eR, [] + eR.publicRaw + [] + static2);
    assert [] + eR.publicRaw + [] + static2 + [] == eR.publicRaw + static2;
  }

  /** msg3: the initiator's static key, still under es, and a payload under se; then the split. */
  lemma ThirdSpelled(c: Suite, hs: Handshake, p3: Bytes, eR: KeyPair, e: KeyPair)
    requires hs.step == 2 && hs.initiator && hs.re == Some(eR.publicRaw) && hs.rs.Some?
    requires hs.ss.cipher.key.Some? && hs.ss.cipher.n == 1 && c.dh(hs.s.privateKey, eR.publicRaw).Some?
    ensures var (ck3, k3) := c.hkdf(hs.ss.ck, Secret(c, hs.s, eR));
            var static3 := c.seal(hs.ss.cipher.key.value, 1, hs.ss.h, hs.s.publicRaw);
            var h5 := c.hash(hs.ss.h + static3);
            var payload3 := c.seal(k3, 0, h5, p3);
            var (toResponder, toInitiator) := c.hkdf(ck3, []);
            WriteMessage(c, hs, p3, e).outcome
            == Ok(Flight(static3 + payload3,
                         Some(Transport(Cipher(Some(toResponder), 0), Cipher(Some(toInitiator), 0),
                                        c.hash(h5 + payload3), hs.rs.value))))
  {
    hide EncryptAndHash;
    SealSpelled(c, hs.ss, hs.s.publicRaw);
    var hs1 := hs.(ss := EncryptAndHash(c, hs.ss, hs.s.publicRaw).state);
    var static3 := EncryptAndHash(c, hs.ss, hs.s.publicRaw).outcome.value;
    MixSpelled(c, hs1, SE, hs.s, eR);
    var hs2 := hs1.(ss := Mixed(c, hs1.ss.ck, hs1.ss.h, Secret(c, hs.s, eR)));
    SealSpelled(c, hs2.ss, p3);
    assert XX[2] == [S] + ([SE] + []);
    TokensNext(c, hs, S, [SE] + [], e, []);
    TokensNext(c, hs1, SE, [], e, [] + static3);
    assert [] + static3 + [] == static3;
  }

  lemma SecretsAgree(c: Suite, a: KeyPair, b: KeyPair)
    requires Lawful(c) && Genuine(c, a) && Genuine(c, b)
    ensures c.dh(a.privateKey, b.publicRaw).Some? && Secret(c, a, b) == Secret(c, b, a)
  {
  }

  /** The ends of a relay whose payloads fit, before the second and the third message. */
  lemma RelayStates(c: Suite, sI: KeyPair, sR: KeyPair, eI: KeyPair, eR: KeyPair, prologue: Bytes,
                    p1: Bytes, p2: Bytes, p3: Bytes)
    requires Lawful(c) && Genuine(c, sI) && Genuine(c, sR) && Genuine(c, eI) && Genuine(c, eR)
    requires PayloadsFit(p1, p2, p3)
    ensures var x := RunXX(c, sI, sR, eI, eR, prologue, p1, p2, p3);
            && x.firstRead.state.ss == x.first.state.ss
            && x.firstRead.state.step == 1 && !x.firstRead.state.initiator && x.firstRead.state.s == sR
            && (x.first.state.e == Some(eI) ==> x.firstRead.state.re == Some(eI.publicRaw))
            && x.secondRead.state.ss == x.second.state.ss
            && x.secondRead.state.step == 2 && x.secondRead.state.initiator && x.secondRead.state.s == sI
            && x.secondRead.state.rs.Some?
            && (x.second.state.e == Some(eR) ==> x.secondRead.state.re == Some(eR.publicRaw))
  {
    hide WriteMessage, ReadMessage, Lawful;
    var x := RunXX(c, sI, sR, eI, eR, prologue, p1, p2, p3);
    FirstTwoMessages(c, sI, sR, eI, eR, prologue, p1, p2, p3);
    FirstMessage(c, sI, sR, eI, prologue, p1);
  }

  /** For all genuine keys and payloads that fit: the three messages, the handshake hash and both
      ends' transport keys are what XX spells out, each key from all the DH secrets mixed so far. */
  lemma XxIsSpelledOut(c: Suite, sI: KeyPair, sR: KeyPair, eI: KeyPair, eR: KeyPair, prologue: Bytes,
                       p1: Bytes, p2: Bytes, p3: Bytes)
    requires Lawful(c) && Genuine(c, sI) && Genuine(c, sR) && Genuine(c, eI) && Genuine(c, eR)
    requires PayloadsFit(p1, p2, p3)
    ensures var x := RunXX(c, sI, sR, eI, eR, prologue, p1, p2, p3);
            var t := SpellOut(c, sI, sR, eI, eR, prologue, p1, p2, p3);
            && (Message(x.first), Message(x.second), Message(x.third)) == (t.first, t.second, t.third)
            && x.third.outcome.Ok? && x.third.outcome.value.transport.Some?
            && x.thirdRead.outcome.Ok? && x.thirdRead.outcome.value.transport.Some?
            && x.third.outcome.value.transport.value
               == Transport(Cipher(Some(t.toResponder), 0), Cipher(Some(t.toInitiator), 0), t.hash, sR.publicRaw)
            && x.thirdRead.outcome.value.transport.value
               == Transport(Cipher(Some(t.toInitiator), 0), Cipher(Some(t.toResponder), 0), t.hash, sI.publicRaw)
  {
    hide WriteMessage, ReadMessage, Lawful, Secret;
    var x := RunXX(c, sI, sR, eI, eR, prologue, p1, p2, p3);
    RelayStates(c, sI, sR, eI, eR, prologue, p1, p2, p3);
    NameIsPadded(c);
    FirstSpelled(c, Start(c, true, sI, prologue), p1, eI);
    SecretsAgree(c, eI, eR);
    SecretsAgree(c, eR, eI);
    SecretsAgree(c, eI, sR);
    SecretsAgree(c, sR, eI);
    SecretsAgree(c, sI, eR);
    SecondSpelled(c, x.firstRead.state, p2, eI, eR);
    ThirdSpelled(c, x.secondRead.state, p3, eR, eI);
    XxAgreement(c, sI, sR, eI, eR, prologue, p1, p2, p3);
  }
}
