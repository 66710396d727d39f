/** Section 5 of the Noise Protocol Framework, revision 34: two honest ends that relay the
    XX messages unaltered agree on payloads, identities, handshake hash and transport keys. */
module NoiseAgreement {
  import opened Wrappers
  import opened ByteStrings
  import opened Crypto
  import opened CipherStates
  import opened SymmetricStates
  import opened HandshakeStates

  // ----- Mirrored ends -----

  ghost predicate Knows(c: Suite, own: Option<KeyPair>, seen: Option<Bytes>) {
    match own
    case None => seen.None?
    case Some(k) => Genuine(c, k) && seen == Some(k.publicRaw)
  }

  /** Two ends in the same symmetric state, each holding the other's ephemeral key if it was
      sent, and the other's static key if it holds one at all. */
  ghost predicate Mirror(c: Suite, a: Handshake, b: Handshake) {
    && a.ss == b.ss
    && a.step == b.step
    && a.initiator != b.initiator
    && Genuine(c, a.s) && Genuine(c, b.s)
    && Knows(c, a.e, b.re) && Knows(c, b.e, a.re)
    && (a.rs.Some? ==> a.rs == Some(b.s.publicRaw))
    && (b.rs.Some? ==> b.rs == Some(a.s.publicRaw))
  }

  /** Whether both sides hold the keys a token combines, before `w` writes it for `r`. */
  predicate Available(w: Handshake, r: Handshake, token: Token) {
    match token
    case E => true
    case S => true
    case EE => w.e.Some? && r.e.Some?
    case SS => w.rs.Some? && r.rs.Some?
    case ES => if w.initiator then w.e.Some? && w.rs.Some? else r.e.Some? && r.rs.Some?
    case SE => if w.initiator then r.e.Some? && r.rs.Some? else w.e.Some? && w.rs.Some?
  }

  /** Keys each side still holds after `w` wrote `token`. */
  ghost predicate KeysAfter(w: Handshake, r: Handshake, token: Token, w1: Handshake, r1: Handshake) {
    && (w1.e.Some? <==> w.e.Some? || token == E) && r1.e == r.e
    && (r1.rs.Some? <==> r.rs.Some? || token == S) && w1.rs == w.rs
    && w1.s == w.s && r1.s == r.s && w1.initiator == w.initiator && w1.step == w.step
  }

  function TokenLength(s: Symmetric, token: Token): nat {
    if token == E then DH_LEN
    else if token == S then DH_LEN + Overhead(s)
    else 0
  }

  function Overhead(s: Symmetric): nat {
    if s.cipher.key.Some? then TAG_LEN else 0
  }

  /** Sealing and opening under equal symmetric states give equal symmetric states back. */
  lemma SealThenOpen(c: Suite, s: Symmetric, pt: Bytes)
    requires Lawful(c) && s.cipher.n < NONCE_MAX
    ensures EncryptAndHash(c, s, pt).outcome.Ok?
    ensures var e := EncryptAndHash(c, s, pt);
            DecryptAndHash(c, s, e.outcome.value) == Stepped(e.state, Ok(pt))
            && |e.outcome.value| == |pt| + Overhead(s)
            && e.state.cipher.key == s.cipher.key && e.state.cipher.n <= s.cipher.n + 1
  {
    var ct := Encrypt(c, s.cipher, s.h, pt).outcome.value;
    DecryptInvertsEncrypt(c, s.cipher, s.h, pt, ct);
  }

  /** One DH token leaves mirrored ends mirrored: this is where commutativity is used. */
  lemma DhTokenMirrors(c: Suite, w: Handshake, r: Handshake, token: Token)
    requires Lawful(c) && Mirror(c, w, r) && token != E && token != S && Available(w, r, token)
    ensures MixDh(c, w, token).outcome == Ok(()) && MixDh(c, r, token).outcome == Ok(())
    ensures var w1 := MixDh(c, w, token).state; var r1 := MixDh(c, r, token).state;
            Mirror(c, w1, r1) && KeysAfter(w, r, token, w1, r1)
            && w1.ss.cipher.n == 0 && w1.ss.cipher.key.Some?
  {
    var (wl, wr) := DhInputs(w, token);
    var (rl, rr) := DhInputs(r, token);
    assert wl.Some? && wr.Some? && rl.Some? && rr.Some?;
    assert wr.value == c.publicKey(rl.value.privateKey);
    assert rr.value == c.publicKey(wl.value.privateKey);
    assert c.dh(wl.value.privateKey, wr.value) == c.dh(rl.value.privateKey, rr.value);
  }

  lemma TokenMirrors(c: Suite, w: Handshake, r: Handshake, token: Token, ephemeral: KeyPair, rest: Bytes)
    requires Lawful(c) && Mirror(c, w, r) && Available(w, r, token) && Genuine(c, ephemeral)
    requires w.ss.cipher.n < NONCE_MAX
    ensures WriteToken(c, w, token, ephemeral).outcome.Ok?
    ensures var w1 := WriteToken(c, w, token, ephemeral);
            var r1 := ReadToken(c, r, token, w1.outcome.value + rest);
            r1.outcome == Ok(rest) && Mirror(c, w1.state, r1.state)
            && KeysAfter(w, r, token, w1.state, r1.state)
            && w1.state.ss.cipher.n <= w.ss.cipher.n + 1
            && (w1.state.ss.cipher.key.Some? <==> w.ss.cipher.key.Some? || (token != E && token != S))
            && |w1.outcome.value| == TokenLength(w.ss, token)
  {
    var w1 := WriteToken(c, w, token, ephemeral);
    match token {
      case E =>
        var buf := w1.outcome.value + rest;
        assert |w1.outcome.value| == DH_LEN;
        assert buf[..DH_LEN] == w1.outcome.value && buf[DH_LEN..] == rest;
      case S =>
        assert |w.s.publicRaw| == DH_LEN;
        SealThenOpen(c, w.ss, w.s.publicRaw);
        var ct := w1.outcome.value;
        assert (ct + rest)[..|ct|] == ct && (ct + rest)[|ct|..] == rest;
      case _ =>
        DhTokenMirrors(c, w, r, token);
        assert [] + rest == rest;
    }
  }

  // ----- A whole message -----

  /** Whether `w` can write all of `tokens` for `r` with the keys at hand (`we` and `rrs` say
      whether the ephemeral and the static key have been sent). */
  predicate Runnable(w: Handshake, r: Handshake, we: bool, rrs: bool, tokens: seq<Token>)
    decreases |tokens|
  {
    tokens == [] ||
    ((match tokens[0]
      case E => true
      case S => true
      case EE => we && r.e.Some?
      case SS => w.rs.Some? && rrs
      case ES => if w.initiator then we && w.rs.Some? else r.e.Some? && rrs
      case SE => if w.initiator then r.e.Some? && rrs else we && w.rs.Some?)
     && Runnable(w, r, we || tokens[0] == E, rrs || tokens[0] == S, tokens[1..]))
  }

  /** Whether the cipher is keyed once `tokens` are processed. */
  predicate Keyed(keyed: bool, tokens: seq<Token>)
    decreases |tokens|
  {
    if tokens == [] then keyed else Keyed(keyed || (tokens[0] != E && tokens[0] != S), tokens[1..])
  }

  function MessageLength(keyed: bool, tokens: seq<Token>): nat
    decreases |tokens|
  {
    var tag := if keyed then TAG_LEN else 0;
    if tokens == [] then tag
    else
      (if tokens[0] == E then DH_LEN else if tokens[0] == S then DH_LEN + tag else 0)
      + MessageLength(keyed || (tokens[0] != E && tokens[0] != S), tokens[1..])
  }

  lemma {:induction false} RunnableMoves(w: Handshake, r: Handshake, w1: Handshake, r1: Handshake, we: bool,
                                         rrs: bool, tokens: seq<Token>)
    requires w1.initiator == w.initiator && w1.rs == w.rs && r1.e == r.e
    ensures Runnable(w, r, we, rrs, tokens) == Runnable(w1, r1, we, rrs, tokens)
    decreases |tokens|
  {
    if tokens != [] {
      RunnableMoves(w, r, w1, r1, we || tokens[0] == E, rrs || tokens[0] == S, tokens[1..]);
    }
  }

  /** The writer's accumulator is a prefix of what it returns and changes nothing else. */
  lemma {:induction false} WrittenIsPrefix(c: Suite, w: Handshake, tokens: seq<Token>, ephemeral: KeyPair,
                                           written: Bytes)
    ensures var full := WriteTokens(c, w, tokens, ephemeral, written);
            var own := WriteTokens(c, w, tokens, ephemeral, []);
            full.state == own.state
            && full.outcome == if own.outcome.Ok? then Ok(written + own.outcome.value) else own.outcome
    decreases |tokens|
  {
    if tokens == [] {
      assert written + [] == written;
    } else {
      var t := WriteToken(c, w, tokens[0], ephemeral);
      if t.outcome.Ok? {
        var part := t.outcome.value;
        WrittenIsPrefix(c, t.state, tokens[1..], ephemeral, written + part);
        WrittenIsPrefix(c, t.state, tokens[1..], ephemeral, [] + part);
        var own := WriteTokens(c, t.state, tokens[1..], ephemeral, []);
        if own.outcome.Ok? {
          assert written + ([] + part + own.outcome.value) == written + part + own.outcome.value;
        }
      }
    }
  }

  /** What relaying a run of tokens, followed by `rest`, achieves. */
  ghost predicate TokensRelayed(w: Handshake, r: Handshake, tokens: seq<Token>, rest: Bytes,
                                w1: Stepped<Handshake, Bytes>, r1: Stepped<Handshake, Bytes>)
  {
    && w1.outcome.Ok? && r1.outcome == Ok(rest)
    && (w1.state.e.Some? <==> w.e.Some? || E in tokens) && r1.state.e == r.e
    && (r1.state.rs.Some? <==> r.rs.Some? || S in tokens) && w1.state.rs == w.rs
    && w1.state.s == w.s && r1.state.s == r.s
    && w1.state.initiator == w.initiator && w1.state.step == w.step
    && w1.state.ss.cipher.n <= w.ss.cipher.n + |tokens|
    && (w1.state.ss.cipher.key.Some? <==> Keyed(w.ss.cipher.key.Some?, tokens))
    && |w1.outcome.value| + Overhead(w1.state.ss) == MessageLength(w.ss.cipher.key.Some?, tokens)
  }

  /** Any pattern whose keys are at hand: reading what was written consumes exactly that. */
  lemma {:induction false} TokensMirror(c: Suite, w: Handshake, r: Handshake, tokens: seq<Token>,
                                        ephemeral: KeyPair, rest: Bytes)
    requires Lawful(c) && Mirror(c, w, r) && Genuine(c, ephemeral)
    requires Runnable(w, r, w.e.Some?, r.rs.Some?, tokens)
    requires w.ss.cipher.n + |tokens| < NONCE_MAX
    ensures WriteTokens(c, w, tokens, ephemeral, []).outcome.Ok?
    ensures var w1 := WriteTokens(c, w, tokens, ephemeral, []);
            var r1 := ReadTokens(c, r, tokens, w1.outcome.value + rest);
            Mirror(c, w1.state, r1.state) && TokensRelayed(w, r, tokens, rest, w1, r1)
    decreases |tokens|
  {
    hide WriteToken, ReadToken, Mirror, Runnable, Lawful, Genuine;
    if tokens == [] {
      assert [] + rest == rest;
    } else {
      TailMirrors(c, w, r, tokens, ephemeral, rest);
      WriteTokensCons(c, w, tokens, ephemeral);
      var part := WriteToken(c, w, tokens[0], ephemeral).outcome.value;
      var m := WriteTokens(c, WriteToken(c, w, tokens[0], ephemeral).state, tokens[1..], ephemeral, []).outcome.value;
      assert part + m + rest == part + (m + rest);
    }
  }

  /** The induction step: the tokens after the first, from the states the first leaves. */
  lemma {:induction false} TailMirrors(c: Suite, w: Handshake, r: Handshake, tokens: seq<Token>, ephemeral: KeyPair,
                                       rest: Bytes)
    requires Lawful(c) && Mirror(c, w, r) && Genuine(c, ephemeral)
    requires Runnable(w, r, w.e.Some?, r.rs.Some?, tokens)
    requires tokens != [] && w.ss.cipher.n + |tokens| < NONCE_MAX
    ensures var w0 := WriteToken(c, w, tokens[0], ephemeral);
            var w1 := WriteTokens(c, w0.state, tokens[1..], ephemeral, []);
            w0.outcome.Ok? && w1.outcome.Ok?
            && (var r0 := ReadToken(c, r, tokens[0], w0.outcome.value + (w1.outcome.value + rest));
                var r1 := ReadTokens(c, r0.state, tokens[1..], w1.outcome.value + rest);
                r0.outcome == Ok(w1.outcome.value + rest)
                && Mirror(c, w1.state, r1.state)
                && TokensRelayed(w, r, tokens, rest, Prepend(w0.outcome.value, w1), r1))
    decreases |tokens|, 0
  {
    var w0 := WriteToken(c, w, tokens[0], ephemeral);
    var w1 := WriteTokens(c, w0.state, tokens[1..], ephemeral, []);
    var m := if w1.outcome.Ok? then w1.outcome.value else [];
    TokenMirrors(c, w, r, tokens[0], ephemeral, m + rest);
    var r0 := ReadToken(c, r, tokens[0], w0.outcome.value + (m + rest)).state;
    RunnableMoves(w, r, w0.state, r0, w0.state.e.Some?, r0.rs.Some?, tokens[1..]);
    TokensMirror(c, w0.state, r0, tokens[1..], ephemeral, rest);
    RelayedCompose(w, r, w0, r0, tokens, rest, w1, ReadTokens(c, r0, tokens[1..], m + rest));
  }

  function Prepend(part: Bytes, w: Stepped<Handshake, Bytes>): Stepped<Handshake, Bytes> {
    Stepped(w.state, if w.outcome.Ok? then Ok(part + w.outcome.value) else w.outcome)
  }

  lemma WriteTokensCons(c: Suite, w: Handshake, tokens: seq<Token>, ephemeral: KeyPair)
    requires tokens != [] && WriteToken(c, w, tokens[0], ephemeral).outcome.Ok?
    ensures var t := WriteToken(c, w, tokens[0], ephemeral);
            WriteTokens(c, w, tokens, ephemeral, [])
            == Prepend(t.outcome.value, WriteTokens(c, t.state, tokens[1..], ephemeral, []))
  {
    var t := WriteToken(c, w, tokens[0], ephemeral);
    assert [] + t.outcome.value == t.outcome.value;
    WrittenIsPrefix(c, t.state, tokens[1..], ephemeral, t.outcome.value);
  }

  lemma RelayedCompose(w: Handshake, r: Handshake, t: Stepped<Handshake, Bytes>, r0: Handshake, tokens: seq<Token>,
                       rest: Bytes, tail: Stepped<Handshake, Bytes>, r1: Stepped<Handshake, Bytes>)
    requires tokens != [] && KeysAfter(w, r, tokens[0], t.state, r0) && t.outcome.Ok?
    requires t.state.ss.cipher.n <= w.ss.cipher.n + 1
    requires t.state.ss.cipher.key.Some? <==> w.ss.cipher.key.Some? || (tokens[0] != E && tokens[0] != S)
    requires |t.outcome.value| == TokenLength(w.ss, tokens[0])
    requires TokensRelayed(t.state, r0, tokens[1..], rest, tail, r1)
    ensures TokensRelayed(w, r, tokens, rest, Prepend(t.outcome.value, tail), r1)
  {
    assert forall x :: x in tokens <==> x == tokens[0] || x in tokens[1..];
  }

  /** The transports of two ends of one session: what one sends with, the other receives with. */
  predicate Paired(a: Transport, b: Transport) {
    a.send == b.recv && a.recv == b.send && a.handshakeHash == b.handshakeHash
  }

  /** What one side can tell about the other after a relayed message: mirrored again, or both
      finished with paired transports that name each other's static key. */
  ghost predicate Agreed(c: Suite, w: Handshake, r: Handshake, w1: Stepped<Handshake, Flight>, r1: Stepped<Handshake,
                         Flight>) {
    && w1.outcome.Ok? && r1.outcome.Ok?
    && if w.step + 1 < |XX| then
         && w1.outcome.value.transport.None? && r1.outcome.value.transport.None?
         && w1.state.step == w.step + 1
         && Mirror(c, w1.state, r1.state)
       else
         && w1.outcome.value.transport.Some? && r1.outcome.value.transport.Some?
         && Paired(w1.outcome.value.transport.value, r1.outcome.value.transport.value)
         && w1.outcome.value.transport.value.remoteStatic == r.s.publicRaw
         && r1.outcome.value.transport.value.remoteStatic == w.s.publicRaw
  }

  lemma AdvanceAgrees(c: Suite, w: Handshake, r: Handshake, message: Bytes, payload: Bytes)
    requires Mirror(c, w, r) && w.step < |XX|
    requires w.step + 1 == |XX| ==> w.rs.Some? && r.rs.Some?
    ensures Agreed(c, w, r, Advance(c, w, message), Advance(c, r, payload))
  {
  }

  /** Relaying one message between mirrored ends that are not yet done: the writer never
      throws, the reader accepts exactly the messages within the limit, and then it recovers
      the payload and the ends agree. */
  lemma MessageMirrors(c: Suite, w: Handshake, r: Handshake, payload: Bytes, ephemeral: KeyPair)
    requires Lawful(c) && Mirror(c, w, r) && Genuine(c, ephemeral)
    requires w.step < |XX| && Runnable(w, r, w.e.Some?, r.rs.Some?, XX[w.step])
    requires w.step + 1 == |XX| ==> w.rs.Some? && (r.rs.Some? || S in XX[w.step])
    requires w.ss.cipher.n + |XX[w.step]| < NONCE_MAX
    ensures WriteMessage(c, w, payload, ephemeral).outcome.Ok?
    ensures var w1 := WriteMessage(c, w, payload, ephemeral);
            var m := w1.outcome.value.bytes;
            var r1 := ReadMessage(c, r, m);
            |m| == |payload| + MessageLength(w.ss.cipher.key.Some?, XX[w.step])
            && (|m| > MAX_MESSAGE ==> r1.outcome == Err(MessageTooLarge))
            && (|m| <= MAX_MESSAGE ==>
                  r1.outcome.Ok? && r1.outcome.value.bytes == payload
                  && Agreed(c, w, r, w1, r1) && KeysAfterMessage(w, r, w1.state, r1.state))
  {
    hide Lawful, Genuine, ReadTokens, WriteTokens, EncryptAndHash, MixHash;
    var tokens := XX[w.step];
    var t := WriteTokens(c, w, tokens, ephemeral, []);
    TokensMirror(c, w, r, tokens, ephemeral, []);
    SealThenOpen(c, t.state.ss, payload);
    var p := EncryptAndHash(c, t.state.ss, payload);
    var sealed := p.outcome.value;
    TokensMirror(c, w, r, tokens, ephemeral, sealed);
    var r0 := ReadTokens(c, r, tokens, t.outcome.value + sealed).state;
    AdvanceAgrees(c, t.state.(ss := p.state), r0.(ss := p.state), t.outcome.value + sealed, payload);
  }

  /** The keys the ends hold for the next message. */
  ghost predicate KeysAfterMessage(w: Handshake, r: Handshake, w1: Handshake, r1: Handshake)
    requires w.step < |XX|
  {
    w.step + 1 < |XX| ==>
      && w1.initiator == w.initiator
      && w1.s == w.s && r1.s == r.s
      && (w1.e.Some? <==> w.e.Some? || E in XX[w.step]) && r1.e == r.e
      && (r1.rs.Some? <==> r.rs.Some? || S in XX[w.step]) && w1.rs == w.rs
      && w1.ss.cipher.n <= w.ss.cipher.n + |XX[w.step]| + 1
      && (w1.ss.cipher.key.Some? <==> Keyed(w.ss.cipher.key.Some?, XX[w.step]))
  }

  // ----- The three messages of XX -----

  /** Everything the two ends hold once the three messages have been relayed unaltered. */
  datatype Relay = Relay(
    first: Stepped<Handshake, Flight>, firstRead: Stepped<Handshake, Flight>,
    second: Stepped<Handshake, Flight>, secondRead: Stepped<Handshake, Flight>,
    third: Stepped<Handshake, Flight>, thirdRead: Stepped<Handshake, Flight>)

  function Message(w: Stepped<Handshake, Flight>): Bytes {
    if w.outcome.Ok? then w.outcome.value.bytes else []
  }

  /** The initiator and the responder run XX over a network that relays every message. */
  function RunXX(c: Suite, sI: KeyPair, sR: KeyPair, eI: KeyPair, eR: KeyPair, prologue: Bytes,
                 p1: Bytes, p2: Bytes, p3: Bytes): Relay {
    var first := WriteMessage(c, Start(c, true, sI, prologue), p1, eI);
    var firstRead := ReadMessage(c, Start(c, false, sR, prologue), Message(first));
    var second := WriteMessage(c, firstRead.state, p2, eR);
    var secondRead := ReadMessage(c, first.state, Message(second));
    var third := WriteMessage(c, secondRead.state, p3, eI);
    var thirdRead := ReadMessage(c, second.state, Message(third));
    Relay(first, firstRead, second, secondRead, third, thirdRead)
  }

  predicate PayloadsFit(p1: Bytes, p2: Bytes, p3: Bytes) {
    && 32 + |p1| <= 4096
    && 32 + (32 + 16) + |p2| + 16 <= 4096
    && (32 + 16) + |p3| + 16 <= 4096
  }

  lemma FirstMessage(c: Suite, sI: KeyPair, sR: KeyPair, eI: KeyPair, prologue: Bytes, p1: Bytes)
    requires Lawful(c) && Genuine(c, sI) && Genuine(c, sR) && Genuine(c, eI)
    ensures var i := Start(c, true, sI, prologue); var r := Start(c, false, sR, prologue);
            var w := WriteMessage(c, i, p1, eI); var m := ReadMessage(c, r, Message(w));
            w.outcome.Ok?
            && (m.outcome.Ok? <==> DH_LEN + |p1| <= MAX_MESSAGE)
            && (m.outcome.Ok? ==> m.outcome.value == Flight(p1, None) && Agreed(c, i, r, w, m)
                                  && KeysAfterMessage(i, r, w.state, m.state))
  {
    var i := Start(c, true, sI, prologue);
    var r := Start(c, false, sR, prologue);
    assert i.ss.cipher == Cipher(None, 0);
    assert XX[0][1..] == [];
    MessageMirrors(c, i, r, p1, eI);
  }

  /** The responder answers from the state the first message leaves, then the initiator. */
  lemma SecondMessage(c: Suite, w: Handshake, r: Handshake, eR: KeyPair, p2: Bytes)
    requires Lawful(c) && Genuine(c, eR) && Mirror(c, w, r) && w.step == 1 && !w.initiator
    requires w.e.None? && r.e.Some? && r.rs.None? && w.rs.None?
    requires w.ss.cipher.n <= 2 && w.ss.cipher.key.None?
    ensures var w1 := WriteMessage(c, w, p2, eR); var m := ReadMessage(c, r, Message(w1));
            w1.outcome.Ok?
            && (m.outcome.Ok? <==> 2 * DH_LEN + 2 * TAG_LEN + |p2| <= MAX_MESSAGE)
            && (m.outcome.Ok? ==> m.outcome.value == Flight(p2, None) && Agreed(c, w, r, w1, m)
                                  && KeysAfterMessage(w, r, w1.state, m.state))
  {
    var t := XX[1];
    assert t[1..] == [EE, S, ES] && t[1..][1..] == [S, ES] && t[1..][1..][1..] == [ES] && t[1..][1..][1..][1..] == [];
    assert Runnable(w, r, true, true, [ES]);
    assert Runnable(w, r, true, false, [S, ES]);
    assert Runnable(w, r, true, false, [EE, S, ES]);
    assert MessageLength(true, [ES]) == TAG_LEN;
    assert MessageLength(true, [S, ES]) == DH_LEN + 2 * TAG_LEN;
    assert MessageLength(false, [EE, S, ES]) == DH_LEN + 2 * TAG_LEN;
    MessageMirrors(c, w, r, p2, eR);
  }

  predicate KeyedTransport(f: Stepped<Handshake, Flight>) {
    f.outcome.Ok? && f.outcome.value.transport.Some?
    && f.outcome.value.transport.value.send.key.Some? && f.outcome.value.transport.value.recv.key.Some?
  }

  lemma ThirdMessage(c: Suite, w: Handshake, r: Handshake, e: KeyPair, p3: Bytes)
    requires Lawful(c) && Genuine(c, e) && Mirror(c, w, r) && w.step == 2 && w.initiator
    requires w.e.Some? && r.e.Some? && w.rs.Some?
    requires w.ss.cipher.n <= 7 && w.ss.cipher.key.Some?
    ensures var w1 := WriteMessage(c, w, p3, e); var m := ReadMessage(c, r, Message(w1));
            w1.outcome.Ok?
            && (m.outcome.Ok? <==> DH_LEN + 2 * TAG_LEN + |p3| <= MAX_MESSAGE)
            && (m.outcome.Ok? ==> m.outcome.value.bytes == p3 && Agreed(c, w, r, w1, m)
                                  && KeyedTransport(w1) && KeyedTransport(m))
  {
    var t := XX[2];
    assert t[1..] == [SE] && t[1..][1..] == [];
    assert Runnable(w, r, true, true, [SE]);
    assert MessageLength(true, [SE]) == TAG_LEN;
    MessageMirrors(c, w, r, p3, e);
  }

  /** How far the relay gets, and that the ends mirror after two messages that fit. */
  lemma FirstTwoMessages(c: Suite, sI: KeyPair, sR: KeyPair, eI: KeyPair, eR: KeyPair, prologue: Bytes,
                         p1: Bytes, p2: Bytes, p3: Bytes)
    requires Lawful(c) && Genuine(c, sI) && Genuine(c, sR) && Genuine(c, eI) && Genuine(c, eR)
    ensures var x := RunXX(c, sI, sR, eI, eR, prologue, p1, p2, p3);
            && (x.firstRead.outcome.Ok? <==> DH_LEN + |p1| <= MAX_MESSAGE)
            && (x.firstRead.outcome.Ok? ==>
                  && x.first.outcome.Ok? && x.firstRead.outcome.value.bytes == p1
                  && x.second.outcome.Ok?
                  && (x.secondRead.outcome.Ok? <==> 2 * DH_LEN + 2 * TAG_LEN + |p2| <= MAX_MESSAGE))
            && (x.firstRead.outcome.Ok? && x.secondRead.outcome.Ok? ==>
                  && x.secondRead.outcome.value.bytes == p2
                  && ReadyForThird(c, x.secondRead.state, x.second.state, sI, sR))
  {
    var x := RunXX(c, sI, sR, eI, eR, prologue, p1, p2, p3);
    FirstMessage(c, sI, sR, eI, prologue, p1);
    if x.firstRead.outcome.Ok? {
      SecondMessage(c, x.firstRead.state, x.first.state, eR, p2);
    }
  }

  ghost predicate ReadyForThird(c: Suite, i: Handshake, r: Handshake, sI: KeyPair, sR: KeyPair) {
    && Mirror(c, i, r) && i.step == 2 && i.initiator
    && i.e.Some? && r.e.Some? && i.rs.Some?
    && i.ss.cipher.n <= 7 && i.ss.cipher.key.Some?
    && i.s == sI && r.s == sR
  }

  /** Noise XX agreement. For all key pairs, ephemerals, prologues and payloads: the responder
      finishes exactly when every payload fits the message limit; and then both ends recover
      the payloads and hold paired transports naming each other's static key. */
  lemma XxAgreement(c: Suite, sI: KeyPair, sR: KeyPair, eI: KeyPair, eR: KeyPair, prologue: Bytes,
                    p1: Bytes, p2: Bytes, p3: Bytes)
    requires Lawful(c) && Genuine(c, sI) && Genuine(c, sR) && Genuine(c, eI) && Genuine(c, eR)
    ensures var x := RunXX(c, sI, sR, eI, eR, prologue, p1, p2, p3);
            (PayloadsFit(p1, p2, p3) <==>
             x.firstRead.outcome.Ok? && x.secondRead.outcome.Ok? && x.thirdRead.outcome.Ok?)
    ensures PayloadsFit(p1, p2, p3) ==>
              var x := RunXX(c, sI, sR, eI, eR, prologue, p1, p2, p3);
              && x.first.outcome.Ok? && x.second.outcome.Ok? && x.third.outcome.Ok?
              && x.firstRead.outcome.value.bytes == p1
              && x.secondRead.outcome.value.bytes == p2
              && x.thirdRead.outcome.value.bytes == p3
              && x.third.outcome.value.transport.Some? && x.thirdRead.outcome.value.transport.Some?
              && var i := x.third.outcome.value.transport.value;
                 var r := x.thirdRead.outcome.value.transport.value;
                 && Paired(i, r)
                 && i.remoteStatic == sR.publicRaw && r.remoteStatic == sI.publicRaw
                 && i.send.key.Some? && i.recv.key.Some?
  {
    var x := RunXX(c, sI, sR, eI, eR, prologue, p1, p2, p3);
    FirstTwoMessages(c, sI, sR, eI, eR, prologue, p1, p2, p3);
    if x.firstRead.outcome.Ok? && x.secondRead.outcome.Ok? {
      ThirdMessage(c, x.secondRead.state, x.second.state, eI, p3);
    }
  }
}
