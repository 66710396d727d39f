/** The final handshake hash names the session (ts/net/noise/handshake-state.ts:33): two ends
    that finish with the same hash exchanged the same prologue and the same three messages. */
module ChannelBinding {
  import opened Wrappers
  import opened ByteStrings
  import opened Crypto
  import opened SymmetricStates
  import opened HandshakeStates
  import NoiseAgreement

  // ----- Hash chains -----

  function Chain(c: Suite, h: Bytes, items: seq<Bytes>): Bytes
    decreases |items|
  {
    if items == [] then h else Chain(c, c.hash(h + items[0]), items[1..])
  }

  /** The strings hashed along a chain. */
  function Hashed(c: Suite, h: Bytes, items: seq<Bytes>): set<Bytes>
    decreases |items|
  {
    if items == [] then {} else {h + items[0]} + Hashed(c, c.hash(h + items[0]), items[1..])
  }

  ghost predicate NoCollision(c: Suite, xs: set<Bytes>, ys: set<Bytes>) {
    forall x, y :: x in xs && y in ys && c.hash(x) == c.hash(y) ==> x == y
  }

  lemma {:induction false} ChainBinds(c: Suite, h: Bytes, items: seq<Bytes>, h': Bytes, items': seq<Bytes>)
    requires LengthsAreFixed(c) && |h| == |h'| && |items| == |items'|
    requires Chain(c, h, items) == Chain(c, h', items')
    requires NoCollision(c, Hashed(c, h, items), Hashed(c, h', items'))
    ensures h == h' && items == items'
    decreases |items|
  {
    if items != [] {
      var x, x' := h + items[0], h' + items'[0];
      ChainBinds(c, c.hash(x), items[1..], c.hash(x'), items'[1..]);
      assert x == x';
      assert h == x[..|h|] && h' == x'[..|h|];
      assert items[0] == x[|h|..] && items'[0] == x'[|h|..];
      assert items == [items[0]] + items[1..] && items' == [items'[0]] + items'[1..];
    }
  }

  lemma {:induction false} ChainConcat(c: Suite, h: Bytes, a: seq<Bytes>, b: seq<Bytes>)
    ensures Chain(c, h, a + b) == Chain(c, Chain(c, h, a), b)
    decreases |a|
  {
    if a == [] {
      assert a + b == b;
    } else {
      assert (a + b)[1..] == a[1..] + b;
      ChainConcat(c, c.hash(h + a[0]), a[1..], b);
    }
  }

  // ----- The pieces of a message -----

  function Concat(items: seq<Bytes>): Bytes {
    if items == [] then [] else items[0] + Concat(items[1..])
  }

  function PieceLength(keyed: bool, token: Token): nat {
    if token == E then DH_LEN else if keyed then DH_LEN + TAG_LEN else DH_LEN
  }

  /** A message cut where its pattern puts the keys; the last piece is the payload. Pieces are
      what both sides fold into the transcript hash. */
  function Pieces(keyed: bool, tokens: seq<Token>, message: Bytes): seq<Bytes>
    decreases |tokens|
  {
    if tokens == [] then [message]
    else if tokens[0] == E || tokens[0] == S then
      var n := PieceLength(keyed, tokens[0]);
      if |message| < n then [message] else [message[..n]] + Pieces(keyed, tokens[1..], message[n..])
    else Pieces(true, tokens[1..], message)
  }

  lemma {:induction false} PiecesRejoin(keyed: bool, tokens: seq<Token>, message: Bytes)
    ensures Concat(Pieces(keyed, tokens, message)) == message
    decreases |tokens|
  {
    if tokens == [] {
      assert [message][1..] == [];
      assert Concat([message]) == message + [];
    } else if tokens[0] == E || tokens[0] == S {
      var n := PieceLength(keyed, tokens[0]);
      if |message| >= n {
        var tail := Pieces(keyed, tokens[1..], message[n..]);
        PiecesRejoin(keyed, tokens[1..], message[n..]);
        assert ([message[..n]] + tail)[1..] == tail;
      } else {
        assert [message][1..] == [];
        assert Concat([message]) == message + [];
      }
    } else {
      PiecesRejoin(true, tokens[1..], message);
    }
  }

  /** What a side that processed `message` has done to its transcript. */
  ghost predicate Absorbed(c: Suite, before: Handshake, after: Handshake, tokens: seq<Token>, message: Bytes) {
    && after.ss.h == Chain(c, before.ss.h, Pieces(before.ss.cipher.key.Some?, tokens, message))
    && |Pieces(before.ss.cipher.key.Some?, tokens, message)| == 1 + Keys(tokens)
    && after.ss.cipher.key.Some? == NoiseAgreement.Keyed(before.ss.cipher.key.Some?, tokens)
    && after.s == before.s
  }

  function Keys(tokens: seq<Token>): nat {
    if tokens == [] then 0 else (if tokens[0] == E || tokens[0] == S then 1 else 0) + Keys(tokens[1..])
  }

  lemma PayloadAbsorbed(c: Suite, hs: Handshake, ss: Symmetric, ct: Bytes)
    requires ss == MixHash(c, hs.ss.(cipher := ss.cipher), ct) && ss.cipher.key == hs.ss.cipher.key
    ensures Absorbed(c, hs, hs.(ss := ss), [], ct)
  {
    assert [ct][1..] == [];
    assert Chain(c, hs.ss.h, [ct]) == Chain(c, c.hash(hs.ss.h + ct), [ct][1..]);
  }

  /** One token, then the rest: the induction step shared by writing and reading. */
  lemma AbsorbedCons(c: Suite, hs: Handshake, mid: Handshake, after: Handshake, tokens: seq<Token>, part: Bytes,
                     rest: Bytes)
    requires tokens != [] && Absorbed(c, mid, after, tokens[1..], rest) && mid.s == hs.s
    requires tokens[0] == E || tokens[0] == S ==>
               && |part| == PieceLength(hs.ss.cipher.key.Some?, tokens[0])
               && mid.ss.h == c.hash(hs.ss.h + part) && mid.ss.cipher.key.Some? == hs.ss.cipher.key.Some?
    requires tokens[0] != E && tokens[0] != S ==> part == [] && mid.ss.h == hs.ss.h && mid.ss.cipher.key.Some?
    ensures Absorbed(c, hs, after, tokens, part + rest)
  {
    var keyed := hs.ss.cipher.key.Some?;
    if tokens[0] == E || tokens[0] == S {
      assert (part + rest)[..|part|] == part && (part + rest)[|part|..] == rest;
      var tail := Pieces(keyed, tokens[1..], rest);
      assert ([part] + tail)[1..] == tail;
    } else {
      assert part + rest == rest;
    }
  }

  /** What a written token adds to the message is what it adds to the transcript. */
  lemma WrittenTokenAbsorbs(c: Suite, hs: Handshake, token: Token, ephemeral: KeyPair)
    requires LengthsAreFixed(c) && Genuine(c, ephemeral) && Genuine(c, hs.s)
    requires WriteToken(c, hs, token, ephemeral).outcome.Ok?
    ensures var (mid, part) := (WriteToken(c, hs, token, ephemeral).state,
                                WriteToken(c, hs, token, ephemeral).outcome.value);
            && mid.s == hs.s
            && (token == E || token == S ==>
                  && |part| == PieceLength(hs.ss.cipher.key.Some?, token)
                  && mid.ss.h == c.hash(hs.ss.h + part) && mid.ss.cipher.key.Some? == hs.ss.cipher.key.Some?)
            && (token != E && token != S ==> part == [] && mid.ss.h == hs.ss.h && mid.ss.cipher.key.Some?)
  {
  }

  lemma WrittenPayloadAbsorbs(c: Suite, hs: Handshake, payload: Bytes)
    requires EncryptAndHash(c, hs.ss, payload).outcome.Ok?
    ensures var p := EncryptAndHash(c, hs.ss, payload);
            Absorbed(c, hs, hs.(ss := p.state), [], p.outcome.value)
  {
    var p := EncryptAndHash(c, hs.ss, payload);
    PayloadAbsorbed(c, hs, p.state, p.outcome.value);
  }

  lemma {:induction false} WritingAbsorbs(c: Suite, hs: Handshake, tokens: seq<Token>, ephemeral: KeyPair,
                                          payload: Bytes)
    requires LengthsAreFixed(c) && Genuine(c, ephemeral) && Genuine(c, hs.s)
    requires WriteTokens(c, hs, tokens, ephemeral, []).outcome.Ok?
    requires EncryptAndHash(c, WriteTokens(c, hs, tokens, ephemeral, []).state.ss, payload).outcome.Ok?
    ensures var t := WriteTokens(c, hs, tokens, ephemeral, []);
            var p := EncryptAndHash(c, t.state.ss, payload);
            Absorbed(c, hs, t.state.(ss := p.state), tokens, t.outcome.value + p.outcome.value)
    decreases |tokens|
  {
    hide WriteToken, EncryptAndHash, LengthsAreFixed, Absorbed, Genuine;
    var t := WriteTokens(c, hs, tokens, ephemeral, []);
    var p := EncryptAndHash(c, t.state.ss, payload);
    if tokens == [] {
      assert [] + p.outcome.value == p.outcome.value;
      WrittenPayloadAbsorbs(c, hs, payload);
    } else {
      var w := WriteToken(c, hs, tokens[0], ephemeral);
      NoiseAgreement.WrittenIsPrefix(c, w.state, tokens[1..], ephemeral, [] + w.outcome.value);
      WrittenTokenAbsorbs(c, hs, tokens[0], ephemeral);
      WritingAbsorbs(c, w.state, tokens[1..], ephemeral, payload);
      var rest := WriteTokens(c, w.state, tokens[1..], ephemeral, []).outcome.value + p.outcome.value;
      AbsorbedCons(c, hs, w.state, t.state.(ss := p.state), tokens, w.outcome.value, rest);
      assert t.outcome.value + p.outcome.value == w.outcome.value + rest;
    }
  }

  lemma {:induction false} ReadingAbsorbs(c: Suite, hs: Handshake, tokens: seq<Token>, buf: Bytes)
    requires ReadTokens(c, hs, tokens, buf).outcome.Ok?
    requires var t := ReadTokens(c, hs, tokens, buf); DecryptAndHash(c, t.state.ss, t.outcome.value).outcome.Ok?
    ensures var t := ReadTokens(c, hs, tokens, buf);
            var p := DecryptAndHash(c, t.state.ss, t.outcome.value);
            Absorbed(c, hs, t.state.(ss := p.state), tokens, buf)
    decreases |tokens|
  {
    var t := ReadTokens(c, hs, tokens, buf);
    var p := DecryptAndHash(c, t.state.ss, t.outcome.value);
    if tokens == [] {
      PayloadAbsorbed(c, hs, p.state, buf);
    } else {
      var r := ReadToken(c, hs, tokens[0], buf);
      ReadingAbsorbs(c, r.state, tokens[1..], r.outcome.value);
      var n := |buf| - |r.outcome.value|;
      AbsorbedCons(c, hs, r.state, t.state.(ss := p.state), tokens, buf[..n], r.outcome.value);
      assert buf == buf[..n] + r.outcome.value;
    }
  }

  // ----- One end of a handshake -----

  /** A turn of one end: a message it writes, or one it is handed. */
  datatype Turn = Said(payload: Bytes, ephemeral: KeyPair) | Heard(message: Bytes)

  function Take(c: Suite, hs: Handshake, turn: Turn): Stepped<Handshake, Flight> {
    match turn
    case Said(payload, ephemeral) => WriteMessage(c, hs, payload, ephemeral)
    case Heard(message) => ReadMessage(c, hs, message)
  }

  /** The message of a turn that succeeded, as it stands on the wire. */
  function OnWire(turn: Turn, taken: Stepped<Handshake, Flight>): Bytes {
    match turn
    case Said(_, _) => NoiseAgreement.Message(taken)
    case Heard(message) => message
  }

  /** What a turn that succeeded leaves: one step on, the message absorbed, and the handshake
      hash handed out after the last message. */
  ghost predicate TurnTaken(c: Suite, hs: Handshake, message: Bytes, t: Stepped<Handshake, Flight>) {
    && t.outcome.Ok? && hs.step < |XX| && t.state.step == hs.step + 1
    && Absorbed(c, hs, t.state, XX[hs.step], message)
    && (t.outcome.value.transport.Some? <==> hs.step + 1 == |XX|)
    && (t.outcome.value.transport.Some? ==> t.outcome.value.transport.value.handshakeHash == t.state.ss.h)
  }

  lemma AdvanceTaken(c: Suite, hs: Handshake, hs1: Handshake, message: Bytes, bytes: Bytes)
    requires hs.step < |XX| && hs1.step == hs.step && Absorbed(c, hs, hs1, XX[hs.step], message)
    requires Advance(c, hs1, bytes).outcome.Ok?
    ensures TurnTaken(c, hs, message, Advance(c, hs1, bytes))
  {
  }

  lemma SayingAbsorbs(c: Suite, hs: Handshake, payload: Bytes, ephemeral: KeyPair)
    requires LengthsAreFixed(c) && Genuine(c, hs.s) && Genuine(c, ephemeral)
    requires WriteMessage(c, hs, payload, ephemeral).outcome.Ok?
    ensures var t := WriteMessage(c, hs, payload, ephemeral); TurnTaken(c, hs, NoiseAgreement.Message(t), t)
  {
    var t := WriteTokens(c, hs, XX[hs.step], ephemeral, []);
    var p := EncryptAndHash(c, t.state.ss, payload);
    WritingAbsorbs(c, hs, XX[hs.step], ephemeral, payload);
    TokensKeepStep(c, hs, XX[hs.step], ephemeral, []);
    var message := t.outcome.value + p.outcome.value;
    AdvanceTaken(c, hs, t.state.(ss := p.state), message, message);
  }

  lemma HearingAbsorbs(c: Suite, hs: Handshake, message: Bytes)
    requires ReadMessage(c, hs, message).outcome.Ok?
    ensures TurnTaken(c, hs, message, ReadMessage(c, hs, message))
  {
    var t := ReadTokens(c, hs, XX[hs.step], message);
    var p := DecryptAndHash(c, t.state.ss, t.outcome.value);
    ReadingAbsorbs(c, hs, XX[hs.step], message);
    TokensKeepStep(c, hs, XX[hs.step], KeyPair([], []), message);
    AdvanceTaken(c, hs, t.state.(ss := p.state), message, p.outcome.value);
  }

  lemma TurnAbsorbs(c: Suite, hs: Handshake, turn: Turn)
    requires LengthsAreFixed(c) && Genuine(c, hs.s) && (turn.Said? ==> Genuine(c, turn.ephemeral))
    requires Take(c, hs, turn).outcome.Ok?
    ensures TurnTaken(c, hs, OnWire(turn, Take(c, hs, turn)), Take(c, hs, turn))
  {
    match turn {
      case Said(payload, ephemeral) => SayingAbsorbs(c, hs, payload, ephemeral);
      case Heard(message) => HearingAbsorbs(c, hs, message);
    }
  }

  /** One end's whole handshake, whatever its role, keys, prologue and peer. */
  datatype End = End(initiator: bool, s: KeyPair, prologue: Bytes, turns: (Turn, Turn, Turn))

  function AfterOne(c: Suite, e: End): Stepped<Handshake, Flight> {
    Take(c, Start(c, e.initiator, e.s, e.prologue), e.turns.0)
  }

  function AfterTwo(c: Suite, e: End): Stepped<Handshake, Flight> {
    Take(c, AfterOne(c, e).state, e.turns.1)
  }

  function AfterThree(c: Suite, e: End): Stepped<Handshake, Flight> {
    Take(c, AfterTwo(c, e).state, e.turns.2)
  }

  ghost predicate GenuineKeys(c: Suite, e: End) {
    && Genuine(c, e.s)
    && (e.turns.0.Said? ==> Genuine(c, e.turns.0.ephemeral))
    && (e.turns.1.Said? ==> Genuine(c, e.turns.1.ephemeral))
    && (e.turns.2.Said? ==> Genuine(c, e.turns.2.ephemeral))
  }

  ghost predicate Finished(c: Suite, e: End) {
    AfterOne(c, e).outcome.Ok? && AfterTwo(c, e).outcome.Ok? && AfterThree(c, e).outcome.Ok?
  }

  function Messages(c: Suite, e: End): (Bytes, Bytes, Bytes) {
    (OnWire(e.turns.0, AfterOne(c, e)), OnWire(e.turns.1, AfterTwo(c, e)), OnWire(e.turns.2, AfterThree(c, e)))
  }

  /** Everything an end folds into its transcript, in order. */
  function Transcript(c: Suite, e: End): seq<Bytes> {
    var (m1, m2, m3) := Messages(c, e);
    [e.prologue] + (Pieces(false, XX[0], m1) + (Pieces(false, XX[1], m2) + Pieces(true, XX[2], m3)))
  }

  function InitialHash(c: Suite): Bytes {
    Named(c, PROTOCOL_NAME).h
  }

  lemma XxShape()
    ensures Keys(XX[0]) == 1 && Keys(XX[1]) == 2 && Keys(XX[2]) == 1
    ensures !NoiseAgreement.Keyed(false, XX[0]) && NoiseAgreement.Keyed(false, XX[1])
  {
    assert XX[0][1..] == [];
    assert XX[1][1..] == [EE, S, ES] && XX[1][1..][1..] == [S, ES] && [S, ES][1..] == [ES] && [ES][1..] == [];
    assert Keys([ES]) == 0 && Keys([S, ES]) == 1 && Keys([EE, S, ES]) == 1;
    assert NoiseAgreement.Keyed(true, [ES]) && NoiseAgreement.Keyed(true, [S, ES]);
    assert XX[2][1..] == [SE] && [SE][1..] == [];
  }

  /** The handshake hash an end hands out once its three turns succeeded. */
  function HandshakeHash(c: Suite, e: End): Option<Bytes> {
    var t := AfterThree(c, e);
    if t.outcome.Ok? && t.outcome.value.transport.Some? then Some(t.outcome.value.transport.value.handshakeHash)
    else None
  }

  ghost predicate InSevenPieces(c: Suite, e: End) {
    var (m1, m2, m3) := Messages(c, e);
    |Pieces(false, XX[0], m1)| == 2 && |Pieces(false, XX[1], m2)| == 3 && |Pieces(true, XX[2], m3)| == 2
  }

  lemma FinishedHash(c: Suite, e: End)
    requires LengthsAreFixed(c) && GenuineKeys(c, e)
    ensures Finished(c, e) ==>
              HandshakeHash(c, e) == Some(Chain(c, InitialHash(c), Transcript(c, e))) && InSevenPieces(c, e)
  {
    if Finished(c, e) {
      XxShape();
      var start := Start(c, e.initiator, e.s, e.prologue);
      TurnAbsorbs(c, start, e.turns.0);
      TurnAbsorbs(c, AfterOne(c, e).state, e.turns.1);
      TurnAbsorbs(c, AfterTwo(c, e).state, e.turns.2);
      var (m1, m2, m3) := Messages(c, e);
      var (a, b, d) := (Pieces(false, XX[0], m1), Pieces(false, XX[1], m2), Pieces(true, XX[2], m3));
      var h0 := InitialHash(c);
      ChainConcat(c, h0, [e.prologue], a + (b + d));
      ChainConcat(c, start.ss.h, a, b + d);
      ChainConcat(c, AfterOne(c, e).state.ss.h, b, d);
      assert [e.prologue][1..] == [];
      assert Chain(c, h0, [e.prologue]) == Chain(c, c.hash(h0 + e.prologue), []);
    }
  }

  /** The channel binding. Two ends of any roles, keys and prologues that both finish have the
      same handshake hash if and only if they had the same prologue and saw the same three
      messages, unless SHA-256 collides on strings these two runs hashed. */
  lemma HandshakeHashBinds(c: Suite, a: End, b: End)
    requires LengthsAreFixed(c) && GenuineKeys(c, a) && GenuineKeys(c, b)
    ensures Finished(c, a) && Finished(c, b) ==>
              HandshakeHash(c, a).Some? && HandshakeHash(c, b).Some?
    ensures Finished(c, a) && Finished(c, b)
            && NoCollision(c, Hashed(c, InitialHash(c), Transcript(c, a)),
                           Hashed(c, InitialHash(c), Transcript(c, b))) ==>
              (HandshakeHash(c, a) == HandshakeHash(c, b)
               <==> a.prologue == b.prologue && Messages(c, a) == Messages(c, b))
  {
    hide HandshakeHash, Finished, Messages, NoCollision, Hashed, InSevenPieces;
    FinishedHash(c, a);
    FinishedHash(c, b);
    if Finished(c, a) && Finished(c, b) {
      var (h0, t, u) := (InitialHash(c), Transcript(c, a), Transcript(c, b));
      TranscriptLength(c, a);
      TranscriptLength(c, b);
      if NoCollision(c, Hashed(c, h0, t), Hashed(c, h0, u)) && Chain(c, h0, t) == Chain(c, h0, u) {
        ChainBinds(c, h0, t, h0, u);
        TranscriptDetermines(c, a, b);
      }
    }
  }

  lemma TranscriptLength(c: Suite, e: End)
    requires InSevenPieces(c, e)
    ensures |Transcript(c, e)| == 8
  {
    hide Messages, Pieces;
  }

  lemma TranscriptDetermines(c: Suite, a: End, b: End)
    requires Transcript(c, a) == Transcript(c, b) && InSevenPieces(c, a) && InSevenPieces(c, b)
    ensures a.prologue == b.prologue && Messages(c, a) == Messages(c, b)
  {
    hide Messages, Pieces;
    var (a1, a2, a3) := Messages(c, a);
    var (b1, b2, b3) := Messages(c, b);
    var (t, u) := (Transcript(c, a), Transcript(c, b));
    assert t[0] == a.prologue && u[0] == b.prologue;
    assert t[1..3] == Pieces(false, XX[0], a1) && u[1..3] == Pieces(false, XX[0], b1);
    assert t[3..6] == Pieces(false, XX[1], a2) && u[3..6] == Pieces(false, XX[1], b2);
    assert t[6..8] == Pieces(true, XX[2], a3) && u[6..8] == Pieces(true, XX[2], b3);
    PiecesRejoin(false, XX[0], a1);
    PiecesRejoin(false, XX[0], b1);
    PiecesRejoin(false, XX[1], a2);
    PiecesRejoin(false, XX[1], b2);
    PiecesRejoin(true, XX[2], a3);
    PiecesRejoin(true, XX[2], b3);
  }
}
