/** ts/net/noise/handshake-state.ts: the Noise XX handshake, one message at a time. */
module HandshakeStates {
  import opened Wrappers
  import opened ByteStrings
  import opened Crypto
  import opened CipherStates
  import opened SymmetricStates

  const MAX_MESSAGE: nat := 4096

  datatype Token = E | S | EE | ES | SE | SS

  const XX: seq<seq<Token>> := [[E], [E, EE, S, ES], [S, SE]]

  /** "Noise_XX_25519_AESGCM_SHA256" in ASCII. */
  const PROTOCOL_NAME: Bytes := [
    78, 111, 105, 115, 101, 95, 88, 88, 95, 50, 53, 53, 49, 57, 95, 65,
    69, 83, 71, 67, 77, 95, 83, 72, 65, 50, 53, 54
  ]

  /** What a finished handshake hands to the session layer. */
  datatype Transport = Transport(send: Cipher, recv: Cipher, handshakeHash: Bytes, remoteStatic: Bytes)

  /** The value of a `HandshakeState` object. */
  datatype Handshake = Handshake(
    ss: Symmetric,
    initiator: bool,
    s: KeyPair,
    e: Option<KeyPair>,
    rs: Option<Bytes>,
    re: Option<Bytes>,
    step: nat
  )

  /** The bytes a call produces (a message written, or a payload read), and the transport
      keys when it was the last message. */
  datatype Flight = Flight(bytes: Bytes, transport: Option<Transport>)

  function Start(c: Suite, initiator: bool, s: KeyPair, prologue: Bytes): Handshake {
    Handshake(MixHash(c, Named(c, PROTOCOL_NAME), prologue), initiator, s, None, None, None, 0)
  }

  /** The scalar and the remote key a DH token combines, for the role of this side. */
  function DhInputs(hs: Handshake, token: Token): (Option<KeyPair>, Option<Bytes>) {
    match token
    case EE => (hs.e, hs.re)
    case SS => (Some(hs.s), hs.rs)
    case ES => if hs.initiator then (hs.e, hs.rs) else (Some(hs.s), hs.re)
    case SE => if hs.initiator then (Some(hs.s), hs.re) else (hs.e, hs.rs)
    case E => (None, None)
    case S => (None, None)
  }

  function MixDh(c: Suite, hs: Handshake, token: Token): Stepped<Handshake, ()> {
    var (local, remote) := DhInputs(hs, token);
    if local.None? || remote.None? then Stepped(hs, Err(MissingKey))
    else
      match c.dh(local.value.privateKey, remote.value)
      case None => Stepped(hs, Err(BadPublicKey))
      case Some(secret) => Stepped(hs.(ss := MixKey(c, hs.ss, secret)), Ok(()))
  }

  /** Writes one token, returning the bytes it adds. `ephemeral` is the key pair the random
      source (or the fixed test vector) supplies. */
  function WriteToken(c: Suite, hs: Handshake, token: Token, ephemeral: KeyPair): Stepped<Handshake, Bytes> {
    match token
    case E =>
      Stepped(hs.(e := Some(ephemeral), ss := MixHash(c, hs.ss, ephemeral.publicRaw)), Ok(ephemeral.publicRaw))
    case S =>
      var w := EncryptAndHash(c, hs.ss, hs.s.publicRaw);
      Stepped(hs.(ss := w.state), w.outcome)
    case _ =>
      var w := MixDh(c, hs, token);
      Stepped(w.state, if w.outcome.Ok? then Ok([]) else Err(w.outcome.error))
  }

  /** Reads one token off the front of `buf`, returning what is left. */
  function ReadToken(c: Suite, hs: Handshake, token: Token, buf: Bytes): Stepped<Handshake, Bytes> {
    match token
    case E =>
      if |buf| < DH_LEN then Stepped(hs, Err(ShortMessage))
      else
        var re := buf[..DH_LEN];
        Stepped(hs.(re := Some(re), ss := MixHash(c, hs.ss, re)), Ok(buf[DH_LEN..]))
    case S =>
      var len := if hs.ss.cipher.key.Some? then DH_LEN + TAG_LEN else DH_LEN;
      if |buf| < len then Stepped(hs, Err(ShortMessage))
      else
        var r := DecryptAndHash(c, hs.ss, buf[..len]);
        if r.outcome.Err? then Stepped(hs.(ss := r.state), Err(r.outcome.error))
        else Stepped(hs.(ss := r.state, rs := Some(r.outcome.value)), Ok(buf[len..]))
    case _ =>
      var r := MixDh(c, hs, token);
      Stepped(r.state, if r.outcome.Ok? then Ok(buf) else Err(r.outcome.error))
  }

  function WriteTokens(c: Suite, hs: Handshake, tokens: seq<Token>, ephemeral: KeyPair, written: Bytes)
    : Stepped<Handshake, Bytes>
    decreases |tokens|
  {
    if tokens == [] then Stepped(hs, Ok(written))
    else
      var w := WriteToken(c, hs, tokens[0], ephemeral);
      if w.outcome.Err? then w
      else WriteTokens(c, w.state, tokens[1..], ephemeral, written + w.outcome.value)
  }

  function ReadTokens(c: Suite, hs: Handshake, tokens: seq<Token>, buf: Bytes): Stepped<Handshake, Bytes>
    decreases |tokens|
  {
    if tokens == [] then Stepped(hs, Ok(buf))
    else
      var r := ReadToken(c, hs, tokens[0], buf);
      if r.outcome.Err? then r
      else ReadTokens(c, r.state, tokens[1..], r.outcome.value)
  }

  function Wiped(b: Option<Bytes>): Option<Bytes> {
    if b.None? then None else Some(seq(|b.value|, _ => 0))
  }

  /** Splits into transport keys, swapped for the responder, and forgets the ephemeral keys. */
  function Finish(c: Suite, hs: Handshake): Stepped<Handshake, Transport> {
    var (first, second) := Split(c, hs.ss);
    if hs.rs.None? then Stepped(hs, Err(MissingKey))
    else
      Stepped(
        hs.(e := None, re := Wiped(hs.re), rs := Wiped(hs.rs)),
        Ok(if hs.initiator
           then Transport(first, second, hs.ss.h, hs.rs.value)
           else Transport(second, first, hs.ss.h, hs.rs.value)))
  }

  /** The end shared by both directions: advance one step, and finish after the last. */
  function Advance(c: Suite, hs: Handshake, bytes: Bytes): Stepped<Handshake, Flight> {
    var hs1 := hs.(step := hs.step + 1);
    if hs1.step < |XX| then Stepped(hs1, Ok(Flight(bytes, None)))
    else
      var f := Finish(c, hs1);
      Stepped(f.state, if f.outcome.Ok? then Ok(Flight(bytes, Some(f.outcome.value))) else Err(f.outcome.error))
  }

  function WriteMessage(c: Suite, hs: Handshake, payload: Bytes, ephemeral: KeyPair): Stepped<Handshake, Flight> {
    if hs.step >= |XX| then Stepped(hs, Err(AlreadyComplete))
    else
      var w := WriteTokens(c, hs, XX[hs.step], ephemeral, []);
      if w.outcome.Err? then Stepped(w.state, Err(w.outcome.error))
      else
        var p := EncryptAndHash(c, w.state.ss, payload);
        var hs1 := w.state.(ss := p.state);
        if p.outcome.Err? then Stepped(hs1, Err(p.outcome.error))
        else Advance(c, hs1, w.outcome.value + p.outcome.value)
  }

  function ReadMessage(c: Suite, hs: Handshake, message: Bytes): Stepped<Handshake, Flight> {
    if hs.step >= |XX| then Stepped(hs, Err(AlreadyComplete))
    else if |message| > MAX_MESSAGE then Stepped(hs, Err(MessageTooLarge))
    else
      var r := ReadTokens(c, hs, XX[hs.step], message);
      if r.outcome.Err? then Stepped(r.state, Err(r.outcome.error))
      else
        var p := DecryptAndHash(c, r.state.ss, r.outcome.value);
        var hs1 := r.state.(ss := p.state);
        if p.outcome.Err? then Stepped(hs1, Err(p.outcome.error))
        else Advance(c, hs1, p.outcome.value)
  }

  predicate AllZero(b: Bytes) {
    forall i :: 0 <= i < |b| ==> b[i] == 0
  }

  /** No ephemeral key, and only zeros where the remote keys were. */
  predicate Forgotten(hs: Handshake) {
    hs.e.None? && (hs.re.Some? ==> AllZero(hs.re.value)) && (hs.rs.Some? ==> AllZero(hs.rs.value))
  }

  /** The end that hands out transport keys has forgotten the keys of the handshake. */
  lemma FinishedForgets(c: Suite, hs: Handshake, bytes: Bytes, ephemeral: KeyPair)
    ensures var w := WriteMessage(c, hs, bytes, ephemeral);
            w.outcome.Ok? && w.outcome.value.transport.Some? ==> Forgotten(w.state)
    ensures var r := ReadMessage(c, hs, bytes);
            r.outcome.Ok? && r.outcome.value.transport.Some? ==> Forgotten(r.state)
  {
    hide WriteTokens, ReadTokens, EncryptAndHash, DecryptAndHash;
  }

  /** Only finishing a message advances the step. */
  lemma {:induction false} TokensKeepStep(c: Suite, hs: Handshake, tokens: seq<Token>, ephemeral: KeyPair, bytes: Bytes)
    ensures WriteTokens(c, hs, tokens, ephemeral, bytes).state.step == hs.step
    ensures ReadTokens(c, hs, tokens, bytes).state.step == hs.step
    decreases |tokens|
  {
    if tokens != [] {
      var w := WriteToken(c, hs, tokens[0], ephemeral);
      if w.outcome.Ok? {
        TokensKeepStep(c, w.state, tokens[1..], ephemeral, bytes + w.outcome.value);
      }
      var r := ReadToken(c, hs, tokens[0], bytes);
      if r.outcome.Ok? {
        TokensKeepStep(c, r.state, tokens[1..], ephemeral, r.outcome.value);
      }
    }
  }

  /** Transport keys as the code holds them: two live cipher objects. */
  datatype TransportPair = TransportPair(send: CipherState, recv: CipherState, handshakeHash: Bytes,
                                         remoteStatic: Bytes)

  ghost function TransportView(t: TransportPair): Transport
    reads t.send, t.recv
  {
    Transport(t.send.View(), t.recv.View(), t.handshakeHash, t.remoteStatic)
  }

  /** A flight of the object level, as a value. */
  ghost function FlightView(bytes: Bytes, t: Option<TransportPair>): Flight
    reads if t.Some? then {t.value.send, t.value.recv} else {}
  {
    Flight(bytes, if t.Some? then Some(TransportView(t.value)) else None)
  }

  datatype Outcome = Done(bytes: Bytes, transport: Option<TransportPair>) | Thrown(fault: Fault)

  ghost function OutcomeView(o: Outcome): Result<Flight, Fault>
    reads if o.Done? && o.transport.Some? then {o.transport.value.send, o.transport.value.recv} else {}
  {
    if o.Thrown? then Err(o.fault) else Ok(FlightView(o.bytes, o.transport))
  }

  class HandshakeState {
    const crypto: Suite
    const ss: SymmetricState
    const initiator: bool
    const s: KeyPair
    var e: Option<KeyPair>
    var rs: Option<Bytes>
    var re: Option<Bytes>
    var step: nat

    ghost predicate Valid()
      reads this, ss, ss.cipher
    {
      ss.crypto == crypto && ss.Valid()
    }

    ghost function View(): Handshake
      reads this, ss, ss.cipher
    {
      Handshake(ss.View(), initiator, s, e, rs, re, step)
    }

    constructor (crypto: Suite, initiator: bool, s: KeyPair, prologue: Bytes)
      ensures this.crypto == crypto && Valid() && fresh(ss) && fresh(ss.cipher)
      ensures View() == Start(crypto, initiator, s, prologue)
    {
      this.crypto, this.initiator, this.s := crypto, initiator, s;
      e, rs, re, step := None, None, None, 0;
      var symmetric := new SymmetricState(crypto, PROTOCOL_NAME);
      symmetric.DoMixHash(prologue);
      ss := symmetric;
    }

    method DoMixDh(token: Token) returns (r: Result<(), Fault>)
      requires Valid()
      modifies ss
      ensures Valid() && (ss.cipher == old(ss.cipher) || fresh(ss.cipher))
      ensures Stepped(View(), r) == MixDh(crypto, old(View()), token)
    {
      var local: Option<KeyPair>, remote: Option<Bytes> := None, None;
      match token {
        case EE => local, remote := e, re;
        case SS => local, remote := Some(s), rs;
        case ES =>
          if initiator { local, remote := e, rs; } else { local, remote := Some(s), re; }
        case SE =>
          if initiator { local, remote := Some(s), re; } else { local, remote := e, rs; }
        case E =>
        case S =>
      }
      if local.None? || remote.None? {
        return Err(MissingKey);
      }
      var secret := crypto.dh(local.value.privateKey, remote.value);
      if secret.None? {
        return Err(BadPublicKey);
      }
      ss.DoMixKey(secret.value);
      return Ok(());
    }

    method DoFinish() returns (r: Result<Bytes, Fault>, send: CipherState, recv: CipherState)
      requires Valid()
      modifies this
      ensures Valid() && ss.View() == old(ss.View()) && fresh(send) && fresh(recv)
      ensures send.crypto == recv.crypto == crypto
      ensures Finish(crypto, old(View())).state == View()
      ensures Finish(crypto, old(View())).outcome
           == if r.Ok? then Ok(Transport(send.View(), recv.View(), ss.h, r.value)) else Err(r.error)
    {
      var first, second := ss.DoSplit();
      if initiator { send, recv := first, second; } else { send, recv := second, first; }
      if rs.None? {
        return Err(MissingKey), send, recv;
      }
      r := Ok(rs.value);
      e := None;
      if re.Some? { re := Some(seq(|re.value|, _ => 0)); }
      rs := Some(seq(|rs.value|, _ => 0));
    }

    /** Advances past a message whose bytes are complete. */
    method DoAdvance(bytes: Bytes) returns (o: Outcome)
      requires Valid()
      modifies this
      ensures Valid()
      ensures o.Done? && o.transport.Some? ==>
                fresh(o.transport.value.send) && fresh(o.transport.value.recv)
                && o.transport.value.send.crypto == o.transport.value.recv.crypto == crypto
      ensures Stepped(View(), OutcomeView(o)) == Advance(crypto, old(View()), bytes)
    {
      step := step + 1;
      if step < |XX| {
        return Done(bytes, None);
      }
      var remoteStatic, send, recv := DoFinish();
      if remoteStatic.Err? {
        return Thrown(remoteStatic.error);
      }
      return Done(bytes, Some(TransportPair(send, recv, ss.h, remoteStatic.value)));
    }

    method DoWriteMessage(payload: Bytes, ephemeral: KeyPair) returns (o: Outcome)
      requires Valid()
      modifies this, ss, ss.cipher
      ensures Valid() && (ss.cipher == old(ss.cipher) || fresh(ss.cipher))
      ensures o.Done? && o.transport.Some? ==>
                fresh(o.transport.value.send) && fresh(o.transport.value.recv)
                && o.transport.value.send.crypto == o.transport.value.recv.crypto == crypto
      ensures Stepped(View(), OutcomeView(o)) == WriteMessage(crypto, old(View()), payload, ephemeral)
    {
      if step >= |XX| {
        return Thrown(AlreadyComplete);
      }
      var pattern := XX[step];
      var parts: Bytes := [];
      for i := 0 to |pattern|
        invariant Valid() && step == old(step)
        invariant ss.cipher == old(ss.cipher) || fresh(ss.cipher)
        invariant WriteTokens(crypto, View(), pattern[i..], ephemeral, parts)
               == WriteTokens(crypto, old(View()), pattern, ephemeral, [])
      {
        assert pattern[i..][0] == pattern[i] && pattern[i..][1..] == pattern[i + 1..];
        if pattern[i] == E {
          e := Some(ephemeral);
          parts := parts + ephemeral.publicRaw;
          ss.DoMixHash(ephemeral.publicRaw);
        } else if pattern[i] == S {
          var sealed := ss.DoEncryptAndHash(s.publicRaw);
          if sealed.Err? {
            return Thrown(sealed.error);
          }
          parts := parts + sealed.value;
        } else {
          var mixed := DoMixDh(pattern[i]);
          if mixed.Err? {
            return Thrown(mixed.error);
          }
          assert parts + [] == parts;
        }
      }
      assert pattern[|pattern|..] == [];
      var sealed := ss.DoEncryptAndHash(payload);
      if sealed.Err? {
        return Thrown(sealed.error);
      }
      o := DoAdvance(parts + sealed.value);
    }

    method DoReadMessage(message: Bytes) returns (o: Outcome)
      requires Valid()
      modifies this, ss, ss.cipher
      ensures Valid() && (ss.cipher == old(ss.cipher) || fresh(ss.cipher))
      ensures o.Done? && o.transport.Some? ==>
                fresh(o.transport.value.send) && fresh(o.transport.value.recv)
                && o.transport.value.send.crypto == o.transport.value.recv.crypto == crypto
      ensures Stepped(View(), OutcomeView(o)) == ReadMessage(crypto, old(View()), message)
    {
      if step >= |XX| {
        return Thrown(AlreadyComplete);
      }
      if |message| > MAX_MESSAGE {
        return Thrown(MessageTooLarge);
      }
      var pattern := XX[step];
      var buf := message;
      for i := 0 to |pattern|
        invariant Valid() && step == old(step)
        invariant ss.cipher == old(ss.cipher) || fresh(ss.cipher)
        invariant ReadTokens(crypto, View(), pattern[i..], buf)
               == ReadTokens(crypto, old(View()), pattern, message)
      {
        assert pattern[i..][0] == pattern[i] && pattern[i..][1..] == pattern[i + 1..];
        if pattern[i] == E {
          if |buf| < DH_LEN {
            return Thrown(ShortMessage);
          }
          re := Some(buf[..DH_LEN]);
          buf := buf[DH_LEN..];
          ss.DoMixHash(re.value);
        } else if pattern[i] == S {
          var keyed := ss.HasKey();
          var len := if keyed then DH_LEN + TAG_LEN else DH_LEN;
          if |buf| < len {
            return Thrown(ShortMessage);
          }
          var plain := ss.DoDecryptAndHash(buf[..len]);
          if plain.Err? {
            return Thrown(plain.error);
          }
          rs := Some(plain.value);
          buf := buf[len..];
        } else {
          var mixed := DoMixDh(pattern[i]);
          if mixed.Err? {
            return Thrown(mixed.error);
          }
        }
      }
      assert pattern[|pattern|..] == [];
      var payload := ss.DoDecryptAndHash(buf);
      if payload.Err? {
        return Thrown(payload.error);
      }
      o := DoAdvance(payload.value);
    }
  }
}
