/** ts/net/noise-session.ts: sealed datagrams with an explicit counter. */
module NoiseSessions {
  import opened Wrappers
  import opened ByteStrings
  import opened Crypto
  import opened CipherStates
  import opened ReplayFilters
  import opened HandshakeStates

  const COUNTER_BYTES := 8

  /** The value of a `NoiseSession` object. */
  datatype Session = Session(
    send: Cipher,
    recv: Cipher,
    replay: Filter,
    counter: nat,
    remoteStatic: Bytes,
    handshakeHash: Bytes
  )

  function NewSession(t: Transport): Session {
    Session(t.send, t.recv, EMPTY_FILTER, 0, t.remoteStatic, t.handshakeHash)
  }

  /** `[8-byte counter][ciphertext and tag]`, the counter bound as associated data. */
  function Datagram(c: Suite, key: Cipher, n: nat, plaintext: Bytes): Bytes
    requires n < TWO_TO_THE_64
  {
    WriteUint64(n) + SealAt(c, key, n, WriteUint64(n), plaintext)
  }

  function Seal(c: Suite, s: Session, plaintext: Bytes): Stepped<Session, Bytes> {
    if s.counter >= NONCE_MAX then Stepped(s, Err(NonceExhausted))
    else Stepped(s.(counter := s.counter + 1), Ok(Datagram(c, s.send, s.counter, plaintext)))
  }

  /** The counter and the plaintext of a datagram that authenticates under `key`. */
  function Authenticate(c: Suite, key: Cipher, wire: Bytes): Option<(nat, Bytes)> {
    if |wire| < COUNTER_BYTES then None
    else
      var header := wire[..COUNTER_BYTES];
      var plain := OpenAt(c, key, ReadUint64(header), header, wire[COUNTER_BYTES..]);
      if plain.Err? then None else Some((ReadUint64(header), plain.value))
  }

  /** Only a datagram that authenticates may record its counter. */
  function Open(c: Suite, s: Session, wire: Bytes): (Session, Option<Bytes>) {
    match Authenticate(c, s.recv, wire)
    case None => (s, None)
    case Some((n, plain)) =>
      var (replay, isFresh) := Check(s.replay, n);
      (s.(replay := replay), if isFresh then Some(plain) else None)
  }

  class NoiseSession {
    const crypto: Suite
    const send: CipherState
    const recv: CipherState
    const replay: ReplayFilter
    const remoteStatic: Bytes
    const handshakeHash: Bytes
    var counter: nat

    ghost predicate Valid() {
      send.crypto == crypto && recv.crypto == crypto
    }

    ghost function View(): Session
      reads this, send, recv, replay
    {
      Session(send.View(), recv.View(), replay.View(), counter, remoteStatic, handshakeHash)
    }

    constructor (crypto: Suite, transport: TransportPair)
      requires transport.send.crypto == transport.recv.crypto == crypto
      ensures this.crypto == crypto && Valid() && fresh(replay)
      ensures send == transport.send && recv == transport.recv
      ensures View() == NewSession(TransportView(transport))
    {
      this.crypto, send, recv := crypto, transport.send, transport.recv;
      remoteStatic, handshakeHash := transport.remoteStatic, transport.handshakeHash;
      counter := 0;
      replay := new ReplayFilter();
    }

    method DoSeal(plaintext: Bytes) returns (r: Result<Bytes, Fault>)
      requires Valid()
      modifies this
      ensures Stepped(View(), r) == Seal(crypto, old(View()), plaintext)
    {
      var n := counter;
      if n >= NONCE_MAX {
        return Err(NonceExhausted);
      }
      counter := counter + 1;
      var header := WriteUint64(n);
      var ct := send.EncryptAt(n, header, plaintext);
      return Ok(header + ct);
    }

    method DoOpen(wire: Bytes) returns (r: Option<Bytes>)
      requires Valid()
      modifies replay
      ensures (View(), r) == Open(crypto, old(View()), wire)
    {
      if |wire| < COUNTER_BYTES {
        return None;
      }
      var header := wire[..COUNTER_BYTES];
      var n := ReadUint64(header);
      var plain := recv.DecryptAt(n, header, wire[COUNTER_BYTES..]);
      if plain.Err? {
        return None;
      }
      var isFresh := replay.DoCheck(n);
      return if isFresh then Some(plain.value) else None;
    }
  }
}
