/** The peer table and the handshake together: what an honest client of ts/net/secure-udp.ts gets,
    however full the table is, and what a transport datagram does to it. */
module PeerTableAgreement {
  import opened Wrappers
  import opened ByteStrings
  import opened OrderedMap
  import opened Crypto
  import opened CipherStates
  import opened HandshakeStates
  import opened NoiseAgreement
  import opened NoiseSessions
  import opened PeerTable
  import DatagramLink
  import PeerTableTheorems
  import ReplayFilters

  /** An honest client: its identity, both ephemerals, and the payloads it sends. */
  datatype Client = Client(s: KeyPair, e: KeyPair, answer: KeyPair, p1: Bytes, p3: Bytes)

  /** The client's handshake with the server, over a network that relays it. */
  function Relayed(cfg: Config, cl: Client): Relay {
    RunXX(cfg.crypto, cl.s, cfg.staticKey, cl.e, cl.answer, [], cl.p1, [], cl.p3)
  }

  ghost predicate Honest(cfg: Config, cl: Client) {
    && Lawful(cfg.crypto) && Genuine(cfg.crypto, cfg.staticKey)
    && Genuine(cfg.crypto, cl.s) && Genuine(cfg.crypto, cl.e) && Genuine(cfg.crypto, cl.answer)
    && PayloadsFit(cl.p1, [], cl.p3)
  }

  ghost predicate Handshaking(t: Table, key: Address, hs: Handshake) {
    Has(t.peers, key) && t.peers[Find(t.peers, key)].value.hs == Some(hs)
  }

  predicate Idle(t: Table, key: Address) {
    Has(t.peers, key) ==> t.peers[Find(t.peers, key)].value.hs.None?
  }

  /** A peer without a handshake is given a new one, and room is made for it if need be. */
  lemma AdmitStarts(cfg: Config, t: Table, key: Address, now: int)
    requires Idle(t, key)
    ensures Handshaking(Admit(cfg, t, key, now), key, Responder(cfg))
  {
    EvictionKeepsOthers(cfg, t, key);
    if !Has(t.peers, key) {
      var room := MakeRoom(cfg, t).peers;
      var peers := Admit(cfg, t, key, now).peers;
      assert forall j :: 0 <= j < |room| ==> peers[j] == room[j] && room[j].key != key;
      FirstWithKey(peers, |room|, key);
    }
  }

  /** The server's answer to the first message is the relayed second message. */
  lemma FirstIsAnswered(cfg: Config, t: Table, key: Address, cl: Client, now: int)
    requires Honest(cfg, cl) && Idle(t, key)
    ensures var (t1, output) := OnHandshake(cfg, t, key, Message(Relayed(cfg, cl).first), cl.answer, now);
            && output == Reply([1] + Message(Relayed(cfg, cl).second))
            && Handshaking(t1, key, Relayed(cfg, cl).second.state)
  {
    hide Honest, ReadMessage, WriteMessage;
    var (c, x) := (cfg.crypto, Relayed(cfg, cl));
    FirstTwoHold(cfg, cl);
    AdmitStarts(cfg, t, key, now);
    PeerTableTheorems.MessageSteps(c, Responder(cfg), Message(x.first), cl.answer);
  }

  lemma FirstTwoHold(cfg: Config, cl: Client)
    requires Honest(cfg, cl)
    ensures var x := Relayed(cfg, cl);
            && x.firstRead == ReadMessage(cfg.crypto, Responder(cfg), Message(x.first)) && x.firstRead.outcome.Ok?
            && x.second == WriteMessage(cfg.crypto, x.firstRead.state, [], cl.answer) && x.second.outcome.Ok?
  {
    hide ReadMessage, WriteMessage;
    FirstTwoMessages(cfg.crypto, cl.s, cfg.staticKey, cl.e, cl.answer, [], cl.p1, [], cl.p3);
  }

  /** What the third message leaves at both ends. */
  lemma ThirdHolds(cfg: Config, cl: Client)
    requires Honest(cfg, cl)
    ensures var x := Relayed(cfg, cl);
            && x.thirdRead == ReadMessage(cfg.crypto, x.second.state, Message(x.third))
            && x.third.outcome.Ok? && x.third.outcome.value.transport.Some?
            && x.thirdRead.outcome.Ok? && x.thirdRead.outcome.value.transport.Some?
            && Paired(x.third.outcome.value.transport.value, x.thirdRead.outcome.value.transport.value)
            && x.third.outcome.value.transport.value.remoteStatic == cfg.staticKey.publicRaw
            && x.thirdRead.outcome.value.transport.value.remoteStatic == cl.s.publicRaw
            && x.thirdRead.outcome.value.transport.value.recv.key.Some?
  {
    hide ReadMessage, WriteMessage;
    XxAgreement(cfg.crypto, cl.s, cfg.staticKey, cl.e, cl.answer, [], cl.p1, [], cl.p3);
  }

  /** The peer just established is never the one the cap evicts. */
  lemma EstablishKeeps(cfg: Config, t: Table, key: Address, transport: Transport, now: int)
    requires Has(t.peers, key)
    ensures var t1 := Establish(cfg, t, key, transport, now);
            Has(t1.peers, key) && t1.peers[Find(t1.peers, key)].value == Peer(None, Some(NewSession(transport)), now)
  {
    var t1 := Replace(t, key, Peer(None, Some(NewSession(transport)), now));
    var t2 := t1.(pending := t.pending - 1, established := t.established + 1);
    var i := FirstSettled(t2.peers, key);
    if i < |t2.peers| {
      WithoutKeeps(t2.peers, i, key);
    }
  }

  /** `key` has a session, opened at `now`, that is the other end of the client's. */
  ghost predicate PairedAt(cfg: Config, t: Table, key: Address, cl: Client, now: int) {
    var third := Relayed(cfg, cl).third.outcome;
    && third.Ok? && third.value.transport.Some? && Has(t.peers, key)
    && var (mine, peer) := (third.value.transport.value, t.peers[Find(t.peers, key)].value);
       && peer.hs.None? && peer.session.Some? && peer.lastSeen == now
       && peer.session.value.recv == mine.send && peer.session.value.send == mine.recv
       && peer.session.value.handshakeHash == mine.handshakeHash
       && peer.session.value.remoteStatic == cl.s.publicRaw && mine.remoteStatic == cfg.staticKey.publicRaw
  }

  lemma ThirdOpens(cfg: Config, t: Table, key: Address, cl: Client, ephemeral: KeyPair, now: int)
    requires Honest(cfg, cl)
    ensures Handshaking(t, key, Relayed(cfg, cl).second.state) ==>
              var (t1, output) := OnHandshake(cfg, t, key, Message(Relayed(cfg, cl).third), ephemeral, now);
              output == Opened(cl.s.publicRaw) && PairedAt(cfg, t1, key, cl, now)
  {
    hide Honest, ReadMessage, WriteMessage, Relayed;
    ThirdHolds(cfg, cl);
    if Handshaking(t, key, Relayed(cfg, cl).second.state) {
      EstablishKeeps(cfg, t, key, Relayed(cfg, cl).thirdRead.outcome.value.transport.value, now);
    }
  }

  lemma Tagged(tag: byte, body: Bytes)
    ensures ([tag] + body)[0] == tag && ([tag] + body)[1..] == body
  {
  }

  /** An honest client gets in, at any address the table has no handshake for, known or not, and
      also at both caps. Its first datagram is answered with the second message; and at any later
      time at which its handshake is still in the table, its third message opens a session paired
      with its own, under its own public key. */
  lemma ClientIsAuthenticated(cfg: Config, t: Table, later: Table, key: Address, cl: Client, ephemeral: KeyPair,
                              now: int, then': int)
    requires Honest(cfg, cl) && Idle(t, key)
    ensures var (t1, answer) := OnDatagram(cfg, t, [HANDSHAKE] + Message(Relayed(cfg, cl).first), key, cl.answer, now);
            && answer == Reply([1] + Message(Relayed(cfg, cl).second))
            && Handshaking(t1, key, Relayed(cfg, cl).second.state)
    ensures Handshaking(later, key, Relayed(cfg, cl).second.state) ==>
              var third := [HANDSHAKE] + Message(Relayed(cfg, cl).third);
              var (t2, opening) := OnDatagram(cfg, later, third, key, ephemeral, then');
              opening == Opened(cl.s.publicRaw) && PairedAt(cfg, t2, key, cl, then')
  {
    hide Honest, Relayed, OnHandshake, Handshaking, PairedAt;
    Tagged(HANDSHAKE, Message(Relayed(cfg, cl).first));
    Tagged(HANDSHAKE, Message(Relayed(cfg, cl).third));
    FirstIsAnswered(cfg, t, key, cl, now);
    ThirdOpens(cfg, later, key, cl, ephemeral, then');
  }

  // ----- Transport datagrams -----

  /** A transport datagram that delivers nothing, being forged, replayed, too old, malformed or
      for no session, changes nothing in the table, not even the time its peer was last seen. */
  lemma RejectedTransportChangesNothing(cfg: Config, t: Table, key: Address, body: Bytes, now: int)
    ensures OnTransport(cfg, t, key, body, now).1 == Quiet ==> OnTransport(cfg, t, key, body, now).0 == t
  {
    if Has(t.peers, key) && t.peers[Find(t.peers, key)].value.session.Some? {
      var i := Find(t.peers, key);
      assert t.peers[i := t.peers[i]] == t.peers;
    }
  }

  /** A datagram the client's session sealed is delivered, to the session of its own address,
      exactly when its counter passes that session's replay filter; and only that record changes. */
  lemma SealedIsDelivered(cfg: Config, t: Table, key: Address, sender: Cipher, n: nat, plaintext: Bytes, e: KeyPair,
                          now: int)
    requires Lawful(cfg.crypto) && sender.key.Some? && n < TWO_TO_THE_64
    requires Has(t.peers, key) && t.peers[Find(t.peers, key)].value.session.Some?
    requires t.peers[Find(t.peers, key)].value.session.value.recv == sender
    ensures var (i, wire) := (Find(t.peers, key), NoiseSessions.Datagram(cfg.crypto, sender, n, plaintext));
            var session := t.peers[i].value.session.value;
            var (t1, output) := OnDatagram(cfg, t, [TRANSPORT] + wire, key, e, now);
            var (replay, isFresh) := ReplayFilters.Check(session.replay, n);
            && output == (if isFresh then Delivered(plaintext) else Quiet)
            && t1 == if isFresh
                     then t.(peers := t.peers[i := Entry(key, t.peers[i].value.(
                                        session := Some(session.(replay := replay)), lastSeen := now))])
                     else t
  {
    var wire := NoiseSessions.Datagram(cfg.crypto, sender, n, plaintext);
    Tagged(TRANSPORT, wire);
    DatagramLink.GenuineAuthenticates(cfg.crypto, sender, n, plaintext);
    RejectedTransportChangesNothing(cfg, t, key, wire, now);
  }
}
