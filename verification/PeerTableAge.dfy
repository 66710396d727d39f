/** When a peer counts as seen: which handshake datagrams refresh `lastSeen` of a peer with a
    session, and what that means for the sweep of ts/net/secure-udp.ts. */
module PeerTableAge {
  import opened Wrappers
  import opened ByteStrings
  import opened OrderedMap
  import opened Crypto
  import opened HandshakeStates
  import opened PeerTable
  import opened PeerTableSafety
  import opened PeerTableTheorems
  import PeerTableAgreement

  predicate HasSession(t: Table, key: Address) {
    Has(t.peers, key) && t.peers[Find(t.peers, key)].value.session.Some?
  }

  function At(t: Table, key: Address): Peer
    requires Has(t.peers, key)
  {
    t.peers[Find(t.peers, key)].value
  }

  /** The handshake a datagram from `key` is fed to. */
  function HandshakeFor(cfg: Config, t: Table, key: Address): Handshake
    requires Has(t.peers, key)
  {
    if At(t, key).hs.Some? then At(t, key).hs.value else Responder(cfg)
  }

  lemma AdmitKeepsRecord(cfg: Config, t: Table, key: Address, now: int)
    requires HasSession(t, key)
    ensures At(Admit(cfg, t, key, now), key) == At(t, key).(hs := Some(HandshakeFor(cfg, t, key)))
  {
    EvictionKeepsOthers(cfg, t, key);
  }

  /** What feeding a datagram does to the record it is for. */
  lemma FeedRefreshes(cfg: Config, t: Table, key: Address, body: Bytes, ephemeral: KeyPair, now: int)
    requires HasSession(t, key) && At(t, key).hs.Some?
    ensures var (t1, output) := Feed(cfg, t, key, body, ephemeral, now);
            && HasSession(t1, key)
            && At(t1, key).lastSeen
               == (if ReadMessage(cfg.crypto, At(t, key).hs.value, body).outcome.Ok? then now else At(t, key).lastSeen)
            && (!output.Opened? ==> At(t1, key).session == At(t, key).session)
  {
    hide ReadMessage, WriteMessage;
    var read := ReadMessage(cfg.crypto, At(t, key).hs.value, body);
    if read.outcome.Ok? && read.outcome.value.transport.Some? {
      PeerTableAgreement.EstablishKeeps(cfg, t, key, read.outcome.value.transport.value, now);
    }
  }

  /** For a peer with a session: a handshake datagram sets the time it was last seen if and only if
      the handshake it is fed to reads it; otherwise the time stays as it was. The session stays
      too, unless the datagram completes a new one. */
  lemma RefreshesIffRead(cfg: Config, t: Table, key: Address, body: Bytes, ephemeral: KeyPair, now: int)
    requires HasSession(t, key)
    ensures var (t1, output) := OnHandshake(cfg, t, key, body, ephemeral, now);
            && HasSession(t1, key)
            && At(t1, key).lastSeen
               == (if ReadMessage(cfg.crypto, HandshakeFor(cfg, t, key), body).outcome.Ok? then now
                   else At(t, key).lastSeen)
            && (!output.Opened? ==> At(t1, key).session == At(t, key).session)
  {
    hide ReadMessage, WriteMessage, Feed, Responder;
    AdmitKeepsRecord(cfg, t, key, now);
    FeedRefreshes(cfg, Admit(cfg, t, key, now), key, body, ephemeral, now);
  }

  /** A body of the size of a first message, whoever sent it and whatever it holds. */
  predicate SizedAsFirst(body: Bytes) {
    DH_LEN <= |body| <= MAX_MESSAGE
  }

  /** For a peer with a session and no handshake in progress, the datagram's size alone decides:
      the time is set if and only if it could be a first message, and the session never changes. */
  lemma SizeRefreshesIdle(cfg: Config, t: Table, key: Address, body: Bytes, ephemeral: KeyPair, now: int)
    requires HasSession(t, key) && At(t, key).hs.None?
    ensures var (t1, output) := OnHandshake(cfg, t, key, body, ephemeral, now);
            && HasSession(t1, key) && At(t1, key).session == At(t, key).session && !output.Opened?
            && At(t1, key).lastSeen == if SizedAsFirst(body) then now else At(t, key).lastSeen
  {
    hide ReadMessage, WriteMessage;
    RefreshesIffRead(cfg, t, key, body, ephemeral, now);
    FirstMessageRead(cfg, body);
    AdmitKeepsRecord(cfg, t, key, now);
  }

  // ----- The sweep -----

  /** Every entry a sweep keeps was there, and was seen since the cutoff. */
  lemma {:induction false} KeptFrom(peers: Peers, cutoff: int, i: nat) returns (j: nat)
    requires i < |Kept(peers, cutoff)|
    ensures j < |peers| && peers[j] == Kept(peers, cutoff)[i] && peers[j].value.lastSeen >= cutoff
  {
    if peers[0].value.lastSeen < cutoff {
      j := KeptFrom(peers[1..], cutoff, i);
      j := j + 1;
    } else if i == 0 {
      j := 0;
    } else {
      j := KeptFrom(peers[1..], cutoff, i - 1);
      j := j + 1;
    }
  }

  /** Every entry seen since the cutoff is kept. */
  lemma {:induction false} KeptTo(peers: Peers, cutoff: int, j: nat) returns (i: nat)
    requires j < |peers| && peers[j].value.lastSeen >= cutoff
    ensures i < |Kept(peers, cutoff)| && Kept(peers, cutoff)[i] == peers[j]
  {
    if j == 0 {
      i := 0;
    } else {
      i := KeptTo(peers[1..], cutoff, j - 1);
      i := if peers[0].value.lastSeen < cutoff then i else i + 1;
    }
  }

  lemma SweptIffOld(t: Table, cutoff: int, key: Address, from: nat)
    requires Unique(t.peers) && Has(t.peers, key) && from == 0
    ensures Has(Sweep(t, cutoff, from).peers, key) <==> At(t, key).lastSeen >= cutoff
    ensures Has(Sweep(t, cutoff, from).peers, key) ==> At(Sweep(t, cutoff, from), key) == At(t, key)
  {
    var kept := Kept(t.peers, cutoff);
    SweepKeeps(t, cutoff, from);
    assert t.peers[from..] == t.peers && t.peers[..from] + kept == kept;
    HasIffSome(kept, key);
    if At(t, key).lastSeen >= cutoff {
      var i := KeptTo(t.peers, cutoff, Find(t.peers, key));
      assert kept[i].key == key;
    }
    if Has(kept, key) {
      var j := KeptFrom(t.peers, cutoff, Find(kept, key));
      FindIs(t.peers, j);
    }
  }

  /** The timer keeps a peer, as it is, if and only if it was seen within the session's lifetime. */
  lemma TimerSweepsIffOld(cfg: Config, t: Table, key: Address, at: int)
    requires Unique(t.peers) && Has(t.peers, key)
    ensures var t1 := Step(cfg, t, TimerSweeps(at));
            && (Has(t1.peers, key) <==> At(t, key).lastSeen >= at - cfg.ttl)
            && (Has(t1.peers, key) ==> At(t1, key) == At(t, key))
  {
    SweptIffOld(t, at - cfg.ttl, key, 0);
  }

  function FromAnyone(key: Address, body: Bytes, ephemeral: KeyPair, now: int): Event {
    Datagram([HANDSHAKE] + body, key, ephemeral, now)
  }

  lemma FromAnyoneSteps(cfg: Config, t: Table, m: Meter, key: Address, body: Bytes, ephemeral: KeyPair, now: int)
    requires Bounded(cfg, t, m)
    ensures var t1 := Step(cfg, t, FromAnyone(key, body, ephemeral, now));
            t1 == OnHandshake(cfg, t, key, body, ephemeral, now).0 && Unique(t.peers) && Unique(t1.peers)
  {
    hide OnHandshake;
    PeerTableAgreement.Tagged(HANDSHAKE, body);
    HandshakeBounded(cfg, t, m, key, body, ephemeral, now);
  }

  /** So anyone who can send from a peer's address keeps its session from being swept, without
      being able to use it: in any reachable state, a session due to be swept outlives the sweep
      if and only if a handshake datagram sent in its name in between has the size of a first
      message. */
  lemma AnyoneKeepsASessionAlive(cfg: Config, events: seq<Event>, t: Table, m: Meter, key: Address, body: Bytes,
                                 ephemeral: KeyPair, now: int, at: int)
    requires Reaches(cfg, events, t, m) && HasSession(t, key) && At(t, key).hs.None?
    requires At(t, key).lastSeen < at - cfg.ttl <= now
    ensures !Has(Step(cfg, t, TimerSweeps(at)).peers, key)
    ensures var t1 := Step(cfg, Step(cfg, t, FromAnyone(key, body, ephemeral, now)), TimerSweeps(at));
            && (Has(t1.peers, key) <==> SizedAsFirst(body))
            && (SizedAsFirst(body) ==> HasSession(t1, key) && At(t1, key).session == At(t, key).session)
  {
    hide OnHandshake, Bounded, Step, Reaches, FromAnyone;
    FromEmpty(cfg, events, t, m);
    FromAnyoneSteps(cfg, t, m, key, body, ephemeral, now);
    SizeRefreshesIdle(cfg, t, key, body, ephemeral, now);
    TimerSweepsIffOld(cfg, t, key, at);
    TimerSweepsIffOld(cfg, Step(cfg, t, FromAnyone(key, body, ephemeral, now)), key, at);
  }
}
