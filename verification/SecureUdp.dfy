/** ts/net/secure-udp.ts: the server object. Its map holds mutable peer records that session
    handles share; every method is proved to do to the table what `PeerTable` says. */
module SecureUdp {
  import opened Wrappers
  import opened ByteStrings
  import opened OrderedMap
  import opened Crypto
  import opened CipherStates
  import opened HandshakeStates
  import opened NoiseSessions
  import opened PeerTable

  class PeerRecord {
    var hs: Option<Handshake>
    var session: Option<Session>
    var lastSeen: int

    ghost function View(): Peer
      reads this
    {
      Peer(hs, session, lastSeen)
    }

    constructor (hs: Option<Handshake>, session: Option<Session>, lastSeen: int)
      ensures View() == Peer(hs, session, lastSeen)
    {
      this.hs, this.session, this.lastSeen := hs, session, lastSeen;
    }
  }

  type Records = seq<Entry<Address, PeerRecord>>

  ghost function ObjectsOf(s: Records): set<PeerRecord> {
    set i | 0 <= i < |s| :: s[i].value
  }

  ghost function PeersView(s: Records): (v: Peers)
    reads ObjectsOf(s)
    ensures |v| == |s|
    ensures forall i :: 0 <= i < |s| ==> v[i] == Entry(s[i].key, s[i].value.View())
  {
    seq(|s|, i requires 0 <= i < |s| reads ObjectsOf(s) => Entry(s[i].key, s[i].value.View()))
  }

  lemma FindInView(s: Records, key: Address)
    ensures Find(PeersView(s), key) == Find(s, key)
  {
    var v := PeersView(s);
    var (i, j) := (Find(s, key), Find(v, key));
    assert i < |s| ==> v[i].key == key;
    assert j < |s| ==> s[j].key == key;
  }

  /** A known peer without a handshake starts one on its own record. */
  lemma RenewalIs(cfg: Config, t: Table, key: Address, now: int)
    requires Has(t.peers, key) && t.peers[Find(t.peers, key)].value.hs.None?
    ensures var (room, peer) := (MakeRoom(cfg, t), t.peers[Find(t.peers, key)].value);
            && Has(room.peers, key)
            && var renewed := Replace(room, key, Peer(Some(Responder(cfg)), peer.session, peer.lastSeen));
               Admit(cfg, t, key, now) == renewed.(pending := renewed.pending + 1)
  {
    EvictionKeepsOthers(cfg, t, key);
  }

  lemma WithoutInView(s: Records, i: nat)
    requires i < |s|
    ensures PeersView(Without(s, i)) == Without(PeersView(s), i)
    ensures ObjectsOf(Without(s, i)) <= ObjectsOf(s)
  {
    var w := Without(s, i);
    assert forall j :: 0 <= j < |w| ==> w[j] == s[if j < i then j else j + 1];
  }

  class SecureUdpServer {
    const cfg: Config
    var peers: Records
    var pending: int
    var established: int

    ghost function Objects(): set<PeerRecord>
      reads this
    {
      ObjectsOf(peers)
    }

    /** No record stands for two peers. */
    ghost predicate Valid()
      reads this
    {
      forall i, j :: 0 <= i < j < |peers| ==> peers[i].value != peers[j].value
    }

    ghost function View(): Table
      reads this, Objects()
    {
      Table(PeersView(peers), pending, established)
    }

    constructor (cfg: Config)
      ensures this.cfg == cfg && Valid() && View() == EMPTY_TABLE
    {
      this.cfg := cfg;
      peers, pending, established := [], 0, 0;
    }

    /** `Map.delete` of the record at `i`. */
    method RemoveAt(i: nat)
      requires Valid() && i < |peers|
      modifies this`peers
      ensures Valid() && Objects() <= old(Objects()) && peers == Without(old(peers), i)
      ensures View() == old(View()).(peers := Without(old(View()).peers, i))
    {
      WithoutInView(peers, i);
      ghost var before := peers;
      peers := peers[..i] + peers[i + 1..];
      assert forall j :: 0 <= j < |peers| ==> peers[j] == before[if j < i then j else j + 1];
    }

    /** Removes the record at `i` and gives back what it counted for. */
    method DropAt(i: nat)
      requires Valid() && i < |peers|
      modifies this
      ensures Valid() && Objects() <= old(Objects()) && peers == Without(old(peers), i)
      ensures View() == Drop(old(View()), i)
    {
      var p := peers[i].value;
      assert View().peers[i].value == p.View();
      RemoveAt(i);
      if p.hs.Some? { pending := pending - 1; }
      if p.session.Some? { established := established - 1; }
    }

    method DoForget(key: Address)
      requires Valid()
      modifies this
      ensures Valid() && Objects() <= old(Objects())
      ensures View() == Forget(old(View()), key)
      ensures old(!Has(peers, key)) ==> peers == old(peers)
      ensures old(Has(peers, key)) ==> peers == Without(old(peers), old(Find(peers, key)))
    {
      FindInView(peers, key);
      var i := Find(peers, key);
      if i < |peers| {
        DropAt(i);
      }
    }

    method DoEvictOldestPending()
      requires Valid()
      modifies this
      ensures Valid() && Objects() <= old(Objects())
      ensures View() == EvictOldestPending(old(View()))
      ensures var first := FirstHalfOpen(old(View()).peers);
              peers == if first < |old(peers)| then Without(old(peers), first) else old(peers)
    {
      ghost var first := FirstHalfOpen(View().peers);
      for i := 0 to |peers|
        invariant Valid() && View() == old(View()) && peers == old(peers)
        invariant i <= first
      {
        var p := peers[i].value;
        assert View().peers[i].value == p.View();
        if p.hs.Some? && p.session.None? {
          DropAt(i);
          return;
        }
      }
    }

    method DoEvictOldestSession(except: Address)
      requires Valid()
      modifies this
      ensures Valid() && Objects() <= old(Objects())
      ensures View() == EvictOldestSession(old(View()), except)
    {
      ghost var first := FirstSettled(View().peers, except);
      for i := 0 to |peers|
        invariant Valid() && View() == old(View()) && peers == old(peers)
        invariant i <= first
      {
        var p := peers[i].value;
        assert View().peers[i] == Entry(peers[i].key, p.View());
        if peers[i].key != except && p.session.Some? && p.hs.None? {
          DropAt(i);
          return;
        }
      }
    }

    method DoMakeRoom()
      requires Valid()
      modifies this
      ensures Valid() && Objects() <= old(Objects())
      ensures View() == MakeRoom(cfg, old(View()))
      ensures var first := FirstHalfOpen(old(View()).peers);
              peers == old(peers) || (first < |old(peers)| && peers == Without(old(peers), first))
    {
      if pending >= cfg.maxPending {
        DoEvictOldestPending();
      }
    }

    /** A new record, half-open, at the end of the map. */
    method Append(key: Address, now: int) returns (peer: PeerRecord)
      requires Valid() && !Has(peers, key)
      modifies this`peers
      ensures Valid() && fresh(peer) && Objects() <= old(Objects()) + {peer}
      ensures peer.View() == Peer(Some(Responder(cfg)), None, now)
      ensures View() == old(View()).(peers := old(View()).peers + [Entry(key, peer.View())])
      ensures Has(peers, key) && peers[Find(peers, key)].value == peer
    {
      hide Responder;
      peer := new PeerRecord(Some(Responder(cfg)), None, now);
      ghost var before := peers;
      peers := peers + [Entry(key, peer)];
      assert PeersView(peers) == PeersView(before) + [Entry(key, peer.View())];
      assert forall j :: 0 <= j < |before| ==> peers[j] == before[j] && before[j].key != key;
      FirstWithKey(peers, |before|, key);
    }

    method DoAdmitNew(key: Address, now: int) returns (peer: PeerRecord)
      requires Valid() && !Has(peers, key)
      modifies this
      ensures Valid() && fresh(peer) && Objects() <= old(Objects()) + {peer}
      ensures View() == Admit(cfg, old(View()), key, now)
      ensures Has(peers, key) && peers[Find(peers, key)].value == peer && peer.hs.Some?
    {
      hide MakeRoom, Responder, PeersView, ObjectsOf;
      FindInView(peers, key);
      EvictionKeepsOthers(cfg, View(), key);
      DoMakeRoom();
      FindInView(peers, key);
      peer := Append(key, now);
      pending := pending + 1;
    }

    /** Writes to the record of `key` show up at its place in the view, and nowhere else. */
    twostate lemma OnlyThisRecord(i: nat)
      requires old(Valid()) && i < |old(peers)| && peers == old(peers)
      requires forall o :: o in old(Objects()) && o != peers[i].value ==> o.View() == old(o.View())
      ensures PeersView(peers) == old(PeersView(peers))[i := Entry(peers[i].key, peers[i].value.View())]
    {
    }

    /** Assigns the fields of the record of `key`. */
    method Assign(key: Address, hs: Option<Handshake>, session: Option<Session>, lastSeen: int)
      requires Valid() && Has(peers, key)
      modifies peers[Find(peers, key)].value
      ensures Valid() && Has(View().peers, key)
      ensures peers[Find(peers, key)].value.View() == Peer(hs, session, lastSeen)
      ensures View() == Replace(old(View()), key, Peer(hs, session, lastSeen))
    {
      FindInView(peers, key);
      var peer := peers[Find(peers, key)].value;
      peer.hs, peer.session, peer.lastSeen := hs, session, lastSeen;
      OnlyThisRecord(Find(peers, key));
    }

    /** Room for a handshake of `key`, whose own record stays. */
    method MakeRoomFor(key: Address)
      requires Valid() && Has(peers, key) && peers[Find(peers, key)].value.hs.None?
      modifies this
      ensures Valid() && Objects() <= old(Objects())
      ensures View() == MakeRoom(cfg, old(View()))
      ensures Has(peers, key) && peers[Find(peers, key)] == old(peers[Find(peers, key)])
      ensures Has(View().peers, key)
      ensures View().peers[Find(View().peers, key)] == old(View().peers[Find(View().peers, key)])
    {
      hide MakeRoom, PeersView, FirstHalfOpen, Without;
      EvictionKeepsOthers(cfg, View(), key);
      RecordSurvivesEviction(key);
      DoMakeRoom();
    }

    method DoRenew(key: Address, now: int) returns (peer: PeerRecord)
      requires Valid() && Has(peers, key) && peers[Find(peers, key)].value.hs.None?
      modifies this, Objects()
      ensures Valid() && Objects() <= old(Objects())
      ensures View() == Admit(cfg, old(View()), key, now)
      ensures Has(peers, key) && peers[Find(peers, key)].value == peer && peer.hs.Some?
    {
      hide MakeRoom, Responder, PeersView, Admit, Replace;
      FindInView(peers, key);
      RenewalIs(cfg, View(), key, now);
      peer := peers[Find(peers, key)].value;
      assert View().peers[Find(peers, key)].value == peer.View() by { RecordSurvivesEviction(key); }
      MakeRoomFor(key);
      Assign(key, Some(Responder(cfg)), peer.session, peer.lastSeen);
      pending := pending + 1;
    }

    /** Eviction drops a half-open peer, so a record without a handshake keeps its key. */
    lemma RecordSurvivesEviction(key: Address)
      requires Valid() && Has(peers, key) && peers[Find(peers, key)].value.hs.None?
      ensures Has(View().peers, key)
      ensures View().peers[Find(View().peers, key)] == Entry(key, peers[Find(peers, key)].value.View())
      ensures var first := FirstHalfOpen(View().peers);
              first < |peers| ==> Has(Without(peers, first), key)
                                  && Without(peers, first)[Find(Without(peers, first), key)] == peers[Find(peers, key)]
    {
      FindInView(peers, key);
      var first := FirstHalfOpen(View().peers);
      if first < |peers| {
        assert View().peers[Find(peers, key)].value == peers[Find(peers, key)].value.View();
        WithoutKeeps(peers, first, key);
      }
    }

    /** The record a handshake datagram is for: the one in the table, or a new one. */
    method DoAdmit(key: Address, now: int) returns (peer: PeerRecord)
      requires Valid()
      modifies this, Objects()
      ensures Valid() && (forall o :: o in Objects() ==> o in old(Objects()) || fresh(o))
      ensures View() == Admit(cfg, old(View()), key, now)
      ensures Has(peers, key) && peers[Find(peers, key)].value == peer && peer.hs.Some?
    {
      FindInView(peers, key);
      var i := Find(peers, key);
      if i == |peers| {
        peer := DoAdmitNew(key, now);
      } else if peers[i].value.hs.None? {
        peer := DoRenew(key, now);
      } else {
        peer := peers[i].value;
      }
    }

    method DoAbandon(key: Address)
      requires Valid() && Has(peers, key)
      modifies this, Objects()
      ensures Valid() && Objects() <= old(Objects())
      ensures Has(old(View()).peers, key) && View() == Abandon(old(View()), key)
    {
      FindInView(peers, key);
      var i := Find(peers, key);
      var peer := peers[i].value;
      assert View().peers[i].value == peer.View();
      if peer.session.None? {
        RemoveAt(i);
      } else {
        Assign(key, None, peer.session, peer.lastSeen);
      }
      pending := pending - 1;
    }

    method DoEstablish(key: Address, transport: Transport, now: int)
      requires Valid() && Has(peers, key)
      modifies this, Objects()
      ensures Valid() && Objects() <= old(Objects())
      ensures Has(old(View()).peers, key) && View() == Establish(cfg, old(View()), key, transport, now)
    {
      FindInView(peers, key);
      Assign(key, None, Some(NewSession(transport)), now);
      pending := pending - 1;
      established := established + 1;
      if established > cfg.maxSessions {
        DoEvictOldestSession(key);
      }
    }

    method DoFeed(key: Address, peer: PeerRecord, body: Bytes, ephemeral: KeyPair, now: int) returns (out: Output)
      requires Valid() && Has(peers, key) && peers[Find(peers, key)].value == peer && peer.hs.Some?
      modifies this, Objects()
      ensures Valid() && Objects() <= old(Objects())
      ensures var t := old(View());
              Has(t.peers, key) && t.peers[Find(t.peers, key)].value.hs.Some?
              && (View(), out) == Feed(cfg, t, key, body, ephemeral, now)
    {
      FindInView(peers, key);
      assert View().peers[Find(peers, key)].value == peer.View();
      var read := ReadMessage(cfg.crypto, peer.hs.value, body);
      if read.outcome.Err? {
        DoAbandon(key);
        return Quiet;
      }
      var transport := read.outcome.value.transport;
      if transport.Some? {
        DoEstablish(key, transport.value, now);
        return Opened(transport.value.remoteStatic);
      }
      var written := WriteMessage(cfg.crypto, read.state, [], ephemeral);
      if written.outcome.Err? {
        Assign(key, Some(read.state), peer.session, now);
        DoAbandon(key);
        return Quiet;
      }
      Assign(key, Some(written.state), peer.session, now);
      return Reply([HANDSHAKE] + written.outcome.value.bytes);
    }

    method DoOnTransport(key: Address, body: Bytes, now: int) returns (out: Output)
      requires Valid()
      modifies Objects()
      ensures Valid()
      ensures (View(), out) == OnTransport(cfg, old(View()), key, body, now)
    {
      FindInView(peers, key);
      var i := Find(peers, key);
      if i == |peers| {
        return Quiet;
      }
      var peer := peers[i].value;
      assert View().peers[i].value == peer.View();
      if peer.session.None? {
        return Quiet;
      }
      var (session, plain) := Open(cfg.crypto, peer.session.value, body);
      if plain.None? {
        Assign(key, peer.hs, Some(session), peer.lastSeen);
        return Quiet;
      }
      Assign(key, peer.hs, Some(session), now);
      return Delivered(plain.value);
    }

    method DoOnDatagram(data: Bytes, key: Address, ephemeral: KeyPair, now: int) returns (out: Output)
      requires Valid()
      modifies this, Objects()
      ensures Valid() && (forall o :: o in Objects() ==> o in old(Objects()) || fresh(o))
      ensures (View(), out) == OnDatagram(cfg, old(View()), data, key, ephemeral, now)
      ensures |data| < 1 || (data[0] != 1 && data[0] != 2) ==> out == Quiet && View() == old(View())
    {
      if |data| < 1 {
        return Quiet;
      }
      if data[0] == HANDSHAKE {
        var peer := DoAdmit(key, now);
        out := DoFeed(key, peer, data[1..], ephemeral, now);
        return;
      }
      if data[0] == TRANSPORT {
        out := DoOnTransport(key, data[1..], now);
        return;
      }
      return Quiet;
    }

    /** The interval timer. */
    method DoSweep(now: int)
      requires Valid()
      modifies this
      ensures Valid() && Objects() <= old(Objects())
      ensures View() == Sweep(old(View()), now - cfg.ttl, 0)
    {
      var cutoff := now - cfg.ttl;
      var i := 0;
      while i < |peers|
        invariant Valid() && i <= |peers| && Objects() <= old(Objects())
        invariant Sweep(View(), cutoff, i) == Sweep(old(View()), cutoff, 0)
        decreases |peers| - i
      {
        var p := peers[i].value;
        assert View().peers[i].value == p.View();
        if p.lastSeen < cutoff {
          DropAt(i);
        } else {
          i := i + 1;
        }
      }
    }

    /** `send` on a session handle, and the datagram it hands to the socket. The handle keeps the
        record it was made for: it goes on sealing after the peer was evicted, without touching the
        table. */
    method DoSend(peer: PeerRecord, plaintext: Bytes) returns (wire: Option<Result<Bytes, Fault>>)
      requires Valid()
      modifies peer
      ensures Valid() && peer.hs == old(peer.hs) && peer.lastSeen == old(peer.lastSeen)
      ensures old(peer.session).None? ==> wire == None && peer.session == None
      ensures old(peer.session).Some? ==>
                var (s, n) := (old(peer.session).value, old(peer.session).value.counter);
                && (n >= NONCE_MAX ==> wire == Some(Err(NonceExhausted)))
                && (n < NONCE_MAX ==>
                      var sealed := SealAt(cfg.crypto, s.send, n, WriteUint64(n), plaintext);
                      wire == Some(Ok([2] + (WriteUint64(n) + sealed))))
                && peer.session == Some(s.(counter := if n >= NONCE_MAX then n else n + 1))
      ensures peer !in Objects() ==> View() == old(View())
      ensures forall i :: 0 <= i < |peers| && peers[i].value == peer && Find(peers, peers[i].key) == i ==>
                View() == SendTo(cfg, old(View()), peers[i].key, plaintext)
    {
      forall i | 0 <= i < |peers| && peers[i].value == peer && Find(peers, peers[i].key) == i
        ensures Find(View().peers, peers[i].key) == i && View().peers[i].value == peer.View()
      {
        FindInView(peers, peers[i].key);
      }
      if peer.session.None? {
        return None;
      }
      var sealed := Seal(cfg.crypto, peer.session.value, plaintext);
      peer.session := Some(sealed.state);
      forall i | 0 <= i < |peers| && peers[i].value == peer
        ensures PeersView(peers) == old(PeersView(peers))[i := Entry(peers[i].key, peer.View())]
      {
        OnlyThisRecord(i);
      }
      return Some(if sealed.outcome.Ok? then Ok([TRANSPORT] + sealed.outcome.value) else sealed.outcome);
    }

    method DoClose()
      requires Valid()
      modifies this
      ensures Valid() && View() == EMPTY_TABLE
    {
      peers, pending, established := [], 0, 0;
    }
  }
}
