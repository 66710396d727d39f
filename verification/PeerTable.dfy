/** The server's peer table as a value: what `createSecureUdpServer` of ts/net/secure-udp.ts
    does to its map and counters on every event. */
module PeerTable {
  import opened Wrappers
  import opened ByteStrings
  import opened OrderedMap
  import opened Crypto
  import opened HandshakeStates
  import opened NoiseSessions

  const HANDSHAKE: byte := 1
  const TRANSPORT: byte := 2

  /** `address:port` of a datagram's sender. */
  type Address = string

  datatype Config = Config(crypto: Suite, staticKey: KeyPair, maxPending: int, maxSessions: int, ttl: int)

  datatype Peer = Peer(hs: Option<Handshake>, session: Option<Session>, lastSeen: int)

  type Peers = seq<Entry<Address, Peer>>

  datatype Table = Table(peers: Peers, pending: int, established: int)

  const EMPTY_TABLE := Table([], 0, 0)

  /** What one datagram makes the server do: send a datagram back, announce a session, or deliver. */
  datatype Output =
    | Quiet
    | Reply(datagram: Bytes)
    | Opened(remoteStatic: Bytes)
    | Delivered(plaintext: Bytes)

  predicate IsHalfOpen(p: Peer) {
    p.hs.Some? && p.session.None?
  }

  predicate IsSettled(p: Peer) {
    p.session.Some? && p.hs.None?
  }

  /** The earliest-inserted half-open peer, or |peers|. */
  function FirstHalfOpen(peers: Peers): (i: nat)
    ensures i <= |peers|
    ensures i < |peers| ==> IsHalfOpen(peers[i].value)
    ensures forall j :: 0 <= j < i ==> !IsHalfOpen(peers[j].value)
  {
    if peers == [] || IsHalfOpen(peers[0].value) then 0
    else
      var rest := FirstHalfOpen(peers[1..]);
      assert forall j :: 1 <= j < 1 + rest ==> peers[j] == peers[1..][j - 1];
      1 + rest
  }

  /** The earliest-inserted peer other than `except` with a session and no handshake, or |peers|. */
  function FirstSettled(peers: Peers, except: Address): (i: nat)
    ensures i <= |peers|
    ensures i < |peers| ==> IsSettled(peers[i].value) && peers[i].key != except
    ensures forall j :: 0 <= j < i ==> !IsSettled(peers[j].value) || peers[j].key == except
  {
    if peers == [] || (peers[0].key != except && IsSettled(peers[0].value)) then 0
    else
      var rest := FirstSettled(peers[1..], except);
      assert forall j :: 1 <= j < 1 + rest ==> peers[j] == peers[1..][j - 1];
      1 + rest
  }

  /** Drops the peer at `i` and whatever it counted for. */
  function Drop(t: Table, i: nat): Table
    requires i < |t.peers|
  {
    var p := t.peers[i].value;
    Table(Without(t.peers, i),
          t.pending - (if p.hs.Some? then 1 else 0),
          t.established - (if p.session.Some? then 1 else 0))
  }

  function Forget(t: Table, key: Address): Table {
    if Has(t.peers, key) then Drop(t, Find(t.peers, key)) else t
  }

  function EvictOldestPending(t: Table): Table {
    var i := FirstHalfOpen(t.peers);
    if i < |t.peers| then Drop(t, i) else t
  }

  function EvictOldestSession(t: Table, except: Address): Table {
    var i := FirstSettled(t.peers, except);
    if i < |t.peers| then Drop(t, i) else t
  }

  function MakeRoom(cfg: Config, t: Table): Table {
    if t.pending >= cfg.maxPending then EvictOldestPending(t) else t
  }

  function Responder(cfg: Config): Handshake {
    Start(cfg.crypto, false, cfg.staticKey, [])
  }

  /** The table in which `key` has a handshake to feed: a new peer, a renewal, or the one it had. */
  function Admit(cfg: Config, t: Table, key: Address, now: int): (t1: Table)
    ensures Has(t1.peers, key) && t1.peers[Find(t1.peers, key)].value.hs.Some?
  {
    if !Has(t.peers, key) then
      var room := MakeRoom(cfg, t);
      var entry := Entry(key, Peer(Some(Responder(cfg)), None, now));
      var peers := room.peers + [entry];
      assert peers[|room.peers|] == entry;
      HasIffSome(peers, key);
      EvictionKeepsOthers(cfg, t, key);
      room.(peers := peers, pending := room.pending + 1)
    else
      var peer := t.peers[Find(t.peers, key)].value;
      if peer.hs.Some? then t
      else
        EvictionKeepsOthers(cfg, t, key);
        var room := MakeRoom(cfg, t);
        var t1 := Replace(room, key, peer.(hs := Some(Responder(cfg))));
        t1.(pending := t1.pending + 1)
  }

  /** Eviction for a new handshake drops only a half-open peer: never one that is being served. */
  lemma EvictionKeepsOthers(cfg: Config, t: Table, key: Address)
    ensures !Has(t.peers, key) ==> !Has(MakeRoom(cfg, t).peers, key)
    ensures Has(t.peers, key) && t.peers[Find(t.peers, key)].value.hs.None?
        ==> Has(MakeRoom(cfg, t).peers, key)
            && MakeRoom(cfg, t).peers[Find(MakeRoom(cfg, t).peers, key)] == t.peers[Find(t.peers, key)]
  {
    var e := FirstHalfOpen(t.peers);
    if e < |t.peers| && e != Find(t.peers, key) {
      WithoutKeeps(t.peers, e, key);
    }
  }

  function Replace(t: Table, key: Address, p: Peer): (t1: Table)
    requires Has(t.peers, key)
    ensures Has(t1.peers, key) && t1.peers[Find(t1.peers, key)] == Entry(key, p)
    ensures Find(t1.peers, key) == Find(t.peers, key)
  {
    var i := Find(t.peers, key);
    var peers := t.peers[i := Entry(key, p)];
    assert peers[i].key == key && forall j :: 0 <= j < i ==> peers[j].key != key;
    HasIffSome(peers, key);
    assert Find(peers, key) == i;
    t.(peers := peers)
  }

  /** A bad handshake datagram: the handshake goes, an established session stays. */
  function Abandon(t: Table, key: Address): Table
    requires Has(t.peers, key)
  {
    var i := Find(t.peers, key);
    var p := t.peers[i].value;
    if p.session.None? then t.(peers := Without(t.peers, i), pending := t.pending - 1)
    else Replace(t, key, p.(hs := None)).(pending := t.pending - 1)
  }

  /** A completed handshake: the new session replaces the old, and the cap is enforced once. */
  function Establish(cfg: Config, t: Table, key: Address, transport: Transport, now: int): Table
    requires Has(t.peers, key)
  {
    var t1 := Replace(t, key, Peer(None, Some(NewSession(transport)), now));
    var t2 := t1.(pending := t.pending - 1, established := t.established + 1);
    if t2.established > cfg.maxSessions then EvictOldestSession(t2, key) else t2
  }

  /** Feeds a handshake datagram to the handshake `key` has in the table. */
  function Feed(cfg: Config, t: Table, key: Address, body: Bytes, ephemeral: KeyPair, now: int): (Table, Output)
    requires Has(t.peers, key) && t.peers[Find(t.peers, key)].value.hs.Some?
  {
    var peer := t.peers[Find(t.peers, key)].value;
    var read := ReadMessage(cfg.crypto, peer.hs.value, body);
    if read.outcome.Err? then (Abandon(t, key), Quiet)
    else
      var seen := peer.(hs := Some(read.state), lastSeen := now);
      match read.outcome.value.transport
      case Some(transport) => (Establish(cfg, t, key, transport, now), Opened(transport.remoteStatic))
      case None =>
        var written := WriteMessage(cfg.crypto, read.state, [], ephemeral);
        if written.outcome.Err? then (Abandon(Replace(t, key, seen), key), Quiet)
        else (Replace(t, key, seen.(hs := Some(written.state))), Reply([HANDSHAKE] + written.outcome.value.bytes))
  }

  function OnHandshake(cfg: Config, t: Table, key: Address, body: Bytes, ephemeral: KeyPair, now: int): (Table,
                       Output) {
    Feed(cfg, Admit(cfg, t, key, now), key, body, ephemeral, now)
  }

  function OnTransport(cfg: Config, t: Table, key: Address, body: Bytes, now: int): (Table, Output) {
    if !Has(t.peers, key) then (t, Quiet)
    else
      var peer := t.peers[Find(t.peers, key)].value;
      if peer.session.None? then (t, Quiet)
      else
        var (session, plain) := Open(cfg.crypto, peer.session.value, body);
        if plain.None? then (Replace(t, key, peer.(session := Some(session))), Quiet)
        else (Replace(t, key, peer.(session := Some(session), lastSeen := now)), Delivered(plain.value))
  }

  function OnDatagram(cfg: Config, t: Table, data: Bytes, key: Address, ephemeral: KeyPair, now: int): (Table, Output) {
    if |data| < 1 then (t, Quiet)
    else if data[0] == HANDSHAKE then OnHandshake(cfg, t, key, data[1..], ephemeral, now)
    else if data[0] == TRANSPORT then OnTransport(cfg, t, key, data[1..], now)
    else (t, Quiet)
  }

  /** The interval timer: forget every peer last seen before the cutoff, oldest first. */
  function Sweep(t: Table, cutoff: int, from: nat): Table
    requires from <= |t.peers|
    decreases |t.peers| - from
  {
    if from == |t.peers| then t
    else if t.peers[from].value.lastSeen < cutoff then Sweep(Drop(t, from), cutoff, from)
    else Sweep(t, cutoff, from + 1)
  }

  /** `send` on a session handle whose peer is in the table advances that session's counter. */
  function SendTo(cfg: Config, t: Table, key: Address, plaintext: Bytes): Table {
    if !Has(t.peers, key) then t
    else
      var peer := t.peers[Find(t.peers, key)].value;
      if peer.session.None? then t
      else Replace(t, key, peer.(session := Some(Seal(cfg.crypto, peer.session.value, plaintext).state)))
  }

  datatype Event =
    | Datagram(data: Bytes, key: Address, ephemeral: KeyPair, now: int)
    | HandleCloses(key: Address)
    | HandleSends(key: Address, plaintext: Bytes)
    | TimerSweeps(now: int)
    | ServerCloses

  function Step(cfg: Config, t: Table, e: Event): Table {
    match e
    case Datagram(data, key, ephemeral, now) => OnDatagram(cfg, t, data, key, ephemeral, now).0
    case HandleCloses(key) => Forget(t, key)
    case HandleSends(key, plaintext) => SendTo(cfg, t, key, plaintext)
    case TimerSweeps(now) => Sweep(t, now - cfg.ttl, 0)
    case ServerCloses => EMPTY_TABLE
  }
}
