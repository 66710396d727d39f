/** What a server delivers over a whole run of ts/net/secure-udp.ts, across handshakes,
    re-handshakes, sweeps and evictions: nothing twice in a session, and everything new in time. */
module PeerTableDelivery {
  import opened Wrappers
  import opened ByteStrings
  import opened OrderedMap
  import opened Crypto
  import opened CipherStates
  import opened ReplayFilters
  import opened HandshakeStates
  import opened NoiseSessions
  import opened PeerTable
  import opened PeerTableAgreement
  import opened PeerTableCap
  import DatagramLink
  import PeerTableSafety

  /** One delivery: the session it went to, the datagram, and the counter and plaintext in it. */
  datatype Delivery = Delivery(session: nat, wire: Bytes, n: nat, plaintext: Bytes)

  /** The table with what happened so far: the receiving cipher of every session opened, in order,
      the number of the latest session of each address, and the deliveries. */
  datatype World = World(t: Table, ciphers: seq<Cipher>, latest: map<Address, nat>, log: seq<Delivery>)

  function Output(cfg: Config, t: Table, e: Event): PeerTable.Output {
    if e.Datagram? then OnDatagram(cfg, t, e.data, e.key, e.ephemeral, e.now).1 else Quiet
  }

  /** A new session of `key` has the next number. */
  function Opening(w: World, t1: Table, key: Address, recv: Cipher): World {
    World(t1, w.ciphers + [recv], w.latest[key := |w.ciphers|], w.log)
  }

  function Next(cfg: Config, w: World, e: Event): World {
    var (t1, output) := (Step(cfg, w.t, e), Output(cfg, w.t, e));
    if output.Opened? && SessionOf(t1, e.key).Some? then
      Opening(w, t1, e.key, SessionOf(t1, e.key).value.recv)
    else if output.Delivered? && e.key in w.latest && SessionOf(w.t, e.key).Some? then
      var (session, wire) := (SessionOf(w.t, e.key).value, e.data[1..]);
      var read := Authenticate(cfg.crypto, session.recv, wire);
      if read.None? then w.(t := t1)
      else w.(t := t1, log := w.log + [Delivery(w.latest[e.key], wire, read.value.0, output.plaintext)])
    else w.(t := t1)
  }

  /** What was delivered to one session. */
  function To(log: seq<Delivery>, session: nat): seq<(nat, Bytes)> {
    if log == [] then []
    else
      var (front, last) := (log[..|log| - 1], log[|log| - 1]);
      To(front, session) + if last.session == session then [(last.n, last.plaintext)] else []
  }

  lemma ToSnoc(log: seq<Delivery>, d: Delivery, session: nat)
    ensures To(log + [d], session)
         == if d.session == session then To(log, session) + [(d.n, d.plaintext)] else To(log, session)
  {
    assert (log + [d])[..|log|] == log;
  }

  lemma {:induction false} ToNone(log: seq<Delivery>, session: nat)
    requires forall i :: 0 <= i < |log| ==> log[i].session != session
    ensures To(log, session) == []
  {
    if log != [] {
      ToNone(log[..|log| - 1], session);
    }
  }

  lemma {:induction false} CountersAre(log: seq<Delivery>, session: nat, n: int)
    ensures n in DatagramLink.Counters(To(log, session))
       <==> exists i :: 0 <= i < |log| && log[i].session == session && log[i].n == n
  {
    if log != [] {
      var (front, last) := (log[..|log| - 1], log[|log| - 1]);
      CountersAre(front, session, n);
      var more := To(front, session) + [(last.n, last.plaintext)];
      assert more[..|more| - 1] == To(front, session);
      assert To(log, session) == if last.session == session then more else To(front, session);
      assert forall i :: 0 <= i < |front| ==> front[i] == log[i];
    }
  }

  lemma {:induction false} HighestIs(log: seq<Delivery>, session: nat, bound: nat)
    ensures DatagramLink.Highest(To(log, session)) < bound
       <==> forall i :: 0 <= i < |log| && log[i].session == session ==> log[i].n < bound
  {
    if log != [] {
      var (front, last) := (log[..|log| - 1], log[|log| - 1]);
      HighestIs(front, session, bound);
      var more := To(front, session) + [(last.n, last.plaintext)];
      assert more[..|more| - 1] == To(front, session);
      assert To(log, session) == if last.session == session then more else To(front, session);
      assert forall i :: 0 <= i < |front| ==> front[i] == log[i];
    }
  }

  // ----- The invariant -----

  /** The filter answers as one that remembers all of `delivered`. */
  ghost predicate Filters(replay: Filter, delivered: seq<(nat, Bytes)>) {
    Refines(replay, History(DatagramLink.Highest(delivered), DatagramLink.Counters(delivered)))
  }

  /** The session that `key` has is its latest, and its filter remembers what went to it. */
  ghost predicate Remembers(w: World, key: Address) {
    SessionOf(w.t, key).Some? ==>
      && key in w.latest && w.latest[key] < |w.ciphers|
      && var (session, delivered) := (SessionOf(w.t, key).value, To(w.log, w.latest[key]));
         && session.recv == w.ciphers[w.latest[key]]
         && Filters(session.replay, delivered)
  }

  ghost predicate Numbered(w: World) {
    && (forall k :: k in w.latest ==> w.latest[k] < |w.ciphers|)
    && (forall k, l :: k in w.latest && l in w.latest && k != l ==> w.latest[k] != w.latest[l])
  }

  /** Every delivery authenticated in the session it went to. */
  ghost predicate Authentic(cfg: Config, w: World) {
    forall i :: 0 <= i < |w.log| ==>
      && w.log[i].session < |w.ciphers|
      && Authenticate(cfg.crypto, w.ciphers[w.log[i].session], w.log[i].wire) == Some((w.log[i].n, w.log[i].plaintext))
  }

  /** No session is delivered one counter twice. */
  ghost predicate AtMostOnce(log: seq<Delivery>) {
    forall i, j :: 0 <= i < j < |log| && log[i].session == log[j].session ==> log[i].n != log[j].n
  }

  ghost predicate Consistent(cfg: Config, w: World) {
    && Unique(w.t.peers)
    && (forall k :: Remembers(w, k))
    && Numbered(w) && Authentic(cfg, w) && AtMostOnce(w.log)
  }

  // ----- What an event leaves of the sessions -----

  /** As it was, or gone. */
  predicate SameOrGone(s: Option<Session>, s1: Option<Session>) {
    s1 == s || s1 == None
  }

  /** Every session but that of `except` is as it was, or gone. */
  ghost predicate Leaves(t: Table, t1: Table, except: Option<Address>) {
    && Unique(t1.peers)
    && forall k :: Some(k) != except ==> SameOrGone(SessionOf(t, k), SessionOf(t1, k))
  }

  lemma SessionIs(t: Table, key: Address)
    ensures SessionOf(t, key) == if Get(t.peers, key).Some? then Get(t.peers, key).value.session else None
  {
  }

  lemma WithoutLeaves(t: Table, t1: Table, i: nat)
    requires Unique(t.peers) && i < |t.peers| && t1.peers == Without(t.peers, i)
    ensures Leaves(t, t1, None)
  {
    FindIs(t.peers, i);
    assert t1.peers == Delete(t.peers, t.peers[i].key);
    DeleteIsExact(t.peers, t.peers[i].key);
    forall k ensures SameOrGone(SessionOf(t, k), SessionOf(t1, k)) {
      SessionIs(t, k);
      SessionIs(t1, k);
      assert k != t.peers[i].key ==> Get(t1.peers, k) == Get(t.peers, k);
    }
  }

  lemma PutLeaves(t: Table, t1: Table, key: Address, p: Peer)
    requires Unique(t.peers) && t1.peers == Put(t.peers, key, p)
    ensures Leaves(t, t1, Some(key)) && SessionOf(t1, key) == p.session
    ensures SameOrGone(SessionOf(t, key), p.session) ==> Leaves(t, t1, None)
  {
    PutIsExact(t.peers, key, p);
    forall k ensures if k == key then SessionOf(t1, k) == p.session else SessionOf(t1, k) == SessionOf(t, k) {
      SessionIs(t, k);
      SessionIs(t1, k);
      assert k != key ==> Get(t1.peers, k) == Get(t.peers, k);
    }
  }

  lemma LeavesBoth(t: Table, t1: Table, t2: Table, except: Option<Address>)
    requires Leaves(t, t1, None) && Leaves(t1, t2, except)
    ensures Leaves(t, t2, except)
  {
  }

  lemma ReplaceLeaves(t: Table, t1: Table, key: Address, p: Peer)
    requires Unique(t.peers) && Has(t.peers, key) && t1.peers == Replace(t, key, p).peers
    ensures Leaves(t, t1, Some(key)) && SessionOf(t1, key) == p.session
    ensures SameOrGone(SessionOf(t, key), p.session) ==> Leaves(t, t1, None)
  {
    PutLeaves(t, t1, key, p);
  }

  lemma LeavesItself(t: Table)
    requires Unique(t.peers)
    ensures Leaves(t, t, None)
  {
  }

  lemma MakeRoomLeaves(cfg: Config, t: Table)
    requires Unique(t.peers)
    ensures Leaves(t, MakeRoom(cfg, t), None)
  {
    LeavesItself(t);
    var i := FirstHalfOpen(t.peers);
    if i < |t.peers| {
      WithoutLeaves(t, Drop(t, i), i);
    }
  }

  lemma AdmitLeaves(cfg: Config, t: Table, key: Address, now: int)
    requires Unique(t.peers)
    ensures Leaves(t, Admit(cfg, t, key, now), None)
  {
    hide Leaves, MakeRoom, Responder;
    var (room, t1) := (MakeRoom(cfg, t), Admit(cfg, t, key, now));
    LeavesItself(t);
    MakeRoomLeaves(cfg, t);
    EvictionKeepsOthers(cfg, t, key);
    LeavesUnique(t, room, None);
    if !Has(t.peers, key) {
      PutLeaves(room, t1, key, Peer(Some(Responder(cfg)), None, now));
      LeavesBoth(t, room, t1, None);
    } else if t.peers[Find(t.peers, key)].value.hs.None? {
      ReplaceLeaves(room, t1, key, t.peers[Find(t.peers, key)].value.(hs := Some(Responder(cfg))));
      LeavesBoth(t, room, t1, None);
    }
  }

  lemma LeavesUnique(t: Table, t1: Table, except: Option<Address>)
    requires Leaves(t, t1, except)
    ensures Unique(t1.peers)
  {
  }

  lemma AbandonLeaves(t: Table, key: Address)
    requires Unique(t.peers) && Has(t.peers, key)
    ensures Leaves(t, Abandon(t, key), None)
  {
    hide Leaves;
    var i := Find(t.peers, key);
    var p := t.peers[i].value;
    if p.session.None? {
      WithoutLeaves(t, Abandon(t, key), i);
    } else {
      ReplaceLeaves(t, Abandon(t, key), key, p.(hs := None));
    }
  }

  lemma FeedLeaves(cfg: Config, t: Table, key: Address, body: Bytes, ephemeral: KeyPair, now: int)
    requires Unique(t.peers) && Has(t.peers, key) && t.peers[Find(t.peers, key)].value.hs.Some?
    ensures var (t1, output) := Feed(cfg, t, key, body, ephemeral, now);
            !output.Opened? ==> Leaves(t, t1, None)
  {
    hide Leaves, ReadMessage, WriteMessage, Abandon, Establish, Replace;
    var peer := t.peers[Find(t.peers, key)].value;
    var read := ReadMessage(cfg.crypto, peer.hs.value, body);
    if read.outcome.Err? {
      AbandonLeaves(t, key);
    } else if read.outcome.value.transport.None? {
      var written := WriteMessage(cfg.crypto, read.state, [], ephemeral);
      var seen := peer.(hs := Some(read.state), lastSeen := now);
      var t1 := Replace(t, key, seen);
      ReplaceLeaves(t, Replace(t, key, seen.(hs := Some(written.state))), key, seen.(hs := Some(written.state)));
      ReplaceLeaves(t, t1, key, seen);
      LeavesUnique(t, t1, None);
      AbandonLeaves(t1, key);
      LeavesBoth(t, t1, Abandon(t1, key), None);
    }
  }

  lemma EstablishLeavesOthers(cfg: Config, t: Table, key: Address, transport: Transport, now: int)
    requires Unique(t.peers) && Has(t.peers, key)
    ensures var t1 := Establish(cfg, t, key, transport, now);
            Leaves(t, t1, Some(key)) && SessionOf(t1, key) == Some(NewSession(transport))
  {
    hide FirstSettled;
    var p := Peer(None, Some(NewSession(transport)), now);
    var t2 := Replace(t, key, p).(pending := t.pending - 1, established := t.established + 1);
    ReplaceLeaves(t, t2, key, p);
    var i := FirstSettled(t2.peers, key);
    if i < |t2.peers| {
      WithoutLeaves(t2, Drop(t2, i), i);
    }
    EstablishKeeps(cfg, t, key, transport, now);
  }

  /** A completed handshake gives its address a new session with an empty filter; any other
      handshake datagram leaves all sessions as they are. */
  lemma HandshakeLeaves(cfg: Config, t: Table, key: Address, body: Bytes, ephemeral: KeyPair, now: int)
    requires Unique(t.peers)
    ensures var (t1, output) := OnHandshake(cfg, t, key, body, ephemeral, now);
            && Leaves(t, t1, if output.Opened? then Some(key) else None)
            && (output.Opened? ==>
                  && SessionOf(t1, key).Some? && SessionOf(t1, key).value.replay == EMPTY_FILTER
                  && SessionOf(t1, key).value.send.key.Some? && SessionOf(t1, key).value.counter == 0)
            && !output.Delivered?
  {
    hide Leaves, Feed, Admit, Establish;
    HandshakeDeliversNothing(cfg, Admit(cfg, t, key, now), key, body, ephemeral, now);
    if OnHandshake(cfg, t, key, body, ephemeral, now).1.Opened? {
      var transport := OpenedEstablishes(cfg, t, key, body, ephemeral, now);
      EstablishLeavesOthers(cfg, t, key, transport, now);
    } else {
      var t0 := Admit(cfg, t, key, now);
      AdmitLeaves(cfg, t, key, now);
      LeavesUnique(t, t0, None);
      FeedLeaves(cfg, t0, key, body, ephemeral, now);
      LeavesBoth(t, t0, Feed(cfg, t0, key, body, ephemeral, now).0, None);
    }
  }

  lemma HandshakeDeliversNothing(cfg: Config, t: Table, key: Address, body: Bytes, ephemeral: KeyPair, now: int)
    requires Has(t.peers, key) && t.peers[Find(t.peers, key)].value.hs.Some?
    ensures !Feed(cfg, t, key, body, ephemeral, now).1.Delivered?
  {
    hide ReadMessage, WriteMessage, Abandon, Establish, Replace;
  }

  /** A transport datagram is delivered to the session of its address, whose filter takes its
      counter; or it leaves the table as it is. */
  lemma TransportLeaves(cfg: Config, t: Table, key: Address, body: Bytes, now: int)
    requires Unique(t.peers)
    ensures var (t1, output) := OnTransport(cfg, t, key, body, now);
            if output.Delivered? then Delivers(cfg, t, t1, key, body, output.plaintext)
            else output == Quiet && t1 == t
  {
    hide Leaves, Check, Authenticate;
    RejectedTransportChangesNothing(cfg, t, key, body, now);
    if OnTransport(cfg, t, key, body, now).1.Delivered? {
      var peer := t.peers[Find(t.peers, key)].value;
      var (session, plain) := Open(cfg.crypto, peer.session.value, body);
      ReplaceLeaves(t, OnTransport(cfg, t, key, body, now).0, key, peer.(session := Some(session), lastSeen := now));
    }
  }

  /** `wire` is new to the session of `key` and opens as `plaintext`; the filter takes its counter. */
  ghost predicate Delivers(cfg: Config, t: Table, t1: Table, key: Address, wire: Bytes, plaintext: Bytes) {
    && SessionOf(t, key).Some? && SessionOf(t1, key).Some? && Leaves(t, t1, Some(key))
    && var (s, s1) := (SessionOf(t, key).value, SessionOf(t1, key).value);
       var read := Authenticate(cfg.crypto, s.recv, wire);
       && read.Some? && read.value.1 == plaintext
       && s1 == s.(replay := s1.replay) && (s1.replay, true) == Check(s.replay, read.value.0)
  }

  lemma {:induction false} SweepLeaves(t: Table, cutoff: int, from: nat)
    requires Unique(t.peers) && from <= |t.peers|
    ensures Leaves(t, Sweep(t, cutoff, from), None)
    decreases |t.peers| - from
  {
    hide Leaves;
    LeavesItself(t);
    if from < |t.peers| {
      if t.peers[from].value.lastSeen < cutoff {
        WithoutLeaves(t, Drop(t, from), from);
        LeavesUnique(t, Drop(t, from), None);
        SweepLeaves(Drop(t, from), cutoff, from);
        LeavesBoth(t, Drop(t, from), Sweep(t, cutoff, from), None);
      } else {
        SweepLeaves(t, cutoff, from + 1);
      }
    }
  }

  /** A send moves the counter of the session it is sealed in, and nothing else. */
  lemma SendLeaves(cfg: Config, t: Table, key: Address, plaintext: Bytes)
    requires Unique(t.peers)
    ensures var (s, t1) := (SessionOf(t, key), SendTo(cfg, t, key, plaintext));
            && Leaves(t, t1, Some(key))
            && (s.None? ==> t1 == t)
            && (s.Some? ==>
                  var sealed := if s.value.counter < NONCE_MAX then 1 else 0;
                  SessionOf(t1, key) == Some(s.value.(counter := s.value.counter + sealed)))
  {
    hide NoiseSessions.Datagram;
    LeavesItself(t);
    if Has(t.peers, key) && t.peers[Find(t.peers, key)].value.session.Some? {
      var peer := t.peers[Find(t.peers, key)].value;
      var p := peer.(session := Some(Seal(cfg.crypto, peer.session.value, plaintext).state));
      ReplaceLeaves(t, SendTo(cfg, t, key, plaintext), key, p);
    }
  }

  lemma OtherEventLeaves(cfg: Config, t: Table, e: Event)
    requires Unique(t.peers) && !e.Datagram? && !e.HandleSends?
    ensures Leaves(t, Step(cfg, t, e), None)
  {
    hide Sweep, SendTo;
    LeavesItself(t);
    match e {
      case HandleCloses(key) =>
        if Has(t.peers, key) {
          WithoutLeaves(t, Drop(t, Find(t.peers, key)), Find(t.peers, key));
        }
      case TimerSweeps(now) => SweepLeaves(t, now - cfg.ttl, 0);
      case ServerCloses =>
    }
  }

  // ----- Every event, and every run -----

  /** Nothing opened and nothing delivered: what was consistent is. */
  lemma LeavingIsConsistent(cfg: Config, w: World, t1: Table)
    requires Consistent(cfg, w) && Leaves(w.t, t1, None)
    ensures Consistent(cfg, w.(t := t1))
  {
    forall k ensures Remembers(w.(t := t1), k) {
      assert Remembers(w, k);
    }
  }

  /** What a send does to its session is nothing to its receiving half. */
  lemma SendingIsConsistent(cfg: Config, w: World, t1: Table, key: Address)
    requires Consistent(cfg, w) && Leaves(w.t, t1, Some(key))
    requires SessionOf(t1, key).Some? ==>
               SessionOf(w.t, key).Some?
               && SessionOf(t1, key).value.recv == SessionOf(w.t, key).value.recv
               && SessionOf(t1, key).value.replay == SessionOf(w.t, key).value.replay
    ensures Consistent(cfg, w.(t := t1))
  {
    forall k ensures Remembers(w.(t := t1), k) {
      assert Remembers(w, k);
    }
  }

  /** A new session has a number of its own, to which nothing was delivered. */
  lemma OpeningIsConsistent(cfg: Config, w: World, t1: Table, key: Address)
    requires Consistent(cfg, w) && Leaves(w.t, t1, Some(key))
    requires SessionOf(t1, key).Some? && SessionOf(t1, key).value.replay == EMPTY_FILTER
    ensures Consistent(cfg, Opening(w, t1, key, SessionOf(t1, key).value.recv))
  {
    hide Filters, Authenticate;
    var w1 := Opening(w, t1, key, SessionOf(t1, key).value.recv);
    ToNone(w.log, |w.ciphers|);
    EmptyRemembers();
    forall k ensures Remembers(w1, k) {
      assert Remembers(w, k);
    }
    assert forall i :: 0 <= i < |w.log| ==> w1.ciphers[w.log[i].session] == w.ciphers[w.log[i].session];
  }

  lemma EmptyRemembers()
    ensures Filters(EMPTY_FILTER, [])
  {
  }

  /** A delivery is the first of its counter in its session, and only that session notes it. */
  lemma DeliveringIsConsistent(cfg: Config, w: World, t1: Table, key: Address, wire: Bytes, plaintext: Bytes)
    requires Consistent(cfg, w) && Delivers(cfg, w.t, t1, key, wire, plaintext)
    ensures key in w.latest
    ensures var n := Authenticate(cfg.crypto, SessionOf(w.t, key).value.recv, wire).value.0;
            Consistent(cfg, w.(t := t1, log := w.log + [Delivery(w.latest[key], wire, n, plaintext)]))
  {
    hide Authenticate, Filters, Check;
    assert Remembers(w, key);
    var (s, id) := (SessionOf(w.t, key).value, w.latest[key]);
    var n := Authenticate(cfg.crypto, s.recv, wire).value.0;
    var d := Delivery(id, wire, n, plaintext);
    var w1 := w.(t := t1, log := w.log + [d]);
    DeliveryIsRemembered(w.log, d, s.replay);
    CountersAre(w.log, id, n);
    CheckIsNew(s.replay, To(w.log, id), n);
    forall k ensures Remembers(w1, k) {
      assert Remembers(w, k);
      if k == key {
        assert SessionOf(t1, k).value.replay == Check(s.replay, n).0;
      } else if k in w.latest {
        ToSnoc(w.log, d, w.latest[k]);
      }
    }
  }

  lemma CheckIsNew(replay: Filter, delivered: seq<(nat, Bytes)>, n: nat)
    requires Filters(replay, delivered)
    ensures Check(replay, n).1
       <==> n !in DatagramLink.Counters(delivered) && DatagramLink.Highest(delivered) < n + 1024
  {
    CheckRefines(replay, History(DatagramLink.Highest(delivered), DatagramLink.Counters(delivered)), n);
  }

  /** The filter that took a counter remembers its delivery. */
  lemma DeliveryIsRemembered(log: seq<Delivery>, d: Delivery, replay: Filter)
    requires Filters(replay, To(log, d.session)) && Check(replay, d.n).1
    ensures Filters(Check(replay, d.n).0, To(log + [d], d.session))
  {
    hide Check, Refines, To;
    var before := To(log, d.session);
    var after := before + [(d.n, d.plaintext)];
    ToSnoc(log, d, d.session);
    CheckRefines(replay, History(DatagramLink.Highest(before), DatagramLink.Counters(before)), d.n);
    assert after[..|after| - 1] == before;
  }

  lemma StepIsConsistent(cfg: Config, w: World, e: Event)
    requires Consistent(cfg, w)
    ensures Consistent(cfg, Next(cfg, w, e))
  {
    hide Consistent, Leaves, OnHandshake, OnTransport, Authenticate, SessionOf;
    var t1 := Step(cfg, w.t, e);
    KeysAreUnique(cfg, w);
    if e.HandleSends? {
      SendLeaves(cfg, w.t, e.key, e.plaintext);
      SendingIsConsistent(cfg, w, t1, e.key);
    } else if !e.Datagram? {
      OtherEventLeaves(cfg, w.t, e);
      LeavingIsConsistent(cfg, w, t1);
    } else if |e.data| > 0 && e.data[0] == HANDSHAKE {
      HandshakeLeaves(cfg, w.t, e.key, e.data[1..], e.ephemeral, e.now);
      if Output(cfg, w.t, e).Opened? {
        OpeningIsConsistent(cfg, w, t1, e.key);
      } else {
        LeavingIsConsistent(cfg, w, t1);
      }
    } else if |e.data| > 0 && e.data[0] == TRANSPORT {
      TransportLeaves(cfg, w.t, e.key, e.data[1..], e.now);
      if Output(cfg, w.t, e).Delivered? {
        DeliveringIsConsistent(cfg, w, t1, e.key, e.data[1..], Output(cfg, w.t, e).plaintext);
      }
    }
  }

  lemma KeysAreUnique(cfg: Config, w: World)
    requires Consistent(cfg, w)
    ensures Unique(w.t.peers)
  {
  }

  function Run(cfg: Config, w: World, events: seq<Event>): World
    decreases |events|
  {
    if events == [] then w else Run(cfg, Next(cfg, w, events[0]), events[1..])
  }

  lemma {:induction false} RunIsConsistent(cfg: Config, w: World, events: seq<Event>)
    requires Consistent(cfg, w)
    ensures Consistent(cfg, Run(cfg, w, events))
    decreases |events|
  {
    hide Consistent, Next;
    if events != [] {
      StepIsConsistent(cfg, w, events[0]);
      RunIsConsistent(cfg, Next(cfg, w, events[0]), events[1..]);
    }
  }

  // ----- The theorems -----

  predicate Begins(w: World) {
    w == World(EMPTY_TABLE, [], map[], [])
  }

  lemma BeginIsConsistent(cfg: Config, start: World)
    requires Begins(start)
    ensures Consistent(cfg, start)
  {
  }

  /** What the world adds to the server's table changes nothing in it. */
  lemma {:induction false} TableIsTheServers(cfg: Config, w: World, events: seq<Event>)
    ensures Run(cfg, w, events).t == PeerTableSafety.Run(cfg, w.t, events)
    decreases |events|
  {
    hide Step, Output, SessionOf, Authenticate;
    if events != [] {
      TableIsTheServers(cfg, Next(cfg, w, events[0]), events[1..]);
    }
  }

  /** The log misses nothing: an event adds to it exactly what the server delivers. */
  lemma DeliveriesAreLogged(cfg: Config, w: World, e: Event)
    requires Consistent(cfg, w)
    ensures var (output, w1) := (Output(cfg, w.t, e), Next(cfg, w, e));
            if output.Delivered? then
              |w1.log| == |w.log| + 1 && w1.log[..|w.log|] == w.log
              && e.key in w.latest && w1.log[|w.log|].session == w.latest[e.key]
              && w1.log[|w.log|].wire == e.data[1..] && w1.log[|w.log|].plaintext == output.plaintext
            else w1.log == w.log
  {
    hide Leaves, OnHandshake, OnTransport, Authenticate, SessionOf, Authentic, AtMostOnce, Numbered, Filters, To;
    if e.Datagram? && |e.data| > 0 && e.data[0] == HANDSHAKE {
      HandshakeLeaves(cfg, w.t, e.key, e.data[1..], e.ephemeral, e.now);
    } else if e.Datagram? && |e.data| > 0 && e.data[0] == TRANSPORT {
      TransportLeaves(cfg, w.t, e.key, e.data[1..], e.now);
      assert Remembers(w, e.key);
    }
  }

  /** Over every run of a server, whatever arrives, is sent, closed, swept or evicted: no session is
      delivered one counter twice, every delivery authenticates in its session, and so the same
      datagram is delivered twice only if it authenticates in two different sessions. */
  lemma NothingIsDeliveredTwice(cfg: Config, start: World, events: seq<Event>)
    requires Begins(start)
    ensures var w := Run(cfg, start, events);
            && w.t == PeerTableSafety.Run(cfg, start.t, events)
            && AtMostOnce(w.log) && Authentic(cfg, w)
            && forall i, j :: 0 <= i < j < |w.log| && w.log[i].wire == w.log[j].wire ==>
                                w.log[i].session != w.log[j].session
  {
    hide Run, Authenticate;
    BeginIsConsistent(cfg, start);
    RunIsConsistent(cfg, start, events);
    TableIsTheServers(cfg, start, events);
  }

  /** And everything that is new in time is delivered: after every run, a datagram sealed by the
      other end of the session its address has is delivered if and only if its counter was not
      delivered to that session before and is less than 1024 behind all that were. */
  lemma NewIsDelivered(cfg: Config, start: World, events: seq<Event>, key: Address, sender: Cipher, n: nat,
                       plaintext: Bytes, ephemeral: KeyPair, now: int)
    requires Begins(start) && Lawful(cfg.crypto) && sender.key.Some? && n < TWO_TO_THE_64
    requires var s := SessionOf(Run(cfg, start, events).t, key); s.Some? && s.value.recv == sender
    ensures var w := Run(cfg, start, events);
            var wire := NoiseSessions.Datagram(cfg.crypto, sender, n, plaintext);
            var output := Output(cfg, w.t, Datagram([TRANSPORT] + wire, key, ephemeral, now));
            var isNew := key in w.latest && forall i :: 0 <= i < |w.log| && w.log[i].session == w.latest[key] ==>
                                                          w.log[i].n != n && w.log[i].n < n + 1024;
            output == if isNew then Delivered(plaintext) else Quiet
  {
    hide Run, Authenticate, Check, To, Lawful, OnDatagram, NoiseSessions.Datagram;
    var w := Run(cfg, start, events);
    BeginIsConsistent(cfg, start);
    RunIsConsistent(cfg, start, events);
    assert Remembers(w, key);
    var (s, id) := (SessionOf(w.t, key).value, w.latest[key]);
    SealedIsDelivered(cfg, w.t, key, sender, n, plaintext, ephemeral, now);
    CheckIsNew(s.replay, To(w.log, id), n);
    CountersAre(w.log, id, n);
    HighestIs(w.log, id, n + 1024);
  }
}
