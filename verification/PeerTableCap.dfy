/** The session cap of ts/net/secure-udp.ts, event by event: which sessions a completed handshake
    keeps and which one it costs, and how re-handshakes make it bite early. */
module PeerTableCap {
  import opened Wrappers
  import opened ByteStrings
  import opened OrderedMap
  import opened Crypto
  import opened HandshakeStates
  import opened NoiseAgreement
  import opened NoiseSessions
  import opened PeerTable
  import opened PeerTableSafety
  import opened PeerTableTheorems
  import opened PeerTableAgreement

  /** The live sessions of all peers but `key`, in table order. */
  function LiveExcept(peers: Peers, key: Address): seq<Entry<Address, Session>> {
    if peers == [] then []
    else (if peers[0].key == key then [] else LiveOne(peers[0])) + LiveExcept(peers[1..], key)
  }

  lemma {:induction false} ExceptConcat(a: Peers, b: Peers, key: Address)
    ensures LiveExcept(a + b, key) == LiveExcept(a, key) + LiveExcept(b, key)
  {
    hide LiveOne;
    if a == [] {
      assert a + b == b;
    } else {
      assert (a + b)[1..] == a[1..] + b;
      ExceptConcat(a[1..], b, key);
    }
  }

  lemma ExceptSplit(peers: Peers, i: nat, key: Address)
    requires i < |peers|
    ensures LiveExcept(peers, key)
         == LiveExcept(peers[..i], key)
            + ((if peers[i].key == key then [] else LiveOne(peers[i])) + LiveExcept(peers[i + 1..], key))
    ensures LiveExcept(Without(peers, i), key) == LiveExcept(peers[..i], key) + LiveExcept(peers[i + 1..], key)
  {
    hide LiveOne;
    SplitAt(peers, i);
    ExceptConcat(peers[..i], [peers[i]] + peers[i + 1..], key);
    ExceptConcat(peers[..i], peers[i + 1..], key);
    assert ([peers[i]] + peers[i + 1..])[1..] == peers[i + 1..];
  }

  /** The record of `key` itself does not matter. */
  lemma ExceptReplaced(peers: Peers, i: nat, p: Peer, key: Address)
    requires i < |peers| && peers[i].key == key
    ensures LiveExcept(peers[i := Entry(key, p)], key) == LiveExcept(peers, key)
  {
    hide LiveExcept;
    var replaced := peers[i := Entry(key, p)];
    ExceptSplit(peers, i, key);
    ExceptSplit(replaced, i, key);
    assert replaced[..i] == peers[..i] && replaced[i + 1..] == peers[i + 1..];
  }

  lemma {:induction false} NoneLive(peers: Peers, key: Address)
    requires forall j :: 0 <= j < |peers| ==> peers[j].key == key || peers[j].value.session.None?
    ensures LiveExcept(peers, key) == []
  {
    if peers != [] {
      NoneLive(peers[1..], key);
    }
  }

  /** When `key` has no session, the live sessions are the others'. */
  lemma {:induction false} ExceptIsAll(peers: Peers, key: Address)
    requires forall j :: 0 <= j < |peers| && peers[j].key == key ==> peers[j].value.session.None?
    ensures LiveExcept(peers, key) == LiveSessions(peers)
  {
    if peers != [] {
      ExceptIsAll(peers[1..], key);
    }
  }

  // ----- What opens a session -----

  /** Transport keys are never missing. */
  lemma TransportIsKeyed(c: Suite, hs: Handshake, message: Bytes)
    ensures var r := ReadMessage(c, hs, message);
            r.outcome.Ok? && r.outcome.value.transport.Some? ==>
              r.outcome.value.transport.value.send.key.Some? && r.outcome.value.transport.value.recv.key.Some?
  {
    hide ReadTokens;
  }

  /** A datagram opens a session only by completing a handshake its peer had in the table. */
  lemma OpenedEstablishes(cfg: Config, t: Table, key: Address, body: Bytes, ephemeral: KeyPair, now: int)
    returns (transport: Transport)
    requires OnHandshake(cfg, t, key, body, ephemeral, now).1.Opened?
    ensures Has(t.peers, key) && t.peers[Find(t.peers, key)].value.hs.Some?
    ensures OnHandshake(cfg, t, key, body, ephemeral, now).0 == Establish(cfg, t, key, transport, now)
    ensures transport.send.key.Some? && transport.recv.key.Some?
  {
    hide ReadMessage, WriteMessage, Establish;
    var t1 := Admit(cfg, t, key, now);
    var hs := t1.peers[Find(t1.peers, key)].value.hs.value;
    MessageSteps(cfg.crypto, hs, body, ephemeral);
    TransportIsKeyed(cfg.crypto, hs, body);
    if Idle(t, key) {
      AdmitStarts(cfg, t, key, now);
    }
    transport := ReadMessage(cfg.crypto, hs, body).outcome.value.transport.value;
  }

  /** The others' sessions after `key` has completed a handshake: all of them while the count is
      within the cap, and otherwise all but the earliest-inserted one at rest, if there is one. */
  function Remaining(cfg: Config, t: Table, key: Address): seq<Entry<Address, Session>> {
    var i := FirstSettled(t.peers, key);
    if t.established + 1 <= cfg.maxSessions || i == |t.peers| then LiveExcept(t.peers, key)
    else LiveExcept(t.peers[..i], key) + LiveExcept(t.peers[i + 1..], key)
  }

  lemma SettledReplaced(peers: Peers, i: nat, p: Peer, key: Address)
    requires i < |peers| && peers[i].key == key && forall j :: 0 <= j < i ==> peers[j].key != key
    ensures FirstSettled(peers[i := Entry(key, p)], key) == FirstSettled(peers, key)
  {
    var replaced := peers[i := Entry(key, p)];
    var (a, b) := (FirstSettled(peers, key), FirstSettled(replaced, key));
    assert a < |peers| ==> replaced[a] == peers[a];
    assert b < |peers| ==> replaced[b] == peers[b];
  }

  lemma EstablishLeaves(cfg: Config, t: Table, key: Address, transport: Transport, now: int)
    requires Has(t.peers, key)
    ensures LiveExcept(Establish(cfg, t, key, transport, now).peers, key) == Remaining(cfg, t, key)
  {
    hide LiveExcept, FirstSettled, LiveOne, Find, NewSession;
    var (i, p) := (Find(t.peers, key), Peer(None, Some(NewSession(transport)), now));
    var peers := t.peers[i := Entry(key, p)];
    ExceptReplaced(t.peers, i, p, key);
    SettledReplaced(t.peers, i, p, key);
    var e := FirstSettled(peers, key);
    if e < |peers| {
      ExceptSplit(peers, e, key);
      ExceptSplit(t.peers, e, key);
      ExceptReplacedPart(t.peers, i, p, key, e);
    }
  }

  lemma ExceptReplacedPart(peers: Peers, i: nat, p: Peer, key: Address, e: nat)
    requires i < |peers| && peers[i].key == key && e < |peers| && e != i
    ensures var replaced := peers[i := Entry(key, p)];
            && LiveExcept(replaced[..e], key) == LiveExcept(peers[..e], key)
            && LiveExcept(replaced[e + 1..], key) == LiveExcept(peers[e + 1..], key)
  {
    hide LiveExcept;
    var replaced := peers[i := Entry(key, p)];
    if i < e {
      ExceptReplaced(peers[..e], i, p, key);
      assert replaced[..e] == peers[..e][i := Entry(key, p)] && replaced[e + 1..] == peers[e + 1..];
    } else {
      ExceptReplaced(peers[e + 1..], i - e - 1, p, key);
      assert replaced[e + 1..] == peers[e + 1..][i - e - 1 := Entry(key, p)] && replaced[..e] == peers[..e];
    }
  }

  predicate Opens(cfg: Config, t: Table, e: Event) {
    e.Datagram? && OnDatagram(cfg, t, e.data, e.key, e.ephemeral, e.now).1.Opened?
  }

  /** In every state: an event that opens a session leaves the others' sessions unchanged and in
      order while the count stays within the cap, and otherwise costs exactly the earliest-inserted
      one at rest; and the session it opened is there. */
  lemma CapIsExact(cfg: Config, t: Table, e: Event)
    ensures Opens(cfg, t, e) ==>
              var t1 := Step(cfg, t, e);
              && Has(t1.peers, e.key) && IsSettled(t1.peers[Find(t1.peers, e.key)].value)
              && LiveExcept(t1.peers, e.key) == Remaining(cfg, t, e.key)
  {
    hide LiveExcept, ReadMessage, WriteMessage, OnHandshake, Establish;
    if Opens(cfg, t, e) {
      var transport := OpenedEstablishes(cfg, t, e.key, e.data[1..], e.ephemeral, e.now);
      EstablishLeaves(cfg, t, e.key, transport, e.now);
      EstablishKeeps(cfg, t, e.key, transport, e.now);
    }
  }

  lemma {:induction false} NoRenewals(peers: Peers, j: nat)
    requires Tally(peers, Renewing) == 0 && j < |peers|
    ensures KindOf(peers[j].value) != Renewing
  {
    TallyAt(peers, j, Renewing);
  }

  lemma FirstOfOthers(peers: Peers, key: Address)
    requires Tally(peers, Renewing) == 0
    ensures var i := FirstSettled(peers, key);
            if i == |peers| then LiveExcept(peers, key) == []
            else LiveExcept(peers, key) != []
                 && LiveExcept(peers[..i], key) + LiveExcept(peers[i + 1..], key) == LiveExcept(peers, key)[1..]
  {
    hide LiveExcept;
    var i := FirstSettled(peers, key);
    forall j | 0 <= j < i ensures peers[j].key == key || peers[j].value.session.None? {
      NoRenewals(peers, j);
    }
    if i == |peers| {
      NoneLive(peers, key);
    } else {
      NoneLive(peers[..i], key);
      ExceptSplit(peers, i, key);
      var rest := LiveExcept(peers[i + 1..], key);
      assert [] + (LiveOne(peers[i]) + rest) == LiveOne(peers[i]) + rest;
      assert (LiveOne(peers[i]) + rest)[1..] == rest && [] + rest == rest;
    }
  }

  /** In a run without re-handshakes: an event that opens a session keeps every other session while
      that makes no more than the cap, and otherwise costs exactly the earliest-inserted one. */
  lemma EarliestSessionIsEvicted(cfg: Config, events: seq<Event>, t: Table, m: Meter, e: Event)
    requires Reaches(cfg, events, t, m) && m.peak == 0
    ensures Opens(cfg, t, e) ==>
              var (t1, live) := (Step(cfg, t, e), LiveSessions(t.peers));
              && Has(t1.peers, e.key) && t1.peers[Find(t1.peers, e.key)].value.session.Some?
              && LiveExcept(t1.peers, e.key)
                 == if Sessions(t) + 1 <= cfg.maxSessions || live == [] then live else live[1..]
  {
    hide LiveExcept, LiveSessions, ReadMessage, WriteMessage, OnHandshake, Establish, Step, Reaches, Tally, OnDatagram;
    if Opens(cfg, t, e) {
      FromEmpty(cfg, events, t, m);
      CapIsExact(cfg, t, e);
      OpenedHadNone(cfg, t, e);
      ExceptIsAll(t.peers, e.key);
      FirstOfOthers(t.peers, e.key);
    }
  }

  lemma OpenedHadNone(cfg: Config, t: Table, e: Event)
    requires Opens(cfg, t, e) && Accounted(t) && Renewals(t) == 0
    ensures forall j :: 0 <= j < |t.peers| && t.peers[j].key == e.key ==> t.peers[j].value.session.None?
  {
    hide ReadMessage, WriteMessage, OnHandshake, Establish;
    var transport := OpenedEstablishes(cfg, t, e.key, e.data[1..], e.ephemeral, e.now);
    var i := Find(t.peers, e.key);
    NoRenewals(t.peers, i);
    forall j | 0 <= j < |t.peers| && t.peers[j].key == e.key ensures j == i {
      FindIs(t.peers, j);
    }
  }

  // ----- The cap bites early -----

  /** The two datagrams of an honest client's handshake. */
  function FirstFrom(cfg: Config, cl: Client, key: Address, now: int): Event {
    Datagram([HANDSHAKE] + Message(Relayed(cfg, cl).first), key, cl.answer, now)
  }

  function ThirdFrom(cfg: Config, cl: Client, key: Address, now: int): Event {
    Datagram([HANDSHAKE] + Message(Relayed(cfg, cl).third), key, cl.answer, now)
  }

  /** The table `t` with `p` as the record of `key`, in its place or at the end. */
  function WithPeer(t: Table, key: Address, p: Peer): Table {
    t.(peers := Put(t.peers, key, p))
  }

  function SessionOf(t: Table, key: Address): Option<Session> {
    if Has(t.peers, key) then t.peers[Find(t.peers, key)].value.session else None
  }

  function OpenedFor(cfg: Config, cl: Client): Session
    requires Honest(cfg, cl)
  {
    ThirdHolds(cfg, cl);
    NewSession(Relayed(cfg, cl).thirdRead.outcome.value.transport.value)
  }

  lemma FirstExact(cfg: Config, t: Table, key: Address, cl: Client, now: int)
    requires Honest(cfg, cl) && Idle(t, key) && MakeRoom(cfg, t) == t
    ensures var hs := Relayed(cfg, cl).second.state;
            Step(cfg, t, FirstFrom(cfg, cl, key, now))
            == WithPeer(t, key, Peer(Some(hs), SessionOf(t, key), now)).(pending := t.pending + 1)
  {
    hide Honest, ReadMessage, WriteMessage;
    var x := Relayed(cfg, cl);
    Tagged(HANDSHAKE, Message(x.first));
    FirstTwoHold(cfg, cl);
    AdmitStarts(cfg, t, key, now);
    MessageSteps(cfg.crypto, Responder(cfg), Message(x.first), cl.answer);
    if !Has(t.peers, key) {
      var peers := Admit(cfg, t, key, now).peers;
      assert forall j :: 0 <= j < |t.peers| ==> peers[j] == t.peers[j];
      FirstWithKey(peers, |t.peers|, key);
    }
  }

  lemma PutTwice(peers: Peers, key: Address, p: Peer, q: Peer)
    ensures var once := Put(peers, key, p);
            && Has(once, key) && once[Find(once, key)] == Entry(key, p)
            && Put(once, key, q) == Put(peers, key, q)
  {
    var (once, i) := (Put(peers, key, p), Find(peers, key));
    assert forall j :: 0 <= j < i ==> once[j] == peers[j];
    FirstWithKey(once, i, key);
  }

  lemma ThirdExact(cfg: Config, t: Table, key: Address, cl: Client, seen: int, now: int)
    requires Honest(cfg, cl) && t.pending < cfg.maxPending
    ensures var hs := Peer(Some(Relayed(cfg, cl).second.state), SessionOf(t, key), seen);
            var t1 := WithPeer(t, key, Peer(None, Some(OpenedFor(cfg, cl)), now)).(established := t.established + 1);
            Step(cfg, WithPeer(t, key, hs).(pending := t.pending + 1), ThirdFrom(cfg, cl, key, now))
            == if t.established + 1 > cfg.maxSessions then EvictOldestSession(t1, key) else t1
  {
    hide Honest, ReadMessage, WriteMessage, Relayed, EvictOldestSession, Put;
    var hs := Peer(Some(Relayed(cfg, cl).second.state), SessionOf(t, key), seen);
    PutTwice(t.peers, key, hs, Peer(None, Some(OpenedFor(cfg, cl)), now));
    Tagged(HANDSHAKE, Message(Relayed(cfg, cl).third));
    ThirdHolds(cfg, cl);
    ReplaceIsPut(WithPeer(t, key, hs).(pending := t.pending + 1), key, Peer(None, Some(OpenedFor(cfg, cl)), now));
  }

  lemma ReplaceIsPut(t: Table, key: Address, p: Peer)
    requires Has(t.peers, key)
    ensures Replace(t, key, p) == WithPeer(t, key, p)
  {
  }

  /** A whole handshake with nothing in between. */
  lemma HandshakeExact(cfg: Config, t: Table, key: Address, cl: Client, seen: int, now: int)
    requires Honest(cfg, cl) && Idle(t, key) && t.pending < cfg.maxPending
    ensures var t1 := WithPeer(t, key, Peer(None, Some(OpenedFor(cfg, cl)), now)).(established := t.established + 1);
            Step(cfg, Step(cfg, t, FirstFrom(cfg, cl, key, seen)), ThirdFrom(cfg, cl, key, now))
            == if t.established + 1 > cfg.maxSessions then EvictOldestSession(t1, key) else t1
  {
    hide Step, WithPeer, EvictOldestSession, FirstFrom, ThirdFrom, Relayed, Honest;
    FirstExact(cfg, t, key, cl, seen);
    ThirdExact(cfg, t, key, cl, seen, now);
  }

  function HandshakeFrom(cfg: Config, cl: Client, key: Address, seen: int, now: int): seq<Event> {
    [FirstFrom(cfg, cl, key, seen), ThirdFrom(cfg, cl, key, now)]
  }

  lemma RunTwo(cfg: Config, t: Table, e: Event, f: Event, rest: seq<Event>)
    ensures Run(cfg, t, [e, f] + rest) == Run(cfg, Step(cfg, Step(cfg, t, e), f), rest)
  {
    hide Step;
    assert ([e, f] + rest)[1..] == [f] + rest && ([f] + rest)[1..] == rest;
  }

  function OneSession(key: Address, s: Session, now: int, established: int): Table {
    Table([Entry(key, Peer(None, Some(s), now))], 0, established)
  }

  /** The first handshake of a key in an empty table, and another of the same key after it. */
  lemma OneAlone(cfg: Config, t: Table, key: Address, cl: Client, seen: int, now: int)
    requires Honest(cfg, cl) && 0 < cfg.maxPending && t.established + 1 <= cfg.maxSessions && t.pending == 0
    requires t.peers == [] || (|t.peers| == 1 && t.peers[0].key == key && t.peers[0].value.hs.None?)
    ensures Step(cfg, Step(cfg, t, FirstFrom(cfg, cl, key, seen)), ThirdFrom(cfg, cl, key, now))
         == OneSession(key, OpenedFor(cfg, cl), now, t.established + 1)
  {
    hide Step, Honest, FirstFrom, ThirdFrom, EvictOldestSession, OpenedFor;
    HandshakeExact(cfg, t, key, cl, seen, now);
  }

  lemma NextPastCap(cfg: Config, t: Table, ka: Address, sa: Session, kb: Address, b: Client, seen: int, now: int)
    requires Honest(cfg, b) && 0 < cfg.maxPending && ka != kb
    requires t == OneSession(ka, sa, seen, t.established) && t.established + 1 > cfg.maxSessions
    ensures Step(cfg, Step(cfg, t, FirstFrom(cfg, b, kb, seen)), ThirdFrom(cfg, b, kb, now))
         == OneSession(kb, OpenedFor(cfg, b), now, t.established)
  {
    hide Step, Honest, FirstFrom, ThirdFrom, OpenedFor;
    HandshakeExact(cfg, t, kb, b, seen, now);
    var full := [t.peers[0], Entry(kb, Peer(None, Some(OpenedFor(cfg, b)), now))];
    assert Put(t.peers, kb, full[1].value) == full;
    assert FirstSettled(full, kb) == 0 && Without(full, 0) == [full[1]];
  }

  /** The counter's drift at work: with room for two sessions, a client that has handshaken twice is
      alone in the table, and loses its session to the next client. */
  lemma CapBitesEarly(cfg: Config, start: Table, ka: Address, a: Client, again: Client, kb: Address, b: Client,
                      now: int)
    requires start == EMPTY_TABLE && 0 < cfg.maxPending && cfg.maxSessions == 2 && ka != kb
    requires Honest(cfg, a) && Honest(cfg, again) && Honest(cfg, b)
    ensures var twice := HandshakeFrom(cfg, a, ka, now, now) + HandshakeFrom(cfg, again, ka, now, now);
            var before := Run(cfg, start, twice);
            var after := Run(cfg, start, twice + HandshakeFrom(cfg, b, kb, now, now));
            && Sessions(before) == 1 && Has(before.peers, ka) && before.established == 2
            && Sessions(after) == 1 && !Has(after.peers, ka) && Has(after.peers, kb)
  {
    hide Step, Honest, FirstFrom, ThirdFrom, OpenedFor;
    var (a1, a3) := (FirstFrom(cfg, a, ka, now), ThirdFrom(cfg, a, ka, now));
    var (g1, g3) := (FirstFrom(cfg, again, ka, now), ThirdFrom(cfg, again, ka, now));
    var (b1, b3) := (FirstFrom(cfg, b, kb, now), ThirdFrom(cfg, b, kb, now));
    var t1 := OneSession(ka, OpenedFor(cfg, a), now, 1);
    var t2 := OneSession(ka, OpenedFor(cfg, again), now, 2);
    var t3 := OneSession(kb, OpenedFor(cfg, b), now, 2);
    OneAlone(cfg, start, ka, a, now, now);
    OneAlone(cfg, t1, ka, again, now, now);
    NextPastCap(cfg, t2, ka, OpenedFor(cfg, again), kb, b, now, now);
    RunTwo(cfg, start, a1, a3, [g1, g3]);
    RunTwo(cfg, t1, g1, g3, []);
    assert [g1, g3] + [] == [g1, g3];
    RunTwo(cfg, start, a1, a3, [g1, g3] + [b1, b3]);
    RunTwo(cfg, t1, g1, g3, [b1, b3]);
    RunTwo(cfg, t2, b1, b3, []);
    assert [b1, b3] + [] == [b1, b3];
    assert [a1, a3] + [g1, g3] + [b1, b3] == [a1, a3] + ([g1, g3] + [b1, b3]);
    CountOne(ka, OpenedFor(cfg, again), now, 2);
    CountOne(kb, OpenedFor(cfg, b), now, 2);
  }

  lemma TallyOne(peers: Peers, k: Kind)
    requires |peers| == 1
    ensures Tally(peers, k) == One(KindOf(peers[0].value) == k)
  {
    assert peers[1..] == [];
  }

  lemma CountOne(key: Address, s: Session, now: int, established: int)
    ensures var t := OneSession(key, s, now, established);
            Sessions(t) == 1 && Has(t.peers, key) && forall k :: k != key ==> !Has(t.peers, k)
  {
    var peers := OneSession(key, s, now, established).peers;
    TallyOne(peers, Renewing);
    TallyOne(peers, Settled);
    forall k ensures Has(peers, k) <==> k == key {
      HasIffSome(peers, k);
      assert peers[0].key == key;
    }
  }
}
