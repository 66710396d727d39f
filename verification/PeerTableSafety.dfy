/** What every reachable peer table satisfies: exact accounting, the half-open bound, the
    session cap, and that unauthenticated input never touches an established session. */
module PeerTableSafety {
  import opened Wrappers
  import opened ByteStrings
  import opened OrderedMap
  import opened Crypto
  import opened HandshakeStates
  import opened NoiseSessions
  import opened PeerTable

  // ----- Counting peers by kind -----

  /** A first handshake, a re-handshake on a live session, or a session at rest. */
  datatype Kind = HalfOpen | Renewing | Settled

  function KindOf(p: Peer): Kind {
    if p.hs.None? then Settled else if p.session.None? then HalfOpen else Renewing
  }

  function One(b: bool): nat {
    if b then 1 else 0
  }

  function Tally(peers: Peers, k: Kind): nat {
    if peers == [] then 0 else One(KindOf(peers[0].value) == k) + Tally(peers[1..], k)
  }

  lemma {:induction false} TallyConcat(a: Peers, b: Peers, k: Kind)
    ensures Tally(a + b, k) == Tally(a, k) + Tally(b, k)
  {
    if a == [] {
      assert a + b == b;
    } else {
      assert (a + b)[1..] == a[1..] + b;
      TallyConcat(a[1..], b, k);
    }
  }

  lemma TallyAt(peers: Peers, i: nat, k: Kind)
    requires i < |peers|
    ensures Tally(peers, k) == Tally(Without(peers, i), k) + One(KindOf(peers[i].value) == k)
  {
    var (a, x, b) := (peers[..i], peers[i..i + 1], peers[i + 1..]);
    assert peers == a + (x + b);
    TallyConcat(a, x + b, k);
    TallyConcat(x, b, k);
    TallyConcat(a, b, k);
    assert x == [peers[i]] && x[1..] == [];
  }

  lemma TallyReplaced(peers: Peers, i: nat, e: Entry<Address, Peer>, k: Kind)
    requires i < |peers|
    ensures Tally(peers[i := e], k) + One(KindOf(peers[i].value) == k) == Tally(peers, k) + One(KindOf(e.value) == k)
  {
    TallyAt(peers, i, k);
    TallyAt(peers[i := e], i, k);
    assert Without(peers[i := e], i) == Without(peers, i);
  }

  lemma TallyAppended(peers: Peers, e: Entry<Address, Peer>, k: Kind)
    ensures Tally(peers + [e], k) == Tally(peers, k) + One(KindOf(e.value) == k)
  {
    TallyConcat(peers, [e], k);
    assert [e][1..] == [];
  }

  lemma {:induction false} TallyNone(peers: Peers, k: Kind)
    requires forall i :: 0 <= i < |peers| ==> KindOf(peers[i].value) != k
    ensures Tally(peers, k) == 0
  {
    if peers != [] {
      TallyNone(peers[1..], k);
    }
  }

  /** Re-handshakes in progress, and live sessions. */
  function Renewals(t: Table): nat {
    Tally(t.peers, Renewing)
  }

  function Sessions(t: Table): nat {
    Tally(t.peers, Renewing) + Tally(t.peers, Settled)
  }

  function HalfOpens(t: Table): nat {
    Tally(t.peers, HalfOpen)
  }

  // ----- The invariant -----

  /** Keys are unique, no peer is empty, and `pending` counts the handshakes in progress. */
  ghost predicate Accounted(t: Table) {
    && Unique(t.peers)
    && (forall i :: 0 <= i < |t.peers| ==> t.peers[i].value.hs.Some? || t.peers[i].value.session.Some?)
    && t.pending == HalfOpens(t) + Renewals(t)
  }

  function Max(a: int, b: int): int {
    if a >= b then a else b
  }

  /** A run's meter: re-handshakes completed since the last close, and the most re-handshakes
      that were ever in progress at once. */
  datatype Meter = Meter(rehandshakes: nat, peak: nat)

  ghost predicate Bounded(cfg: Config, t: Table, m: Meter) {
    && Accounted(t)
    && t.established == Sessions(t) + m.rehandshakes
    && Renewals(t) <= m.peak
    && PendingBounded(cfg, t)
    && Sessions(t) <= Max(cfg.maxSessions, 1 + m.peak)
  }

  // ----- Each table operation -----

  lemma UniqueWithout(peers: Peers, i: nat)
    requires Unique(peers) && i < |peers|
    ensures Unique(Without(peers, i))
  {
    var w := Without(peers, i);
    assert forall j :: 0 <= j < |w| ==> w[j] == peers[if j < i then j else j + 1];
  }

  /** Dropping a peer keeps the accounting: it gives back exactly what it counted for. */
  lemma DropAccounts(t: Table, i: nat)
    requires Accounted(t) && i < |t.peers|
    ensures Accounted(Drop(t, i))
    ensures forall k :: Tally(Drop(t, i).peers, k) == Tally(t.peers, k) - One(KindOf(t.peers[i].value) == k)
    ensures Drop(t, i).established - Sessions(Drop(t, i)) == t.established - Sessions(t)
  {
    UniqueWithout(t.peers, i);
    forall k ensures Tally(Drop(t, i).peers, k) == Tally(t.peers, k) - One(KindOf(t.peers[i].value) == k) {
      TallyAt(t.peers, i, k);
    }
  }

  /** Making room frees a half-open place whenever there is one. */
  lemma MakeRoomAccounts(cfg: Config, t: Table)
    requires Accounted(t)
    ensures var room := MakeRoom(cfg, t);
            && Accounted(room)
            && Renewals(room) == Renewals(t) && Tally(room.peers, Settled) == Tally(t.peers, Settled)
            && room.established == t.established
            && (t.pending < cfg.maxPending ==> room == t)
            && (t.pending >= cfg.maxPending ==> room.pending == t.pending - One(HalfOpens(t) > 0))
  {
    var i := FirstHalfOpen(t.peers);
    if i < |t.peers| {
      DropAccounts(t, i);
      assert KindOf(t.peers[i].value) == HalfOpen;
    } else {
      TallyNone(t.peers, HalfOpen);
    }
  }

  lemma ReplaceAccounts(t: Table, key: Address, p: Peer, pending: int)
    requires Accounted(t) && Has(t.peers, key) && (p.hs.Some? || p.session.Some?)
    requires var old_ := t.peers[Find(t.peers, key)].value;
             pending == t.pending - One(old_.hs.Some?) + One(p.hs.Some?)
    ensures var t1 := Replace(t, key, p).(pending := pending);
            var old_ := t.peers[Find(t.peers, key)].value;
            && Accounted(t1)
            && forall k :: Tally(t1.peers, k) + One(KindOf(old_) == k) == Tally(t.peers, k) + One(KindOf(p) == k)
  {
    var i := Find(t.peers, key);
    forall k ensures Tally(Replace(t, key, p).peers, k) + One(KindOf(t.peers[i].value) == k)
                  == Tally(t.peers, k) + One(KindOf(p) == k) {
      TallyReplaced(t.peers, i, Entry(key, p), k);
    }
    assert forall j :: 0 <= j < |t.peers| ==> Replace(t, key, p).peers[j].key == t.peers[j].key;
  }

  /** The peer a handshake datagram is about, once admitted: its session is what it was. */
  ghost predicate AdmittedFrom(t: Table, t1: Table, key: Address) {
    && Has(t1.peers, key)
    && var p := t1.peers[Find(t1.peers, key)].value;
       p.hs.Some? && p.session == (if Has(t.peers, key) then t.peers[Find(t.peers, key)].value.session else None)
  }

  ghost predicate PendingBounded(cfg: Config, t: Table) {
    t.pending <= Max(cfg.maxPending, Renewals(t) + 1)
  }

  /** What admission achieves, whichever way it goes. */
  ghost predicate AdmissionKeeps(cfg: Config, t: Table, t1: Table, key: Address) {
    && Accounted(t1) && AdmittedFrom(t, t1, key)
    && Sessions(t1) == Sessions(t) && t1.established == t.established
    && (PendingBounded(cfg, t) ==> PendingBounded(cfg, t1))
  }

  lemma AppendedIsUnique(peers: Peers, e: Entry<Address, Peer>)
    requires Unique(peers) && !Has(peers, e.key)
    ensures Unique(peers + [e]) && Has(peers + [e], e.key) && (peers + [e])[Find(peers + [e], e.key)] == e
  {
    var all := peers + [e];
    assert all[|peers|] == e && forall j :: 0 <= j < |peers| ==> all[j] == peers[j] && peers[j].key != e.key;
    FirstWithKey(all, |peers|, e.key);
  }

  lemma AdmitNew(cfg: Config, t: Table, key: Address, now: int)
    requires Accounted(t) && !Has(t.peers, key)
    ensures AdmissionKeeps(cfg, t, Admit(cfg, t, key, now), key)
  {
    hide Tally, MakeRoom, Responder;
    var room := MakeRoom(cfg, t);
    MakeRoomAccounts(cfg, t);
    EvictionKeepsOthers(cfg, t, key);
    var e := Entry(key, Peer(Some(Responder(cfg)), None, now));
    TallyAppended(room.peers, e, HalfOpen);
    TallyAppended(room.peers, e, Renewing);
    TallyAppended(room.peers, e, Settled);
    AppendedIsUnique(room.peers, e);
  }

  lemma AdmitRenewal(cfg: Config, t: Table, key: Address, now: int)
    requires Accounted(t) && Has(t.peers, key) && t.peers[Find(t.peers, key)].value.hs.None?
    ensures AdmissionKeeps(cfg, t, Admit(cfg, t, key, now), key)
  {
    MakeRoomAccounts(cfg, t);
    EvictionKeepsOthers(cfg, t, key);
    var room := MakeRoom(cfg, t);
    var p := t.peers[Find(t.peers, key)].value;
    ReplaceAccounts(room, key, p.(hs := Some(Responder(cfg))), room.pending + 1);
  }

  lemma AdmitAccounts(cfg: Config, t: Table, key: Address, now: int)
    requires Accounted(t)
    ensures AdmissionKeeps(cfg, t, Admit(cfg, t, key, now), key)
  {
    if !Has(t.peers, key) {
      AdmitNew(cfg, t, key, now);
    } else if t.peers[Find(t.peers, key)].value.hs.None? {
      AdmitRenewal(cfg, t, key, now);
    }
  }

  lemma AbandonAccounts(cfg: Config, t: Table, key: Address)
    requires Accounted(t) && Has(t.peers, key) && t.peers[Find(t.peers, key)].value.hs.Some?
    requires PendingBounded(cfg, t)
    ensures var t1 := Abandon(t, key);
            && Accounted(t1) && Sessions(t1) == Sessions(t) && t1.established == t.established
            && PendingBounded(cfg, t1) && Renewals(t1) <= Renewals(t)
  {
    var i := Find(t.peers, key);
    var p := t.peers[i].value;
    if p.session.None? {
      DropAccounts(t, i);
    } else {
      ReplaceAccounts(t, key, p.(hs := None), t.pending - 1);
    }
  }

  /** With nothing to evict, at most `key` itself is settled. */
  lemma AtMostOneSettled(t: Table, key: Address)
    requires Accounted(t) && FirstSettled(t.peers, key) == |t.peers|
    ensures Tally(t.peers, Settled) <= 1
  {
    var i := Find(t.peers, key);
    if i < |t.peers| {
      var w := Without(t.peers, i);
      assert forall j :: 0 <= j < |w| ==> w[j] == t.peers[if j < i then j else j + 1];
      TallyAt(t.peers, i, Settled);
      TallyNone(w, Settled);
    } else {
      TallyNone(t.peers, Settled);
    }
  }

  lemma EvictSessionAccounts(t: Table, key: Address)
    requires Accounted(t)
    ensures var t1 := EvictOldestSession(t, key);
            && Accounted(t1) && t1.pending == t.pending && Renewals(t1) == Renewals(t)
            && t1.established - Sessions(t1) == t.established - Sessions(t)
            && (Sessions(t1) == Sessions(t) - 1 || (t1 == t && Sessions(t) <= Renewals(t) + 1))
  {
    var i := FirstSettled(t.peers, key);
    if i < |t.peers| {
      DropAccounts(t, i);
    } else {
      AtMostOneSettled(t, key);
    }
  }

  lemma EstablishAccounts(cfg: Config, t: Table, key: Address, transport: Transport, now: int, m: Meter)
    requires Accounted(t) && PendingBounded(cfg, t) && Has(t.peers, key)
    requires t.peers[Find(t.peers, key)].value.hs.Some?
    requires t.established == Sessions(t) + m.rehandshakes && Sessions(t) <= Max(cfg.maxSessions, 1 + m.peak)
    ensures var t1 := Establish(cfg, t, key, transport, now);
            var renewed := t.peers[Find(t.peers, key)].value.session.Some?;
            Bounded(cfg, t1, Meter(m.rehandshakes + One(renewed), Max(m.peak, Renewals(t1))))
  {
    hide EvictOldestSession, Tally;
    var p := Peer(None, Some(NewSession(transport)), now);
    ReplaceAccounts(t, key, p, t.pending - 1);
    var t2 := Replace(t, key, p).(pending := t.pending - 1, established := t.established + 1);
    assert Accounted(t2);
    EvictSessionAccounts(t2, key);
  }

  // ----- Every event, and every run -----

  /** Whether a datagram completes a handshake for a peer that already had a session. */
  predicate CompletesRenewal(cfg: Config, t: Table, e: Event) {
    && e.Datagram?
    && OnDatagram(cfg, t, e.data, e.key, e.ephemeral, e.now).1.Opened?
    && Has(t.peers, e.key) && t.peers[Find(t.peers, e.key)].value.session.Some?
  }

  function Metered(cfg: Config, t: Table, m: Meter, e: Event): Meter {
    Meter(if e.ServerCloses? then 0 else m.rehandshakes + One(CompletesRenewal(cfg, t, e)),
          Max(m.peak, Renewals(Step(cfg, t, e))))
  }

  /** The meter after an event that completed no renewal. */
  function Raised(t1: Table, m: Meter): Meter {
    Meter(m.rehandshakes, Max(m.peak, Renewals(t1)))
  }

  /** An intermediate table: all of `Bounded` except that a renewal may just have been admitted. */
  ghost predicate Feeding(cfg: Config, t: Table, key: Address, m: Meter) {
    && Accounted(t) && PendingBounded(cfg, t) && Has(t.peers, key)
    && t.peers[Find(t.peers, key)].value.hs.Some?
    && t.established == Sessions(t) + m.rehandshakes && Sessions(t) <= Max(cfg.maxSessions, 1 + m.peak)
  }

  lemma AbandonBounded(cfg: Config, t: Table, key: Address, m: Meter)
    requires Feeding(cfg, t, key, m)
    ensures Bounded(cfg, Abandon(t, key), Raised(Abandon(t, key), m))
  {
    AbandonAccounts(cfg, t, key);
  }

  /** msg1 was read: either the answer goes out, or writing it failed. */
  lemma AnswerBounded(cfg: Config, t: Table, key: Address, m: Meter, p: Peer)
    requires Feeding(cfg, t, key, m) && p.hs.Some? && p.session == t.peers[Find(t.peers, key)].value.session
    ensures Feeding(cfg, Replace(t, key, p), key, m)
    ensures Bounded(cfg, Replace(t, key, p), Raised(Replace(t, key, p), m))
  {
    ReplaceAccounts(t, key, p, t.pending);
  }

  lemma AdmitFeeds(cfg: Config, t: Table, m: Meter, key: Address, now: int)
    requires Bounded(cfg, t, m)
    ensures Feeding(cfg, Admit(cfg, t, key, now), key, m)
    ensures AdmittedFrom(t, Admit(cfg, t, key, now), key)
  {
    AdmitAccounts(cfg, t, key, now);
  }

  /** The meter after a handshake datagram is fed to the handshake in `t`. */
  function Fed(t: Table, key: Address, m: Meter, t1: Table, output: Output): Meter
    requires Has(t.peers, key)
  {
    Meter(m.rehandshakes + One(output.Opened? && t.peers[Find(t.peers, key)].value.session.Some?),
          Max(m.peak, Renewals(t1)))
  }

  lemma FeedBounded(cfg: Config, t: Table, m: Meter, key: Address, body: Bytes, ephemeral: KeyPair, now: int)
    requires Feeding(cfg, t, key, m)
    ensures var (t1, output) := Feed(cfg, t, key, body, ephemeral, now);
            Bounded(cfg, t1, Fed(t, key, m, t1, output))
  {
    hide ReadMessage, WriteMessage, Tally, Abandon, Establish;
    var peer := t.peers[Find(t.peers, key)].value;
    var read := ReadMessage(cfg.crypto, peer.hs.value, body);
    if read.outcome.Err? {
      AbandonBounded(cfg, t, key, m);
    } else if read.outcome.value.transport.Some? {
      EstablishAccounts(cfg, t, key, read.outcome.value.transport.value, now, m);
    } else {
      var written := WriteMessage(cfg.crypto, read.state, [], ephemeral);
      var seen := peer.(hs := Some(read.state), lastSeen := now);
      if written.outcome.Err? {
        AnswerBounded(cfg, t, key, m, seen);
        AbandonBounded(cfg, Replace(t, key, seen), key, m);
      } else {
        AnswerBounded(cfg, t, key, m, seen.(hs := Some(written.state)));
      }
    }
  }

  lemma HandshakeBounded(cfg: Config, t: Table, m: Meter, key: Address, body: Bytes, ephemeral: KeyPair, now: int)
    requires Bounded(cfg, t, m)
    ensures var (t1, output) := OnHandshake(cfg, t, key, body, ephemeral, now);
            var renewed := output.Opened? && Has(t.peers, key) && t.peers[Find(t.peers, key)].value.session.Some?;
            Bounded(cfg, t1, Meter(m.rehandshakes + One(renewed), Max(m.peak, Renewals(t1))))
  {
    AdmitFeeds(cfg, t, m, key, now);
    FeedBounded(cfg, Admit(cfg, t, key, now), m, key, body, ephemeral, now);
  }

  lemma DropBounded(cfg: Config, t: Table, m: Meter, i: nat)
    requires Bounded(cfg, t, m) && i < |t.peers|
    ensures Bounded(cfg, Drop(t, i), m)
  {
    DropAccounts(t, i);
  }

  lemma {:induction false} SweepBounded(cfg: Config, t: Table, m: Meter, cutoff: int, from: nat)
    requires Bounded(cfg, t, m) && from <= |t.peers|
    ensures Bounded(cfg, Sweep(t, cutoff, from), m)
    decreases |t.peers| - from
  {
    if from < |t.peers| {
      if t.peers[from].value.lastSeen < cutoff {
        DropBounded(cfg, t, m, from);
        SweepBounded(cfg, Drop(t, from), m, cutoff, from);
      } else {
        SweepBounded(cfg, t, m, cutoff, from + 1);
      }
    }
  }

  lemma SameKindBounded(cfg: Config, t: Table, m: Meter, key: Address, p: Peer)
    requires Bounded(cfg, t, m) && Has(t.peers, key)
    requires var q := t.peers[Find(t.peers, key)].value; p.hs == q.hs && p.session.Some? && q.session.Some?
    ensures Bounded(cfg, Replace(t, key, p), m)
  {
    ReplaceAccounts(t, key, p, t.pending);
  }

  lemma TransportBounded(cfg: Config, t: Table, m: Meter, key: Address, body: Bytes, now: int)
    requires Bounded(cfg, t, m)
    ensures Bounded(cfg, OnTransport(cfg, t, key, body, now).0, m)
    ensures !OnTransport(cfg, t, key, body, now).1.Opened?
  {
    if Has(t.peers, key) {
      var peer := t.peers[Find(t.peers, key)].value;
      if peer.session.Some? {
        var (session, plain) := Open(cfg.crypto, peer.session.value, body);
        SameKindBounded(cfg, t, m, key, peer.(session := Some(session)));
        SameKindBounded(cfg, t, m, key, peer.(session := Some(session), lastSeen := now));
      }
    }
  }

  lemma SendBounded(cfg: Config, t: Table, m: Meter, key: Address, plaintext: Bytes)
    requires Bounded(cfg, t, m)
    ensures Bounded(cfg, SendTo(cfg, t, key, plaintext), m)
  {
    if Has(t.peers, key) {
      var peer := t.peers[Find(t.peers, key)].value;
      if peer.session.Some? {
        SameKindBounded(cfg, t, m, key, peer.(session := Some(Seal(cfg.crypto, peer.session.value, plaintext).state)));
      }
    }
  }

  /** In a bounded table the peak is already as high as the re-handshakes in progress. */
  lemma PeakMayRise(cfg: Config, t: Table, m: Meter)
    requires Bounded(cfg, t, m)
    ensures Raised(t, m) == m
  {
  }

  /** One event keeps the invariant, with the meter advanced by what the event did. */
  lemma StepBounded(cfg: Config, t: Table, m: Meter, e: Event)
    requires Bounded(cfg, t, m)
    ensures Bounded(cfg, Step(cfg, t, e), Metered(cfg, t, m, e))
  {
    match e {
      case Datagram(data, key, ephemeral, now) =>
        if |data| > 0 && data[0] == HANDSHAKE {
          HandshakeBounded(cfg, t, m, key, data[1..], ephemeral, now);
        } else {
          if |data| > 0 && data[0] == TRANSPORT {
            TransportBounded(cfg, t, m, key, data[1..], now);
          }
          PeakMayRise(cfg, Step(cfg, t, e), m);
        }
      case HandleCloses(key) =>
        if Has(t.peers, key) {
          DropBounded(cfg, t, m, Find(t.peers, key));
        }
        PeakMayRise(cfg, Step(cfg, t, e), m);
      case HandleSends(key, plaintext) =>
        SendBounded(cfg, t, m, key, plaintext);
        PeakMayRise(cfg, Step(cfg, t, e), m);
      case TimerSweeps(now) =>
        SweepBounded(cfg, t, m, now - cfg.ttl, 0);
        PeakMayRise(cfg, Step(cfg, t, e), m);
      case ServerCloses =>
        EmptyBounded(cfg, Step(cfg, t, e), m.peak);
    }
  }

  lemma EmptyBounded(cfg: Config, t: Table, peak: nat)
    requires |t.peers| == 0 && t.pending == 0 && t.established == 0
    ensures Bounded(cfg, t, Meter(0, peak)) && Raised(t, Meter(0, peak)) == Meter(0, peak)
  {
  }

  function Run(cfg: Config, t: Table, events: seq<Event>): Table
    decreases |events|
  {
    if events == [] then t else Run(cfg, Step(cfg, t, events[0]), events[1..])
  }

  function RunMeter(cfg: Config, t: Table, m: Meter, events: seq<Event>): Meter
    decreases |events|
  {
    if events == [] then m
    else RunMeter(cfg, Step(cfg, t, events[0]), Metered(cfg, t, m, events[0]), events[1..])
  }

  lemma {:induction false} RunBounded(cfg: Config, t: Table, m: Meter, events: seq<Event>)
    requires Bounded(cfg, t, m)
    ensures Bounded(cfg, Run(cfg, t, events), RunMeter(cfg, t, m, events))
    decreases |events|
  {
    if events != [] {
      StepBounded(cfg, t, m, events[0]);
      RunBounded(cfg, Step(cfg, t, events[0]), Metered(cfg, t, m, events[0]), events[1..]);
    }
  }
}
