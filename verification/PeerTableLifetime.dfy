/** How long a handshake stays in the table of ts/net/secure-udp.ts: it outlives any run in which
    fewer handshakes than the cap go after it, so an honest client gets in, and no longer. */
module PeerTableLifetime {
  import opened Wrappers
  import opened ByteStrings
  import opened OrderedMap
  import opened Crypto
  import opened HandshakeStates
  import opened NoiseAgreement
  import opened NoiseSessions
  import opened PeerTable
  import opened PeerTableSafety
  import opened PeerTableTheorems
  import opened PeerTableAgreement
  import opened PeerTableCap
  import opened PeerTablePending

  /** What of the record of `key` its client needs: the handshake, whether it is a first one, and the time. */
  ghost predicate Keeps(t: Table, t1: Table, key: Address) {
    && Has(t.peers, key) && Has(t1.peers, key)
    && var (p, p1) := (t.peers[Find(t.peers, key)].value, t1.peers[Find(t1.peers, key)].value);
       p1.hs == p.hs && p1.lastSeen == p.lastSeen && (p1.session.Some? <==> p.session.Some?)
  }

  /** The handshakes that go after that of `key`: half-open ones inserted later, and re-handshakes. */
  function Against(t: Table, key: Address): nat
    requires Has(t.peers, key)
  {
    Tally(t.peers[Find(t.peers, key) + 1..], HalfOpen) + Renewals(t)
  }

  ghost predicate Spares(t: Table, t1: Table, key: Address, more: nat) {
    Keeps(t, t1, key) && Against(t1, key) <= Against(t, key) + more
  }

  lemma SparesBoth(t: Table, t1: Table, t2: Table, key: Address, more: nat, more': nat)
    requires Spares(t, t1, key, more) && Spares(t1, t2, key, more')
    ensures Spares(t, t2, key, more + more')
  {
  }

  lemma FindWithout(peers: Peers, i: nat, key: Address)
    requires i < |peers| && Has(peers, key) && i != Find(peers, key)
    ensures var (w, f) := (Without(peers, i), Find(peers, key));
            && Find(w, key) == (if i < f then f - 1 else f) && Has(w, key) && w[Find(w, key)] == peers[f]
            && w[Find(w, key) + 1..] == if i < f then peers[f + 1..] else Without(peers[f + 1..], i - f - 1)
  {
    hide Find, Without;
    var (w, f) := (Without(peers, i), Find(peers, key));
    var f' := if i < f then f - 1 else f;
    WithoutAt(peers, i, f');
    forall j | 0 <= j < f' ensures w[j].key != key {
      WithoutAt(peers, i, j);
    }
    FirstWithKey(w, f', key);
    TailWithout(peers, i, f);
  }

  lemma TailWithout(peers: Peers, i: nat, f: nat)
    requires i < |peers| && f < |peers| && i != f
    ensures i < f ==> Without(peers, i)[f..] == peers[f + 1..]
    ensures i > f ==> Without(peers, i)[f + 1..] == Without(peers[f + 1..], i - f - 1)
  {
    if i > f {
      assert peers[f + 1..][..i - f - 1] == peers[f + 1..i] && peers[f + 1..][i - f..] == peers[i + 1..];
      assert peers[..i][f + 1..] == peers[f + 1..i];
    } else {
      assert (peers[..i] + peers[i + 1..])[f..] == peers[i + 1..][f - i..];
    }
  }

  lemma WithoutSpares(t: Table, t1: Table, i: nat, key: Address)
    requires i < |t.peers| && Has(t.peers, key) && i != Find(t.peers, key) && t1.peers == Without(t.peers, i)
    ensures Spares(t, t1, key, 0)
  {
    hide Find, Tally, Without, KindOf;
    var f := Find(t.peers, key);
    FindWithout(t.peers, i, key);
    TallyAt(t.peers, i, Renewing);
    if i > f {
      TallyAt(t.peers[f + 1..], i - f - 1, HalfOpen);
    }
  }

  /** Replacing a peer by one of another kind that is not settled adds at most one. */
  lemma ReplaceSpares(t: Table, other: Address, p: Peer, key: Address)
    requires Has(t.peers, other) && Has(t.peers, key) && other != key
    ensures var same := KindOf(p) == Settled || KindOf(p) == KindOf(t.peers[Find(t.peers, other)].value);
            Spares(t, Replace(t, other, p), key, if same then 0 else 1)
  {
    hide Find, Tally;
    var (peers, i, f) := (t.peers, Find(t.peers, other), Find(t.peers, key));
    var (e, t1) := (Entry(other, p), Replace(t, other, p));
    assert forall j :: 0 <= j < f ==> t1.peers[j].key == peers[j].key;
    FirstWithKey(t1.peers, f, key);
    TallyReplaced(peers, i, e, Renewing);
    if i > f {
      assert t1.peers[f + 1..] == peers[f + 1..][i - f - 1 := e];
      TallyReplaced(peers[f + 1..], i - f - 1, e, HalfOpen);
    } else {
      assert t1.peers[f + 1..] == peers[f + 1..];
    }
  }

  lemma AppendSpares(t: Table, t1: Table, e: Entry<Address, Peer>, key: Address)
    requires Has(t.peers, key) && t1.peers == t.peers + [e] && IsHalfOpen(e.value)
    ensures Spares(t, t1, key, 1)
  {
    hide Find, Tally;
    var f := Find(t.peers, key);
    assert forall j :: 0 <= j <= f ==> t1.peers[j] == t.peers[j];
    FirstWithKey(t1.peers, f, key);
    TallyAppended(t.peers, e, Renewing);
    assert t1.peers[f + 1..] == t.peers[f + 1..] + [e];
    TallyAppended(t.peers[f + 1..], e, HalfOpen);
  }

  /** The oldest half-open peer is dropped only when all handshakes but its own go after it. */
  lemma MakeRoomSpares(cfg: Config, t: Table, key: Address)
    requires Accounted(t) && Has(t.peers, key) && t.peers[Find(t.peers, key)].value.hs.Some?
    requires t.peers[Find(t.peers, key)].value.session.Some? || Against(t, key) + 1 < cfg.maxPending
    ensures Spares(t, MakeRoom(cfg, t), key, 0)
  {
    hide Tally;
    var (i, f) := (FirstHalfOpen(t.peers), Find(t.peers, key));
    if t.pending >= cfg.maxPending && i < |t.peers| {
      if i == f {
        OldestCounts(t.peers, i);
      }
      WithoutSpares(t, Drop(t, i), i, key);
    }
  }

  lemma OldestCounts(peers: Peers, i: nat)
    requires i < |peers| && i == FirstHalfOpen(peers)
    ensures Tally(peers, HalfOpen) == 1 + Tally(peers[i + 1..], HalfOpen)
  {
    SplitAt(peers, i);
    TallyConcat(peers[..i], [peers[i]] + peers[i + 1..], HalfOpen);
    TallyConcat([peers[i]], peers[i + 1..], HalfOpen);
    TallyNone(peers[..i], HalfOpen);
    TallyOne([peers[i]], HalfOpen);
  }

  predicate Bears(cfg: Config, t: Table, key: Address, starts: nat) {
    && Has(t.peers, key) && t.peers[Find(t.peers, key)].value.hs.Some?
    && (t.peers[Find(t.peers, key)].value.session.Some? || Against(t, key) + starts < cfg.maxPending)
  }

  lemma AdmitSpares(cfg: Config, t: Table, other: Address, now: int, key: Address)
    requires Accounted(t) && other != key && Bears(cfg, t, key, if Idle(t, other) then 1 else 0)
    ensures Spares(t, Admit(cfg, t, other, now), key, if Idle(t, other) then 1 else 0)
  {
    hide Tally, MakeRoom, Responder, Against, Replace;
    if Idle(t, other) {
      var (room, t1) := (MakeRoom(cfg, t), Admit(cfg, t, other, now));
      MakeRoomSpares(cfg, t, key);
      EvictionKeepsOthers(cfg, t, other);
      if Has(t.peers, other) {
        var p := t.peers[Find(t.peers, other)].value.(hs := Some(Responder(cfg)));
        ReplaceSpares(room, other, p, key);
        SparesAsPeers(room, Replace(room, other, p), t1, key, 1);
      } else {
        AppendSpares(room, t1, Entry(other, Peer(Some(Responder(cfg)), None, now)), key);
      }
      SparesBoth(t, room, t1, key, 0, 1);
    }
  }

  /** Counters do not matter. */
  lemma SparesAsPeers(t: Table, t1: Table, t2: Table, key: Address, more: nat)
    requires Spares(t, t1, key, more) && t2.peers == t1.peers
    ensures Spares(t, t2, key, more)
  {
  }

  lemma AbandonSpares(t: Table, other: Address, key: Address)
    requires Has(t.peers, other) && Has(t.peers, key) && other != key
    ensures Spares(t, Abandon(t, other), key, 0)
  {
    hide Tally, Against, Replace;
    var i := Find(t.peers, other);
    var p := t.peers[i].value;
    if p.session.None? {
      WithoutSpares(t, Abandon(t, other), i, key);
    } else {
      ReplaceSpares(t, other, p.(hs := None), key);
      SparesAsPeers(t, Replace(t, other, p.(hs := None)), Abandon(t, other), key, 0);
    }
  }

  lemma EstablishSpares(cfg: Config, t: Table, other: Address, transport: Transport, now: int, key: Address)
    requires Has(t.peers, other) && Has(t.peers, key) && other != key
    requires t.peers[Find(t.peers, key)].value.hs.Some?
    ensures Spares(t, Establish(cfg, t, other, transport, now), key, 0)
  {
    hide Tally, Against, Replace;
    var t1 := Replace(t, other, Peer(None, Some(NewSession(transport)), now));
    var t2 := t1.(pending := t.pending - 1, established := t.established + 1);
    ReplaceSpares(t, other, Peer(None, Some(NewSession(transport)), now), key);
    SparesAsPeers(t, t1, t2, key, 0);
    var i := FirstSettled(t2.peers, other);
    if i < |t2.peers| {
      WithoutSpares(t2, Drop(t2, i), i, key);
      SparesBoth(t, t2, Drop(t2, i), key, 0, 0);
    }
  }

  lemma FeedSpares(cfg: Config, t: Table, other: Address, body: Bytes, ephemeral: KeyPair, now: int, key: Address)
    requires Has(t.peers, other) && t.peers[Find(t.peers, other)].value.hs.Some? && other != key
    requires Has(t.peers, key) && t.peers[Find(t.peers, key)].value.hs.Some?
    ensures Spares(t, Feed(cfg, t, other, body, ephemeral, now).0, key, 0)
  {
    hide Tally, Against, Replace, ReadMessage, WriteMessage, Establish, Abandon;
    var peer := t.peers[Find(t.peers, other)].value;
    var read := ReadMessage(cfg.crypto, peer.hs.value, body);
    if read.outcome.Err? {
      AbandonSpares(t, other, key);
    } else if read.outcome.value.transport.Some? {
      EstablishSpares(cfg, t, other, read.outcome.value.transport.value, now, key);
    } else {
      var written := WriteMessage(cfg.crypto, read.state, [], ephemeral);
      var seen := peer.(hs := Some(read.state), lastSeen := now);
      ReplaceSpares(t, other, seen, key);
      ReplaceSpares(t, other, seen.(hs := Some(written.state)), key);
      AbandonSpares(Replace(t, other, seen), other, key);
      SparesBoth(t, Replace(t, other, seen), Abandon(Replace(t, other, seen), other), key, 0, 0);
    }
  }

  /** What the peer itself, the server's owner and the timer may do without ending the handshake of
      `key`: nothing comes from its address, nobody closes it, and it is not old enough to sweep. */
  predicate Harmless(cfg: Config, e: Event, key: Address, seen: int) {
    match e
    case Datagram(_, other, _, _) => other != key
    case HandleCloses(other) => other != key
    case HandleSends(_, _) => true
    case TimerSweeps(now) => now - cfg.ttl <= seen
    case ServerCloses => false
  }

  /** A handshake datagram from a peer without one makes room for a new one, whatever it holds. */
  predicate AsksForRoom(t: Table, e: Event) {
    IsHandshake(e) && Idle(t, e.key)
  }

  lemma OwnRecordSpares(t: Table, key: Address, p: Peer)
    requires Has(t.peers, key)
    requires var q := t.peers[Find(t.peers, key)].value;
             p.hs == q.hs && p.lastSeen == q.lastSeen && p.session.Some? && q.session.Some?
    ensures Spares(t, Replace(t, key, p), key, 0)
  {
    hide Find, Tally;
    var f := Find(t.peers, key);
    TallyReplaced(t.peers, f, Entry(key, p), Renewing);
    assert Replace(t, key, p).peers[f + 1..] == t.peers[f + 1..];
  }

  lemma SparesItself(t: Table, key: Address)
    requires Has(t.peers, key)
    ensures Spares(t, t, key, 0)
  {
  }

  lemma TransportSpares(cfg: Config, t: Table, other: Address, body: Bytes, now: int, key: Address)
    requires Has(t.peers, key) && other != key
    ensures Spares(t, OnTransport(cfg, t, other, body, now).0, key, 0)
  {
    hide Tally, Against, Replace, Open;
    SparesItself(t, key);
    if Has(t.peers, other) && t.peers[Find(t.peers, other)].value.session.Some? {
      var peer := t.peers[Find(t.peers, other)].value;
      var (session, plain) := Open(cfg.crypto, peer.session.value, body);
      ReplaceSpares(t, other, peer.(session := Some(session)), key);
      ReplaceSpares(t, other, peer.(session := Some(session), lastSeen := now), key);
    }
  }

  lemma SendSpares(cfg: Config, t: Table, other: Address, plaintext: Bytes, key: Address)
    requires Has(t.peers, key)
    ensures Spares(t, SendTo(cfg, t, other, plaintext), key, 0)
  {
    hide Tally, Against, Replace, Seal;
    SparesItself(t, key);
    if Has(t.peers, other) && t.peers[Find(t.peers, other)].value.session.Some? {
      var peer := t.peers[Find(t.peers, other)].value;
      var p := peer.(session := Some(Seal(cfg.crypto, peer.session.value, plaintext).state));
      if other == key {
        OwnRecordSpares(t, key, p);
      } else {
        ReplaceSpares(t, other, p, key);
      }
    }
  }

  lemma {:induction false} SweepSpares(t: Table, cutoff: int, from: nat, key: Address)
    requires from <= |t.peers| && Has(t.peers, key) && t.peers[Find(t.peers, key)].value.lastSeen >= cutoff
    ensures Spares(t, Sweep(t, cutoff, from), key, 0)
    decreases |t.peers| - from
  {
    hide Tally, Against;
    SparesItself(t, key);
    if from < |t.peers| {
      if t.peers[from].value.lastSeen < cutoff {
        WithoutSpares(t, Drop(t, from), from, key);
        SweepSpares(Drop(t, from), cutoff, from, key);
        SparesBoth(t, Drop(t, from), Sweep(t, cutoff, from), key, 0, 0);
      } else {
        SweepSpares(t, cutoff, from + 1, key);
      }
    }
  }

  lemma ClosesSpares(t: Table, other: Address, key: Address)
    requires Has(t.peers, key) && other != key
    ensures Spares(t, Forget(t, other), key, 0)
  {
    SparesItself(t, key);
    if Has(t.peers, other) {
      WithoutSpares(t, Drop(t, Find(t.peers, other)), Find(t.peers, other), key);
    }
  }

  lemma HandshakeSpares(cfg: Config, t: Table, e: Event, key: Address)
    requires Accounted(t) && IsHandshake(e) && e.key != key && Bears(cfg, t, key, One(AsksForRoom(t, e)))
    ensures Spares(t, Step(cfg, t, e), key, One(AsksForRoom(t, e)))
  {
    hide Tally, Against, Admit, Feed;
    var t1 := Admit(cfg, t, e.key, e.now);
    AdmitSpares(cfg, t, e.key, e.now, key);
    FeedSpares(cfg, t1, e.key, e.data[1..], e.ephemeral, e.now, key);
    SparesBoth(t, t1, Step(cfg, t, e), key, One(AsksForRoom(t, e)), 0);
  }

  /** One harmless event leaves the handshake where it is, and at most one more goes after it. */
  lemma StepSpares(cfg: Config, t: Table, e: Event, key: Address)
    requires Accounted(t) && Bears(cfg, t, key, One(AsksForRoom(t, e)))
    requires Harmless(cfg, e, key, t.peers[Find(t.peers, key)].value.lastSeen)
    ensures Spares(t, Step(cfg, t, e), key, One(AsksForRoom(t, e)))
  {
    hide Tally, Against, Find, OnHandshake, OnTransport, Sweep, SendTo, Forget;
    if IsHandshake(e) {
      HandshakeSpares(cfg, t, e, key);
    } else {
      SparesItself(t, key);
      match e {
        case Datagram(data, other, ephemeral, now) =>
          if |data| > 0 {
            TransportSpares(cfg, t, other, data[1..], now, key);
          }
        case HandleCloses(other) => ClosesSpares(t, other, key);
        case HandleSends(other, plaintext) => SendSpares(cfg, t, other, plaintext, key);
        case TimerSweeps(now) => SweepSpares(t, now - cfg.ttl, 0, key);
      }
    }
  }

  /** How often room is asked for over a run. */
  function Asks(cfg: Config, t: Table, events: seq<Event>): nat
    decreases |events|
  {
    if events == [] then 0 else One(AsksForRoom(t, events[0])) + Asks(cfg, Step(cfg, t, events[0]), events[1..])
  }

  ghost predicate AllHarmless(cfg: Config, events: seq<Event>, key: Address, seen: int) {
    forall i :: 0 <= i < |events| ==> Harmless(cfg, events[i], key, seen)
  }

  lemma HarmlessRest(cfg: Config, events: seq<Event>, key: Address, seen: int)
    requires AllHarmless(cfg, events, key, seen) && events != []
    ensures Harmless(cfg, events[0], key, seen) && AllHarmless(cfg, events[1..], key, seen)
  {
  }

  /** Over any run of events that are harmless to it, a handshake in progress is still there at the
      end if it is a re-handshake, or if fewer than `maxPending` handshakes go after it: the ones
      that already do, and the ones the run asks room for. */
  lemma {:induction false} HandshakeOutlives(cfg: Config, t: Table, m: Meter, events: seq<Event>, key: Address)
    requires Bounded(cfg, t, m) && Bears(cfg, t, key, Asks(cfg, t, events))
    requires AllHarmless(cfg, events, key, t.peers[Find(t.peers, key)].value.lastSeen)
    ensures Keeps(t, Run(cfg, t, events), key)
    decreases |events|
  {
    hide Step, Against, AllHarmless, Harmless, AsksForRoom, Tally, Find;
    if events != [] {
      var t1 := Step(cfg, t, events[0]);
      HarmlessRest(cfg, events, key, t.peers[Find(t.peers, key)].value.lastSeen);
      StepBounded(cfg, t, m, events[0]);
      StepSpares(cfg, t, events[0], key);
      HandshakeOutlives(cfg, t1, Metered(cfg, t, m, events[0]), events[1..], key);
    }
  }

  // ----- An honest client gets in -----

  /** An answered first message leaves the record with the answer's handshake, seen now. */
  lemma FeedAnswered(cfg: Config, t: Table, key: Address, body: Bytes, ephemeral: KeyPair, now: int)
    requires Has(t.peers, key) && t.peers[Find(t.peers, key)].value.hs.Some?
    ensures var (t1, output) := Feed(cfg, t, key, body, ephemeral, now);
            output.Reply? ==>
              exists hs :: t1 == Replace(t, key, Peer(Some(hs), t.peers[Find(t.peers, key)].value.session, now))
  {
    hide ReadMessage, WriteMessage, Establish, Abandon, Replace;
  }

  /** A newcomer's record is the last one, so nothing but re-handshakes goes after it. */
  lemma NewcomerIsLast(cfg: Config, t: Table, key: Address, now: int)
    requires Accounted(t) && !Has(t.peers, key)
    ensures var t1 := Admit(cfg, t, key, now);
            Has(t1.peers, key) && Find(t1.peers, key) == |t1.peers| - 1 && Renewals(t1) == Renewals(t)
  {
    hide Tally, MakeRoom, Responder;
    var (room, e) := (MakeRoom(cfg, t), Entry(key, Peer(Some(Responder(cfg)), None, now)));
    MakeRoomAccounts(cfg, t);
    EvictionKeepsOthers(cfg, t, key);
    var all := room.peers + [e];
    assert forall j :: 0 <= j < |room.peers| ==> all[j] == room.peers[j];
    FirstWithKey(all, |room.peers|, key);
    TallyAppended(room.peers, e, Renewing);
  }

  lemma AnsweredBears(cfg: Config, t: Table, key: Address, body: Bytes, ephemeral: KeyPair, now: int, starts: nat)
    requires Accounted(t) && Idle(t, key) && OnHandshake(cfg, t, key, body, ephemeral, now).1.Reply?
    requires Has(t.peers, key) || Renewals(t) + starts < cfg.maxPending
    ensures var t1 := OnHandshake(cfg, t, key, body, ephemeral, now).0;
            Bears(cfg, t1, key, starts) && t1.peers[Find(t1.peers, key)].value.lastSeen == now
  {
    hide Tally, Feed, Find, Admit;
    var (t0, t1) := (Admit(cfg, t, key, now), OnHandshake(cfg, t, key, body, ephemeral, now).0);
    AdmitAccounts(cfg, t, key, now);
    FeedAnswered(cfg, t0, key, body, ephemeral, now);
    var session := t0.peers[Find(t0.peers, key)].value.session;
    var hs :| t1 == Replace(t0, key, Peer(Some(hs), session, now));
    if !Has(t.peers, key) {
      NewcomerIsLast(cfg, t, key, now);
      TallyReplaced(t0.peers, |t0.peers| - 1, Entry(key, Peer(Some(hs), session, now)), Renewing);
      assert t1.peers[|t1.peers|..] == [];
      TallyNone(t1.peers[|t1.peers|..], HalfOpen);
    }
  }

  /** From its first datagram to its session: an honest client without a handshake in progress gets
      in, over any run in which nothing comes from its address and it is not old enough to sweep, if
      the server knows it or fewer than `maxPending` handshakes are in its way: the re-handshakes,
      and the newer ones the run asks room for. */
  lemma HonestClientGetsIn(cfg: Config, t: Table, m: Meter, key: Address, cl: Client, now: int, events: seq<Event>,
                           ephemeral: KeyPair, then': int)
    requires Honest(cfg, cl) && Bounded(cfg, t, m) && Idle(t, key) && AllHarmless(cfg, events, key, now)
    requires var t1 := Step(cfg, t, FirstFrom(cfg, cl, key, now));
             Has(t.peers, key) || Renewals(t) + Asks(cfg, t1, events) < cfg.maxPending
    ensures var later := Run(cfg, Step(cfg, t, FirstFrom(cfg, cl, key, now)), events);
            var third := [HANDSHAKE] + Message(Relayed(cfg, cl).third);
            var (t2, output) := OnDatagram(cfg, later, third, key, ephemeral, then');
            output == Opened(cl.s.publicRaw) && PairedAt(cfg, t2, key, cl, then')
  {
    hide Honest, Relayed, OnHandshake, PairedAt, AllHarmless, Bounded, Run, Asks, OnDatagram;
    var first := FirstFrom(cfg, cl, key, now);
    var t1 := Step(cfg, t, first);
    FirstIsHandshake(cfg, t, key, cl, now);
    FirstIsAnswered(cfg, t, key, cl, now);
    IsAccounted(cfg, t, m);
    AnsweredBears(cfg, t, key, Message(Relayed(cfg, cl).first), cl.answer, now, Asks(cfg, t1, events));
    StepBounded(cfg, t, m, first);
    HandshakeOutlives(cfg, t1, Metered(cfg, t, m, first), events, key);
    ClientIsAuthenticated(cfg, t, Run(cfg, t1, events), key, cl, ephemeral, now, then');
  }

  lemma IsAccounted(cfg: Config, t: Table, m: Meter)
    requires Bounded(cfg, t, m)
    ensures Accounted(t)
  {
  }

  lemma FirstIsHandshake(cfg: Config, t: Table, key: Address, cl: Client, now: int)
    ensures Step(cfg, t, FirstFrom(cfg, cl, key, now))
         == OnHandshake(cfg, t, key, Message(Relayed(cfg, cl).first), cl.answer, now).0
  {
    hide OnHandshake, Relayed;
    Tagged(HANDSHAKE, Message(Relayed(cfg, cl).first));
  }

  // ----- ... and no longer -----

  /** An acceptable first message from an unknown address, at each event of the run. */
  ghost predicate OnlyNewcomers(cfg: Config, t: Table, events: seq<Event>)
    decreases |events|
  {
    events == []
    || (StartsHandshake(cfg, t, events[0]) && !Has(t.peers, events[0].key)
        && OnlyNewcomers(cfg, Step(cfg, t, events[0]), events[1..]))
  }

  /** `key` has a first handshake, and no older one is in the table. */
  predicate IsOldest(t: Table, key: Address) {
    Has(t.peers, key) && Find(t.peers, key) == FirstHalfOpen(t.peers)
  }

  lemma NewcomerJoins(cfg: Config, t: Table, e: Event)
    requires Accounted(t) && StartsHandshake(cfg, t, e) && !Has(t.peers, e.key)
    ensures var (room, t1) := (MakeRoom(cfg, t), Step(cfg, t, e));
            exists p :: IsHalfOpen(p)
                        && t1 == room.(peers := room.peers + [Entry(e.key, p)], pending := room.pending + 1)
  {
    hide Tally, Feed, MakeRoom, AcceptableFirst, Responder;
    var (room, t0, t1) := (MakeRoom(cfg, t), Admit(cfg, t, e.key, e.now), Step(cfg, t, e));
    AdmitStarts(cfg, t, e.key, e.now);
    AnsweredIffAcceptable(cfg, t0, e.key, e.data[1..], e.ephemeral, e.now);
    FeedAnswered(cfg, t0, e.key, e.data[1..], e.ephemeral, e.now);
    NewcomerIsLast(cfg, t, e.key, e.now);
    var session := t0.peers[Find(t0.peers, e.key)].value.session;
    var hs :| t1 == Replace(t0, e.key, Peer(Some(hs), session, e.now));
    var p := Peer(Some(hs), session, e.now);
    assert t1.peers == room.peers + [Entry(e.key, p)];
    assert IsHalfOpen(p);
  }

  /** A newcomer costs the oldest half-open peer its place if and only if the cap is reached. */
  lemma NewcomerAgainstOldest(cfg: Config, t: Table, e: Event, key: Address)
    requires Accounted(t) && StartsHandshake(cfg, t, e) && !Has(t.peers, e.key) && IsOldest(t, key)
    ensures var t1 := Step(cfg, t, e);
            if t.pending >= cfg.maxPending then !Has(t1.peers, key)
            else IsOldest(t1, key) && t1.pending == t.pending + 1
  {
    hide Tally, Step, AcceptableFirst, Idle;
    var (room, t1, f) := (MakeRoom(cfg, t), Step(cfg, t, e), Find(t.peers, key));
    NewcomerJoins(cfg, t, e);
    var p :| IsHalfOpen(p) && t1 == room.(peers := room.peers + [Entry(e.key, p)], pending := room.pending + 1);
    if t.pending >= cfg.maxPending {
      GoneWithout(t.peers, f);
      HasIffSome(t1.peers, key);
      HasIffSome(room.peers, key);
    } else {
      assert forall j :: 0 <= j < |t.peers| ==> t1.peers[j] == t.peers[j];
      FirstWithKey(t1.peers, f, key);
    }
  }

  lemma NewcomersDoNotReturn(cfg: Config, t: Table, m: Meter, events: seq<Event>, key: Address)
    requires Bounded(cfg, t, m) && OnlyNewcomers(cfg, t, events) && !Has(t.peers, key)
    requires forall i :: 0 <= i < |events| ==> events[i].Datagram? && events[i].key != key
    ensures !Has(Run(cfg, t, events).peers, key)
    decreases |events|
  {
    hide Tally, Step, StartsHandshake, MakeRoom, Find;
    if events != [] {
      var e := events[0];
      var (room, t1) := (MakeRoom(cfg, t), Step(cfg, t, e));
      NewcomerJoins(cfg, t, e);
      var p :| IsHalfOpen(p) && t1 == room.(peers := room.peers + [Entry(e.key, p)], pending := room.pending + 1);
      EvictionKeepsOthers(cfg, t, key);
      HasIffSome(t1.peers, key);
      HasIffSome(room.peers, key);
      StepBounded(cfg, t, m, e);
      NewcomersDoNotReturn(cfg, t1, Metered(cfg, t, m, e), events[1..], key);
    }
  }

  /** The bound is exact: against newcomers alone, the oldest half-open peer is left after a run if
      and only if the handshakes in progress and the newcomers together are within the cap. */
  lemma {:induction false} OldestOutlivesExactly(cfg: Config, t: Table, m: Meter, events: seq<Event>, key: Address)
    requires Bounded(cfg, t, m) && IsOldest(t, key) && events != [] && OnlyNewcomers(cfg, t, events)
    requires forall i :: 0 <= i < |events| ==> events[i].Datagram? && events[i].key != key
    ensures Has(Run(cfg, t, events).peers, key) <==> t.pending + |events| <= cfg.maxPending
    decreases |events|
  {
    hide Tally, Step, StartsHandshake, Find;
    var (e, rest) := (events[0], events[1..]);
    var t1 := Step(cfg, t, e);
    assert Run(cfg, t, events) == Run(cfg, t1, rest);
    NewcomerAgainstOldest(cfg, t, e, key);
    StepBounded(cfg, t, m, e);
    if t.pending >= cfg.maxPending {
      NewcomersDoNotReturn(cfg, t1, Metered(cfg, t, m, e), rest, key);
    } else if rest != [] {
      OldestOutlivesExactly(cfg, t1, Metered(cfg, t, m, e), rest, key);
    }
  }
}
