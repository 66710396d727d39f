/** The pending cap of ts/net/secure-udp.ts, event by event: exactly when `pending` passes it, and
    how far. */
module PeerTablePending {
  import opened Wrappers
  import opened ByteStrings
  import opened OrderedMap
  import opened Crypto
  import opened HandshakeStates
  import opened NoiseSessions
  import opened PeerTable
  import opened PeerTableSafety
  import opened PeerTableTheorems
  import opened PeerTableAgreement
  import opened PeerTableCap

  // ----- When the cap is passed -----

  predicate IsHandshake(e: Event) {
    e.Datagram? && |e.data| >= 1 && e.data[0] == HANDSHAKE
  }

  /** A first message that the server will answer, from a peer with no handshake in progress. */
  predicate StartsHandshake(cfg: Config, t: Table, e: Event) {
    IsHandshake(e) && Idle(t, e.key) && AcceptableFirst(cfg, e.data[1..], e.ephemeral)
  }

  /** Feeding a handshake datagram never adds to `pending`, and takes one off unless it is answered. */
  lemma FeedPending(cfg: Config, t: Table, key: Address, body: Bytes, ephemeral: KeyPair, now: int)
    requires Has(t.peers, key) && t.peers[Find(t.peers, key)].value.hs.Some?
    ensures var (t1, output) := Feed(cfg, t, key, body, ephemeral, now);
            t1.pending == t.pending - (if output.Reply? then 0 else 1)
  {
    hide ReadMessage, WriteMessage, NewSession;
    var read := ReadMessage(cfg.crypto, t.peers[Find(t.peers, key)].value.hs.value, body);
    if read.outcome.Ok? && read.outcome.value.transport.Some? {
      EstablishPending(cfg, t, key, read.outcome.value.transport.value, now);
    }
  }

  lemma EstablishPending(cfg: Config, t: Table, key: Address, transport: Transport, now: int)
    requires Has(t.peers, key)
    ensures Establish(cfg, t, key, transport, now).pending == t.pending - 1
  {
  }

  /** A first message is answered if and only if it is acceptable. */
  lemma AnsweredIffAcceptable(cfg: Config, t: Table, key: Address, body: Bytes, ephemeral: KeyPair, now: int)
    requires Handshaking(t, key, Responder(cfg))
    ensures Feed(cfg, t, key, body, ephemeral, now).1.Reply? <==> AcceptableFirst(cfg, body, ephemeral)
  {
    hide WriteMessage, Responder;
    var read := ReadMessage(cfg.crypto, Responder(cfg), body);
    FirstMessageRead(cfg, body);
    hide ReadMessage;
    if read.outcome.Ok? {
      AnswerWritten(cfg, read.state, ephemeral);
    }
  }

  lemma AdmitPending(cfg: Config, t: Table, key: Address, now: int)
    requires Accounted(t)
    ensures Admit(cfg, t, key, now).pending
         == if !Idle(t, key) then t.pending
            else if t.pending < cfg.maxPending || HalfOpens(t) == 0 then t.pending + 1 else t.pending
  {
    hide Tally, MakeRoom, Responder;
    MakeRoomAccounts(cfg, t);
  }

  lemma HandshakePending(cfg: Config, t: Table, e: Event)
    requires Accounted(t) && IsHandshake(e)
    ensures var full := t.pending >= cfg.maxPending && HalfOpens(t) > 0;
            && (StartsHandshake(cfg, t, e) ==> Step(cfg, t, e).pending == t.pending + if full then 0 else 1)
            && (!StartsHandshake(cfg, t, e) ==> Step(cfg, t, e).pending <= t.pending)
  {
    hide Tally, Feed, Admit, AcceptableFirst;
    AdmitPending(cfg, t, e.key, e.now);
    FeedPending(cfg, Admit(cfg, t, e.key, e.now), e.key, e.data[1..], e.ephemeral, e.now);
    if Idle(t, e.key) {
      AdmitStarts(cfg, t, e.key, e.now);
      AnsweredIffAcceptable(cfg, Admit(cfg, t, e.key, e.now), e.key, e.data[1..], e.ephemeral, e.now);
    }
  }

  lemma {:induction false} SweepPending(t: Table, cutoff: int, from: nat)
    requires from <= |t.peers|
    ensures Sweep(t, cutoff, from).pending <= t.pending
    decreases |t.peers| - from
  {
    if from < |t.peers| {
      if t.peers[from].value.lastSeen < cutoff {
        SweepPending(Drop(t, from), cutoff, from);
      } else {
        SweepPending(t, cutoff, from + 1);
      }
    }
  }

  lemma OthersPending(cfg: Config, t: Table, e: Event)
    requires Accounted(t) && !IsHandshake(e)
    ensures Step(cfg, t, e).pending <= t.pending
  {
    hide Tally, Open;
    match e {
      case TimerSweeps(now) => SweepPending(t, now - cfg.ttl, 0);
      case _ =>
    }
  }

  /** In every state with exact accounting, so in every reachable one: `pending` rises past the cap,
      or further past it, if and only if a peer with no handshake in progress sends an acceptable
      first message while the cap is reached by re-handshakes alone. It then rises by one. */
  lemma CapIsPassedExactly(cfg: Config, t: Table, e: Event)
    requires Accounted(t)
    ensures var passes := StartsHandshake(cfg, t, e) && t.pending >= cfg.maxPending && HalfOpens(t) == 0;
            && (Step(cfg, t, e).pending > Max(t.pending, cfg.maxPending) <==> passes)
            && (passes ==> Step(cfg, t, e).pending == t.pending + 1 == Renewals(t) + 1)
  {
    hide Tally, Step, StartsHandshake, AcceptableFirst;
    if IsHandshake(e) {
      HandshakePending(cfg, t, e);
    } else {
      OthersPending(cfg, t, e);
      NoStart(cfg, t, e);
    }
  }

  lemma NoStart(cfg: Config, t: Table, e: Event)
    requires !IsHandshake(e)
    ensures !StartsHandshake(cfg, t, e)
  {
  }

  /** When that peer is a newcomer, the bound of R + 1 handshakes with R re-handshaking is met. */
  lemma NewcomerMeetsTheBound(cfg: Config, t: Table, m: Meter, e: Event)
    requires Bounded(cfg, t, m) && StartsHandshake(cfg, t, e) && !Has(t.peers, e.key)
    requires t.pending >= cfg.maxPending && HalfOpens(t) == 0
    ensures var t1 := Step(cfg, t, e);
            t1.pending == Renewals(t1) + 1 > cfg.maxPending && HalfOpens(t1) == 1
  {
    hide Tally, OnHandshake, AcceptableFirst;
    CapIsPassedExactly(cfg, t, e);
    StepBounded(cfg, t, m, e);
    NewcomerIsAdmitted(cfg, t, e.key, e.data[1..], e.ephemeral, e.now);
    var t1 := Step(cfg, t, e);
    TallyAt(t1.peers, Find(t1.peers, e.key), HalfOpen);
  }

  // ----- A run that passes the cap -----

  lemma NoHalfOpens(cfg: Config, t: Table)
    requires forall i :: 0 <= i < |t.peers| ==> t.peers[i].value.session.Some?
    ensures MakeRoom(cfg, t) == t
  {
  }

  lemma TallyTwo(x: Entry<Address, Peer>, y: Entry<Address, Peer>, k: Kind)
    ensures Tally([x, y], k) == One(KindOf(x.value) == k) + One(KindOf(y.value) == k)
  {
    TallyOne([x], k);
    TallyAppended([x], y, k);
    assert [x] + [y] == [x, y];
  }

  /** Two clients with sessions re-handshake at the same time in a server for one handshake: both
      are under way. And a newcomer makes it three, one more than the re-handshakes. */
  lemma RehandshakesPassTheCap(cfg: Config, start: Table, ka: Address, a: Client, a': Client, kb: Address, b: Client,
                               b': Client, kc: Address, newcomer: Client, now: int)
    requires start == EMPTY_TABLE && cfg.maxPending == 1 && cfg.maxSessions >= 2 && ka != kb && kc != ka && kc != kb
    requires Honest(cfg, a) && Honest(cfg, a') && Honest(cfg, b) && Honest(cfg, b') && Honest(cfg, newcomer)
    ensures var sessions := HandshakeFrom(cfg, a, ka, now, now) + HandshakeFrom(cfg, b, kb, now, now);
            var again := [FirstFrom(cfg, a', ka, now), FirstFrom(cfg, b', kb, now)];
            var t := Run(cfg, start, sessions + again);
            && t.pending == Renewals(t) == 2
            && Step(cfg, t, FirstFrom(cfg, newcomer, kc, now)).pending == 3
  {
    hide Step, Honest, FirstFrom, ThirdFrom, OpenedFor, Relayed;
    var (a1, a3) := (FirstFrom(cfg, a, ka, now), ThirdFrom(cfg, a, ka, now));
    var (b1, b3) := (FirstFrom(cfg, b, kb, now), ThirdFrom(cfg, b, kb, now));
    var (again1, again2) := (FirstFrom(cfg, a', ka, now), FirstFrom(cfg, b', kb, now));
    var t1 := OneSession(ka, OpenedFor(cfg, a), now, 1);
    var t2 := TwoPeers(ka, Peer(None, Some(OpenedFor(cfg, a)), now), kb, Peer(None, Some(OpenedFor(cfg, b)), now), 0);
    OneAlone(cfg, start, ka, a, now, now);
    NextWithinCap(cfg, t1, ka, OpenedFor(cfg, a), kb, b, now);
    var t4 := BothRenew(cfg, t2, ka, a', kb, b', now);
    NoHalfOpens(cfg, t4);
    HasIffSome(t4.peers, kc);
    FirstExact(cfg, t4, kc, newcomer, now);
    assert t4.peers == [t4.peers[0], t4.peers[1]];
    TallyTwo(t4.peers[0], t4.peers[1], Renewing);
    RunTwo(cfg, start, a1, a3, [b1, b3] + [again1, again2]);
    RunTwo(cfg, t1, b1, b3, [again1, again2]);
    RunTwo(cfg, t2, again1, again2, []);
    assert [again1, again2] + [] == [again1, again2];
    assert [a1, a3] + [b1, b3] + [again1, again2] == [a1, a3] + ([b1, b3] + [again1, again2]);
  }

  lemma BothRenew(cfg: Config, t: Table, ka: Address, a: Client, kb: Address, b: Client, now: int) returns (t2: Table)
    requires Honest(cfg, a) && Honest(cfg, b) && cfg.maxPending == 1 && ka != kb && t.pending == 0 && |t.peers| == 2
    requires t.peers[0].key == ka && t.peers[0].value.hs.None? && t.peers[0].value.session.Some?
    requires t.peers[1].key == kb && t.peers[1].value.hs.None? && t.peers[1].value.session.Some?
    ensures t2 == Step(cfg, Step(cfg, t, FirstFrom(cfg, a, ka, now)), FirstFrom(cfg, b, kb, now))
    ensures t2.pending == 2 && |t2.peers| == 2 && t2.peers[0].key == ka && t2.peers[1].key == kb
    ensures KindOf(t2.peers[0].value) == KindOf(t2.peers[1].value) == Renewing
  {
    hide Step, Honest, FirstFrom, Relayed;
    var p := Peer(Some(Relayed(cfg, a).second.state), t.peers[0].value.session, now);
    var q := Peer(Some(Relayed(cfg, b).second.state), t.peers[1].value.session, now);
    FirstExact(cfg, t, ka, a, now);
    assert Find(t.peers, ka) == 0;
    var t1 := t.(peers := t.peers[0 := Entry(ka, p)], pending := 1);
    assert Step(cfg, t, FirstFrom(cfg, a, ka, now)) == t1;
    NoHalfOpens(cfg, t1);
    FirstExact(cfg, t1, kb, b, now);
    FirstWithKey(t1.peers, 1, kb);
    t2 := t1.(peers := t1.peers[1 := Entry(kb, q)], pending := 2);
  }

  function TwoPeers(ka: Address, p: Peer, kb: Address, q: Peer, pending: int): Table {
    Table([Entry(ka, p), Entry(kb, q)], pending, 2)
  }

  lemma NextWithinCap(cfg: Config, t: Table, ka: Address, sa: Session, kb: Address, b: Client, now: int)
    requires Honest(cfg, b) && 0 < cfg.maxPending && ka != kb && cfg.maxSessions >= 2
    requires t == OneSession(ka, sa, now, 1)
    ensures Step(cfg, Step(cfg, t, FirstFrom(cfg, b, kb, now)), ThirdFrom(cfg, b, kb, now))
         == TwoPeers(ka, Peer(None, Some(sa), now), kb, Peer(None, Some(OpenedFor(cfg, b)), now), 0)
  {
    hide Step, Honest, FirstFrom, ThirdFrom, OpenedFor;
    HandshakeExact(cfg, t, kb, b, now, now);
    HasIffSome(t.peers, kb);
    var full := [t.peers[0], Entry(kb, Peer(None, Some(OpenedFor(cfg, b)), now))];
    assert Put(t.peers, kb, full[1].value) == full;
  }
}
