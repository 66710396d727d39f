/** The promises a user of the secure-UDP server relies on, over every run from an empty table. */
module PeerTableTheorems {
  import opened Wrappers
  import opened ByteStrings
  import opened OrderedMap
  import opened Crypto
  import opened CipherStates
  import opened HandshakeStates
  import opened NoiseSessions
  import opened PeerTable
  import opened PeerTableSafety

  // ----- Every handshake kept in the table awaits msg3 -----

  ghost predicate AllAwaitThird(t: Table) {
    forall i :: 0 <= i < |t.peers| && t.peers[i].value.hs.Some? ==> t.peers[i].value.hs.value.step == 2
  }

  /** While a datagram is fed, only the handshake of `key` may be elsewhere. */
  ghost predicate OthersAwaitThird(t: Table, key: Address) {
    && (forall i :: 0 <= i < |t.peers| && t.peers[i].key != key && t.peers[i].value.hs.Some? ==>
          t.peers[i].value.hs.value.step == 2)
    && (Has(t.peers, key) && t.peers[Find(t.peers, key)].value.hs.Some? ==>
          t.peers[Find(t.peers, key)].value.hs.value.step in {0, 2})
  }

  lemma MessageSteps(c: Suite, hs: Handshake, bytes: Bytes, ephemeral: KeyPair)
    ensures var r := ReadMessage(c, hs, bytes);
            r.outcome.Ok? ==> hs.step < 3 && r.state.step == hs.step + 1
                              && (r.outcome.value.transport.Some? <==> hs.step == 2)
    ensures var w := WriteMessage(c, hs, bytes, ephemeral);
            w.outcome.Ok? ==> hs.step < 3 && w.state.step == hs.step + 1
  {
    if hs.step < 3 {
      TokensKeepStep(c, hs, XX[hs.step], ephemeral, bytes);
      TokensKeepStep(c, hs, XX[hs.step], ephemeral, []);
    }
  }

  lemma WithoutAwaits(t: Table, i: nat)
    requires AllAwaitThird(t) && i < |t.peers|
    ensures AllAwaitThird(Drop(t, i))
  {
    var d := Drop(t, i).peers;
    assert forall j :: 0 <= j < |d| ==> d[j] == t.peers[if j < i then j else j + 1];
  }

  lemma RoomAwaits(cfg: Config, t: Table)
    requires AllAwaitThird(t)
    ensures AllAwaitThird(MakeRoom(cfg, t))
  {
    var i := FirstHalfOpen(t.peers);
    if i < |t.peers| {
      WithoutAwaits(t, i);
    }
  }

  lemma AdmitNewAwaits(cfg: Config, t: Table, key: Address, now: int)
    requires Accounted(t) && AllAwaitThird(t) && !Has(t.peers, key)
    ensures OthersAwaitThird(Admit(cfg, t, key, now), key)
    ensures var peers := Admit(cfg, t, key, now).peers; peers[Find(peers, key)].value.hs.value.step == 0
  {
    hide MakeRoom, Tally;
    var room := MakeRoom(cfg, t);
    RoomAwaits(cfg, t);
    MakeRoomAccounts(cfg, t);
    EvictionKeepsOthers(cfg, t, key);
    AppendedIsUnique(room.peers, Entry(key, Peer(Some(Responder(cfg)), None, now)));
  }

  lemma AdmitAwaits(cfg: Config, t: Table, key: Address, now: int)
    requires Accounted(t) && AllAwaitThird(t)
    ensures OthersAwaitThird(Admit(cfg, t, key, now), key)
    ensures var p := Admit(cfg, t, key, now).peers[Find(Admit(cfg, t, key, now).peers, key)].value;
            p.hs.value.step == 2 <==> Has(t.peers, key) && t.peers[Find(t.peers, key)].value.hs.Some?
  {
    hide MakeRoom, Tally;
    if !Has(t.peers, key) {
      AdmitNewAwaits(cfg, t, key, now);
    } else {
      RoomAwaits(cfg, t);
      EvictionKeepsOthers(cfg, t, key);
    }
  }

  lemma EvictionAwaits(t: Table, key: Address)
    requires AllAwaitThird(t)
    ensures AllAwaitThird(EvictOldestSession(t, key))
  {
    var i := FirstSettled(t.peers, key);
    if i < |t.peers| {
      WithoutAwaits(t, i);
    }
  }

  /** Once the handshake of `key` is at rest again, all are. */
  lemma ReplaceAwaits(t: Table, key: Address, p: Peer)
    requires Unique(t.peers) && OthersAwaitThird(t, key) && Has(t.peers, key)
    requires p.hs.Some? ==> p.hs.value.step == 2
    ensures AllAwaitThird(Replace(t, key, p))
  {
    var peers := Replace(t, key, p).peers;
    var i := Find(t.peers, key);
    forall j | 0 <= j < |peers| && peers[j].value.hs.Some? ensures peers[j].value.hs.value.step == 2 {
      assert j != i ==> peers[j] == t.peers[j] && t.peers[j].key != t.peers[i].key;
    }
  }

  lemma AbandonAwaits(t: Table, key: Address)
    requires Unique(t.peers) && OthersAwaitThird(t, key) && Has(t.peers, key)
    ensures AllAwaitThird(Abandon(t, key))
  {
    var i := Find(t.peers, key);
    var p := t.peers[i].value;
    if p.session.None? {
      ReplaceAwaits(t, key, p.(hs := None));
      WithoutAwaits(Replace(t, key, p.(hs := None)), i);
      assert Without(Replace(t, key, p.(hs := None)).peers, i) == Without(t.peers, i);
    } else {
      ReplaceAwaits(t, key, p.(hs := None));
    }
  }

  lemma FeedAwaits(cfg: Config, t: Table, key: Address, body: Bytes, ephemeral: KeyPair, now: int)
    requires Unique(t.peers) && OthersAwaitThird(t, key) && Has(t.peers, key)
    requires t.peers[Find(t.peers, key)].value.hs.Some?
    ensures AllAwaitThird(Feed(cfg, t, key, body, ephemeral, now).0)
    ensures Feed(cfg, t, key, body, ephemeral, now).1.Opened? ==> t.peers[Find(t.peers, key)].value.hs.value.step == 2
  {
    var peer := t.peers[Find(t.peers, key)].value;
    var read := ReadMessage(cfg.crypto, peer.hs.value, body);
    MessageSteps(cfg.crypto, peer.hs.value, body, ephemeral);
    if read.outcome.Err? {
      AbandonAwaits(t, key);
    } else if read.outcome.value.transport.Some? {
      var p := Peer(None, Some(NewSession(read.outcome.value.transport.value)), now);
      ReplaceAwaits(t, key, p);
      var t2 := Replace(t, key, p).(pending := t.pending - 1, established := t.established + 1);
      EvictionAwaits(t2, key);
    } else {
      var seen := peer.(hs := Some(read.state), lastSeen := now);
      MessageSteps(cfg.crypto, read.state, [], ephemeral);
      var written := WriteMessage(cfg.crypto, read.state, [], ephemeral);
      if written.outcome.Ok? {
        ReplaceAwaits(t, key, seen.(hs := Some(written.state)));
      } else {
        AbandonedAnswerAwaits(t, key, seen);
      }
    }
  }

  lemma AbandonedAnswerAwaits(t: Table, key: Address, p: Peer)
    requires Unique(t.peers) && OthersAwaitThird(t, key) && Has(t.peers, key)
    ensures AllAwaitThird(Abandon(Replace(t, key, p), key))
  {
    var i := Find(t.peers, key);
    ReplaceAwaits(t, key, p.(hs := None));
    if p.session.None? {
      WithoutAwaits(Replace(t, key, p.(hs := None)), i);
      assert Without(Replace(t, key, p).peers, i) == Without(Replace(t, key, p.(hs := None)).peers, i);
    } else {
      assert Replace(Replace(t, key, p), key, p.(hs := None)).peers == Replace(t, key, p.(hs := None)).peers;
    }
  }

  lemma {:induction false} SweepAwaits(t: Table, cutoff: int, from: nat)
    requires AllAwaitThird(t) && from <= |t.peers|
    ensures AllAwaitThird(Sweep(t, cutoff, from))
    decreases |t.peers| - from
  {
    if from < |t.peers| {
      if t.peers[from].value.lastSeen < cutoff {
        WithoutAwaits(t, from);
        SweepAwaits(Drop(t, from), cutoff, from);
      } else {
        SweepAwaits(t, cutoff, from + 1);
      }
    }
  }

  lemma StepAwaits(cfg: Config, t: Table, e: Event)
    requires Accounted(t) && AllAwaitThird(t)
    ensures AllAwaitThird(Step(cfg, t, e))
    ensures CompletesRenewal(cfg, t, e) ==> Renewals(t) > 0
  {
    match e {
      case Datagram(data, key, ephemeral, now) =>
        if |data| > 0 && data[0] == HANDSHAKE {
          AdmitAwaits(cfg, t, key, now);
          AdmitAccounts(cfg, t, key, now);
          FeedAwaits(cfg, Admit(cfg, t, key, now), key, data[1..], ephemeral, now);
          if CompletesRenewal(cfg, t, e) {
            TallyAt(t.peers, Find(t.peers, key), Renewing);
          }
        }
      case HandleCloses(key) =>
        if Has(t.peers, key) {
          WithoutAwaits(t, Find(t.peers, key));
        }
      case HandleSends(key, plaintext) =>
      case TimerSweeps(now) => SweepAwaits(t, now - cfg.ttl, 0);
      case ServerCloses =>
    }
  }

  // ----- The theorems -----

  ghost predicate Reached(cfg: Config, t: Table, m: Meter) {
    Bounded(cfg, t, m) && AllAwaitThird(t) && (m.rehandshakes > 0 ==> m.peak > 0)
  }

  lemma {:induction false} RunReaches(cfg: Config, t: Table, m: Meter, events: seq<Event>)
    requires Reached(cfg, t, m)
    ensures Reached(cfg, Run(cfg, t, events), RunMeter(cfg, t, m, events))
    decreases |events|
  {
    if events != [] {
      StepBounded(cfg, t, m, events[0]);
      StepAwaits(cfg, t, events[0]);
      RunReaches(cfg, Step(cfg, t, events[0]), Metered(cfg, t, m, events[0]), events[1..]);
    }
  }

  /** The table a server starts with, and a meter at zero. */
  predicate Begins(t: Table, m: Meter) {
    t == EMPTY_TABLE && m == Meter(0, 0)
  }

  /** `events` take a new server to table `t` with meter `m`. */
  ghost predicate Reaches(cfg: Config, events: seq<Event>, t: Table, m: Meter) {
    exists start, zero :: Begins(start, zero) && t == Run(cfg, start, events) && m == RunMeter(cfg, start, zero, events)
  }

  lemma BeginIsReached(cfg: Config, start: Table, zero: Meter)
    requires Begins(start, zero)
    ensures Reached(cfg, start, zero)
  {
    EmptyBounded(cfg, start, 0);
  }

  lemma FromEmpty(cfg: Config, events: seq<Event>, t: Table, m: Meter)
    requires Reaches(cfg, events, t, m)
    ensures Reached(cfg, t, m)
  {
    hide Run, RunMeter, Bounded;
    var start, zero :| Begins(start, zero) && t == Run(cfg, start, events) && m == RunMeter(cfg, start, zero, events);
    BeginIsReached(cfg, start, zero);
    RunReaches(cfg, start, zero, events);
  }

  /** Accounting in every reachable state: keys are unique and no peer is empty; `pending` is
      the handshakes in progress; `established` is the live sessions plus the re-handshakes
      completed since the last close, so it is exact if and only if there were none. */
  lemma CountersAreAccurate(cfg: Config, events: seq<Event>, t: Table, m: Meter)
    requires Reaches(cfg, events, t, m)
    ensures Accounted(t)
    ensures t.pending == HalfOpens(t) + Renewals(t)
    ensures t.established == Sessions(t) + m.rehandshakes
    ensures t.established == Sessions(t) <==> m.rehandshakes == 0
  {
    hide Reaches, Tally;
    FromEmpty(cfg, events, t, m);
  }

  /** The half-open bound: first handshakes never exceed max(1, maxPending), and all handshakes
      in progress never exceed max(maxPending, R + 1) for R re-handshakes on live sessions. */
  lemma HalfOpenIsBounded(cfg: Config, events: seq<Event>, t: Table, m: Meter)
    requires Reaches(cfg, events, t, m)
    ensures HalfOpens(t) <= Max(1, cfg.maxPending)
    ensures t.pending <= Max(cfg.maxPending, Renewals(t) + 1)
  {
    hide Reaches, Tally;
    FromEmpty(cfg, events, t, m);
  }

  /** The session cap: live sessions never exceed max(maxSessions, 1 + the most re-handshakes
      ever in progress at once). Without re-handshakes that is max(1, maxSessions), and
      `established` is exact. */
  lemma SessionsAreCapped(cfg: Config, events: seq<Event>, t: Table, m: Meter)
    requires Reaches(cfg, events, t, m)
    ensures Sessions(t) <= Max(cfg.maxSessions, 1 + m.peak)
    ensures m.peak == 0 ==> Sessions(t) <= Max(1, cfg.maxSessions)
                            && t.established == Sessions(t) && t.pending == HalfOpens(t)
  {
    hide Reaches, Tally;
    FromEmpty(cfg, events, t, m);
  }

  /** Making room at the pending cap removes a peer if and only if it is the oldest half-open one;
      every other peer, re-handshaking or not, keeps its record. */
  lemma OnlyOldestHalfOpenGoes(cfg: Config, t: Table, j: nat)
    requires Unique(t.peers) && j < |t.peers|
    ensures var (room, oldest) := (MakeRoom(cfg, t).peers, IsHalfOpen(t.peers[j].value)
                                   && forall k :: 0 <= k < j ==> !IsHalfOpen(t.peers[k].value));
            && (Has(room, t.peers[j].key) <==> !(t.pending >= cfg.maxPending && oldest))
            && (Has(room, t.peers[j].key) ==> room[Find(room, t.peers[j].key)] == t.peers[j])
  {
    var e := FirstHalfOpen(t.peers);
    FindIs(t.peers, j);
    if e < |t.peers| && e != j {
      WithoutKeeps(t.peers, e, t.peers[j].key);
    } else if e == j {
      GoneWithout(t.peers, j);
    }
  }

  lemma GoneWithout(peers: Peers, j: nat)
    requires Unique(peers) && j < |peers|
    ensures !Has(Without(peers, j), peers[j].key)
  {
    var w := Without(peers, j);
    assert forall k :: 0 <= k < |w| ==> w[k] == peers[if k < j then k else k + 1];
    HasIffSome(w, peers[j].key);
  }

  // ----- Unauthenticated input -----

  /** The live sessions, in table order. */
  function LiveSessions(peers: Peers): seq<Entry<Address, Session>> {
    if peers == [] then [] else LiveOne(peers[0]) + LiveSessions(peers[1..])
  }

  function LiveOne(e: Entry<Address, Peer>): seq<Entry<Address, Session>> {
    if e.value.session.Some? then [Entry(e.key, e.value.session.value)] else []
  }

  lemma LiveCons(e: Entry<Address, Peer>, peers: Peers)
    ensures LiveSessions([e] + peers) == LiveOne(e) + LiveSessions(peers)
    ensures LiveSessions([e]) == LiveOne(e)
  {
    hide LiveOne;
    assert ([e] + peers)[1..] == peers && [e][1..] == [];
  }

  lemma {:induction false} LiveConcat(a: Peers, b: Peers)
    ensures LiveSessions(a + b) == LiveSessions(a) + LiveSessions(b)
  {
    hide LiveOne;
    if a == [] {
      assert a + b == b;
    } else {
      assert (a + b)[1..] == a[1..] + b;
      LiveConcat(a[1..], b);
    }
  }

  lemma LiveSplit(peers: Peers, i: nat)
    requires i < |peers|
    ensures LiveSessions(peers) == LiveSessions(peers[..i]) + (LiveOne(peers[i]) + LiveSessions(peers[i + 1..]))
  {
    hide LiveSessions, LiveOne;
    var (before, after) := (peers[..i], peers[i + 1..]);
    SplitAt(peers, i);
    LiveConcat(before, [peers[i]] + after);
    LiveCons(peers[i], after);
  }

  lemma SplitAt<T>(s: seq<T>, i: nat)
    requires i < |s|
    ensures s == s[..i] + ([s[i]] + s[i + 1..])
  {
  }

  lemma LiveWithout(peers: Peers, i: nat)
    requires i < |peers| && peers[i].value.session.None?
    ensures LiveSessions(Without(peers, i)) == LiveSessions(peers)
  {
    hide LiveSessions;
    LiveSplit(peers, i);
    LiveConcat(peers[..i], peers[i + 1..]);
  }

  lemma LiveReplaced(peers: Peers, i: nat, p: Peer)
    requires i < |peers| && p.session == peers[i].value.session
    ensures LiveSessions(peers[i := Entry(peers[i].key, p)]) == LiveSessions(peers)
  {
    hide LiveSessions;
    var e := Entry(peers[i].key, p);
    LiveSplit(peers, i);
    LiveSplit(peers[i := e], i);
    assert peers[i := e][..i] == peers[..i] && peers[i := e][i + 1..] == peers[i + 1..];
  }

  lemma AdmitKeepsSessions(cfg: Config, t: Table, key: Address, now: int)
    ensures LiveSessions(Admit(cfg, t, key, now).peers) == LiveSessions(t.peers)
  {
    var room := MakeRoom(cfg, t);
    var i := FirstHalfOpen(t.peers);
    if i < |t.peers| {
      LiveWithout(t.peers, i);
    }
    EvictionKeepsOthers(cfg, t, key);
    if !Has(t.peers, key) {
      var e := Entry(key, Peer(Some(Responder(cfg)), None, now));
      LiveConcat(room.peers, [e]);
      LiveCons(e, []);
    } else if t.peers[Find(t.peers, key)].value.hs.None? {
      var p := t.peers[Find(t.peers, key)].value;
      LiveReplaced(room.peers, Find(room.peers, key), p.(hs := Some(Responder(cfg))));
    }
  }

  lemma AbandonKeepsSessions(t: Table, key: Address)
    requires Has(t.peers, key)
    ensures LiveSessions(Abandon(t, key).peers) == LiveSessions(t.peers)
  {
    var i := Find(t.peers, key);
    var p := t.peers[i].value;
    if p.session.None? {
      LiveWithout(t.peers, i);
    } else {
      LiveReplaced(t.peers, i, p.(hs := None));
    }
  }

  /** Live sessions survive unauthenticated input: a handshake datagram that completes no
      handshake (forged, truncated, oversized, arriving at the pending cap, or a well-formed
      msg1) leaves every live session in the table, unreplaced and in order. */
  lemma UnauthenticatedInputKeepsSessions(cfg: Config, t: Table, key: Address, body: Bytes, ephemeral: KeyPair,
                                          now: int)
    ensures var (t1, output) := OnHandshake(cfg, t, key, body, ephemeral, now);
            !output.Opened? ==> LiveSessions(t1.peers) == LiveSessions(t.peers)
  {
    if !OnHandshake(cfg, t, key, body, ephemeral, now).1.Opened? {
      AdmitKeepsSessions(cfg, t, key, now);
      var t1 := Admit(cfg, t, key, now);
      var i := Find(t1.peers, key);
      var peer := t1.peers[i].value;
      var read := ReadMessage(cfg.crypto, peer.hs.value, body);
      if read.outcome.Err? {
        AbandonKeepsSessions(t1, key);
      } else {
        var written := WriteMessage(cfg.crypto, read.state, [], ephemeral);
        var seen := peer.(hs := Some(read.state), lastSeen := now);
        LiveReplaced(t1.peers, i, seen);
        AbandonKeepsSessions(Replace(t1, key, seen), key);
        if written.outcome.Ok? {
          LiveReplaced(t1.peers, i, seen.(hs := Some(written.state)));
        }
      }
    }
  }

  // ----- Who gets in -----

  /** What an address:port that the table does not know must send to be admitted. */
  predicate AcceptableFirst(cfg: Config, body: Bytes, ephemeral: KeyPair) {
    && DH_LEN <= |body| <= MAX_MESSAGE
    && cfg.crypto.dh(ephemeral.privateKey, body[..DH_LEN]).Some?
    && cfg.crypto.dh(cfg.staticKey.privateKey, body[..DH_LEN]).Some?
  }

  lemma FirstMessageRead(cfg: Config, body: Bytes)
    ensures var r := ReadMessage(cfg.crypto, Responder(cfg), body);
            (r.outcome.Ok? <==> DH_LEN <= |body| <= MAX_MESSAGE)
            && (r.outcome.Ok? ==> r.outcome.value.transport.None? && r.state.re == Some(body[..DH_LEN])
                                  && r.state.step == 1 && !r.state.initiator && r.state.s == cfg.staticKey
                                  && r.state.ss.cipher == Cipher(None, 0))
  {
    assert XX[0][1..] == [];
    var hs := Responder(cfg);
    var r := ReadTokens(cfg.crypto, hs, XX[0], body);
    if |body| >= DH_LEN {
      assert r == ReadTokens(cfg.crypto, ReadToken(cfg.crypto, hs, E, body).state, XX[0][1..], body[DH_LEN..]);
    }
  }

  lemma AnswerWritten(cfg: Config, hs: Handshake, ephemeral: KeyPair)
    requires hs.re.Some? && hs.step == 1 && !hs.initiator && hs.s == cfg.staticKey && hs.ss.cipher == Cipher(None, 0)
    ensures WriteMessage(cfg.crypto, hs, [], ephemeral).outcome.Ok?
       <==> cfg.crypto.dh(ephemeral.privateKey, hs.re.value).Some?
            && cfg.crypto.dh(cfg.staticKey.privateKey, hs.re.value).Some?
  {
    var c := cfg.crypto;
    var t := XX[1];
    assert t[1..] == [EE, S, ES] && [EE, S, ES][1..] == [S, ES] && [S, ES][1..] == [ES] && [ES][1..] == [];
    var e1 := WriteToken(c, hs, E, ephemeral);
    var e2 := WriteToken(c, e1.state, EE, ephemeral);
    assert WriteTokens(c, hs, t, ephemeral, [])
        == WriteTokens(c, e1.state, [EE, S, ES], ephemeral, [] + e1.outcome.value);
    if e2.outcome.Ok? {
      var e3 := WriteToken(c, e2.state, S, ephemeral);
      var e4 := WriteToken(c, e3.state, ES, ephemeral);
      var w := [] + e1.outcome.value + e2.outcome.value;
      assert WriteTokens(c, hs, t, ephemeral, []) == WriteTokens(c, e2.state, [S, ES], ephemeral, w);
      assert WriteTokens(c, hs, t, ephemeral, []) == WriteTokens(c, e3.state, [ES], ephemeral, w + e3.outcome.value);
      assert e4.outcome.Ok? ==>
          WriteTokens(c, hs, t, ephemeral, []).outcome == Ok(w + e3.outcome.value + e4.outcome.value);
    }
  }

  /** A newcomer is admitted exactly when its first message is acceptable, whatever the table
      holds: at the cap it displaces an older half-open peer and is never turned away. */
  lemma NewcomerIsAdmitted(cfg: Config, t: Table, key: Address, body: Bytes, ephemeral: KeyPair, now: int)
    requires Accounted(t) && !Has(t.peers, key)
    ensures var (t1, output) := OnHandshake(cfg, t, key, body, ephemeral, now);
            && (AcceptableFirst(cfg, body, ephemeral) <==> Has(t1.peers, key))
            && (AcceptableFirst(cfg, body, ephemeral) <==> output.Reply?)
            && (Has(t1.peers, key) ==> IsHalfOpen(t1.peers[Find(t1.peers, key)].value)
                                       && t1.peers[Find(t1.peers, key)].value.lastSeen == now)
  {
    AdmitNew(cfg, t, key, now);
    EvictionKeepsOthers(cfg, t, key);
    var t1 := Admit(cfg, t, key, now);
    FindIs(t1.peers, |t1.peers| - 1);
    FirstMessageRead(cfg, body);
    var read := ReadMessage(cfg.crypto, Responder(cfg), body);
    if read.outcome.Ok? {
      AnswerWritten(cfg, read.state, ephemeral);
      var seen := t1.peers[Find(t1.peers, key)].value.(hs := Some(read.state), lastSeen := now);
      AbandonForgets(Replace(t1, key, seen), key);
    }
    AbandonForgets(t1, key);
  }

  lemma AbandonForgets(t: Table, key: Address)
    requires Unique(t.peers) && Has(t.peers, key) && t.peers[Find(t.peers, key)].value.session.None?
    ensures !Has(Abandon(t, key).peers, key)
  {
    DeleteIsExact(t.peers, key);
  }

  // ----- The sweep -----

  function Kept(peers: Peers, cutoff: int): Peers {
    if peers == [] then []
    else (if peers[0].value.lastSeen < cutoff then [] else [peers[0]]) + Kept(peers[1..], cutoff)
  }

  /** The sweep keeps exactly the peers seen since the cutoff, in order. */
  lemma {:induction false} SweepKeeps(t: Table, cutoff: int, from: nat)
    requires from <= |t.peers|
    ensures Sweep(t, cutoff, from).peers == t.peers[..from] + Kept(t.peers[from..], cutoff)
    decreases |t.peers| - from
  {
    if from < |t.peers| {
      var rest := t.peers[from..];
      assert rest[1..] == t.peers[from + 1..];
      if t.peers[from].value.lastSeen < cutoff {
        SweepKeeps(Drop(t, from), cutoff, from);
        assert Drop(t, from).peers[..from] == t.peers[..from];
        assert Drop(t, from).peers[from..] == t.peers[from + 1..];
      } else {
        SweepKeeps(t, cutoff, from + 1);
        assert t.peers[..from + 1] == t.peers[..from] + [rest[0]];
      }
    }
  }
}
