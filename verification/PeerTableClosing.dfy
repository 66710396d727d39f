/** What `close` on a session handle of ts/net/secure-udp.ts does: the peer at its address is
    forgotten, and nothing from there is delivered until a new handshake completes. */
module PeerTableClosing {
  import opened Wrappers
  import opened ByteStrings
  import opened OrderedMap
  import opened Crypto
  import opened NoiseSessions
  import opened PeerTable
  import PeerTableSafety
  import opened PeerTableAgreement
  import opened PeerTableCap
  import opened PeerTableDelivery

  /** The records of all addresses but `key`, in order. */
  function Others(peers: Peers, key: Address): Peers {
    if peers == [] then []
    else (if peers[0].key == key then [] else [peers[0]]) + Others(peers[1..], key)
  }

  lemma {:induction false} OthersAreAll(peers: Peers, key: Address)
    requires forall i :: 0 <= i < |peers| ==> peers[i].key != key
    ensures Others(peers, key) == peers
  {
    if peers != [] {
      OthersAreAll(peers[1..], key);
    }
  }

  lemma {:induction false} OthersWithout(peers: Peers, i: nat)
    requires Unique(peers) && i < |peers|
    ensures Others(peers, peers[i].key) == Without(peers, i)
  {
    if i == 0 {
      OthersAreAll(peers[1..], peers[0].key);
      assert [] + peers[1..] == peers[1..];
    } else {
      OthersWithout(peers[1..], i - 1);
      assert Without(peers, i) == [peers[0]] + Without(peers[1..], i - 1);
    }
  }

  /** Closing forgets the peer at the address, whoever holds it by now, and gives back what it
      counted for; every other peer keeps its record and its place. */
  lemma CloseForgetsTheAddress(cfg: Config, t: Table, key: Address)
    requires Unique(t.peers)
    ensures var t1 := Step(cfg, t, HandleCloses(key));
            && t1.peers == Others(t.peers, key) && !Has(t1.peers, key)
            && forall i :: 0 <= i < |t.peers| && t.peers[i].key == key ==>
                 && t1.pending == t.pending - (if t.peers[i].value.hs.Some? then 1 else 0)
                 && t1.established == t.established - (if t.peers[i].value.session.Some? then 1 else 0)
    ensures !Has(t.peers, key) ==> Step(cfg, t, HandleCloses(key)) == t
  {
    var i := Find(t.peers, key);
    HasIffSome(t.peers, key);
    if i < |t.peers| {
      OthersWithout(t.peers, i);
      DeleteIsExact(t.peers, key);
      assert Get(Without(t.peers, i), key) == None;
    } else {
      OthersAreAll(t.peers, key);
    }
  }

  /** No handshake from `key` completes in the run. */
  ghost predicate NoneOpens(cfg: Config, t: Table, events: seq<Event>, key: Address)
    decreases |events|
  {
    events == []
    || (!(PeerTableDelivery.Output(cfg, t, events[0]).Opened? && events[0].Datagram? && events[0].key == key)
        && NoneOpens(cfg, Step(cfg, t, events[0]), events[1..], key))
  }

  /** A session is opened by its own address alone. */
  lemma NoSessionUnlessOpened(cfg: Config, t: Table, e: Event, key: Address)
    requires Unique(t.peers) && SessionOf(t, key).None?
    requires !(PeerTableDelivery.Output(cfg, t, e).Opened? && e.Datagram? && e.key == key)
    ensures Unique(Step(cfg, t, e).peers) && SessionOf(Step(cfg, t, e), key).None?
  {
    hide OnHandshake, OnTransport, SendTo, Authenticate;
    if e.HandleSends? {
      SendLeaves(cfg, t, e.key, e.plaintext);
    } else if !e.Datagram? {
      OtherEventLeaves(cfg, t, e);
    } else if |e.data| > 0 && e.data[0] == HANDSHAKE {
      HandshakeLeaves(cfg, t, e.key, e.data[1..], e.ephemeral, e.now);
    } else if |e.data| > 0 && e.data[0] == TRANSPORT {
      TransportLeaves(cfg, t, e.key, e.data[1..], e.now);
    }
  }

  lemma {:induction false} StaysSilent(cfg: Config, t: Table, events: seq<Event>, key: Address)
    requires Unique(t.peers) && SessionOf(t, key).None? && NoneOpens(cfg, t, events, key)
    ensures SessionOf(PeerTableSafety.Run(cfg, t, events), key).None?
    decreases |events|
  {
    hide Step, SessionOf;
    if events != [] {
      NoSessionUnlessOpened(cfg, t, events[0], key);
      StaysSilent(cfg, Step(cfg, t, events[0]), events[1..], key);
    }
  }

  /** After a close, over any run in which no handshake from the address completes, no transport
      datagram from there is delivered or changes anything. */
  lemma ClosedIsSilent(cfg: Config, t: Table, key: Address, events: seq<Event>, body: Bytes, e: KeyPair, now: int)
    requires Unique(t.peers) && NoneOpens(cfg, Step(cfg, t, HandleCloses(key)), events, key)
    ensures var t1 := PeerTableSafety.Run(cfg, Step(cfg, t, HandleCloses(key)), events);
            OnDatagram(cfg, t1, [2] + body, key, e, now) == (t1, Quiet)
  {
    hide PeerTableSafety.Run, NoneOpens, Step;
    CloseForgetsTheAddress(cfg, t, key);
    OtherEventLeaves(cfg, t, HandleCloses(key));
    var t1 := PeerTableSafety.Run(cfg, Step(cfg, t, HandleCloses(key)), events);
    LeavesUnique(t, Step(cfg, t, HandleCloses(key)), None);
    StaysSilent(cfg, Step(cfg, t, HandleCloses(key)), events, key);
    Tagged(2, body);
  }

  /** A handle names its peer by address only: one that outlived its session closes the session of
      whoever handshook from the same address since. */
  lemma OldHandleClosesTheSuccessor(cfg: Config, t: Table, key: Address, cl: Client, seen: int, now: int)
    requires Honest(cfg, cl) && Unique(t.peers) && !Has(t.peers, key) && t.pending < cfg.maxPending
    requires t.established < cfg.maxSessions
    ensures var t1 := PeerTableSafety.Run(cfg, t, HandshakeFrom(cfg, cl, key, seen, now));
            && SessionOf(t1, key) == Some(OpenedFor(cfg, cl))
            && Step(cfg, t1, HandleCloses(key)).peers == t.peers
  {
    hide Step, FirstFrom, ThirdFrom, OpenedFor, Honest;
    HandshakeExact(cfg, t, key, cl, seen, now);
    var (e, f) := (FirstFrom(cfg, cl, key, seen), ThirdFrom(cfg, cl, key, now));
    RunTwo(cfg, t, e, f, []);
    assert [e, f] + [] == [e, f];
    var p := Peer(None, Some(OpenedFor(cfg, cl)), now);
    var t1 := WithPeer(t, key, p).(established := t.established + 1);
    PutIsExact(t.peers, key, p);
    CloseForgetsTheAddress(cfg, t1, key);
    OthersWithout(t1.peers, |t.peers|);
    assert Without(t1.peers, |t.peers|) == t.peers;
  }
}
