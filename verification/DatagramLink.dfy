/** Two sessions over a network that reorders, duplicates, drops and injects datagrams. */
module DatagramLink {
  import opened Wrappers
  import opened ByteStrings
  import opened Crypto
  import opened CipherStates
  import opened ReplayFilters
  import opened HandshakeStates
  import opened NoiseSessions
  import NoiseAgreement

  /** What happened so far in one direction: plaintexts sealed, datagrams emitted, and the
      (counter, plaintext) pairs delivered. */
  datatype Log = Log(sent: seq<Bytes>, wires: seq<Bytes>, delivered: seq<(nat, Bytes)>)

  datatype World = World(a: Session, b: Session, ab: Log, ba: Log)

  /** The network may hand either side any byte string at any time. */
  datatype Event = ASends(pt: Bytes) | BSends(pt: Bytes) | ReachesA(wire: Bytes) | ReachesB(wire: Bytes)

  function Emit(c: Suite, s: Session, log: Log, pt: Bytes): (Session, Log) {
    var sealed := Seal(c, s, pt);
    (sealed.state,
     if sealed.outcome.Ok? then log.(sent := log.sent + [pt], wires := log.wires + [sealed.outcome.value]) else log)
  }

  function Arrive(c: Suite, s: Session, log: Log, wire: Bytes): (Session, Log) {
    var (s1, plain) := Open(c, s, wire);
    (s1,
     if plain.Some? then log.(delivered := log.delivered + [(Authenticate(c, s.recv, wire).value.0, plain.value)])
     else log)
  }

  function Step(c: Suite, w: World, e: Event): World {
    match e
    case ASends(pt) => var (s, log) := Emit(c, w.a, w.ab, pt); w.(a := s, ab := log)
    case BSends(pt) => var (s, log) := Emit(c, w.b, w.ba, pt); w.(b := s, ba := log)
    case ReachesA(wire) => var (s, log) := Arrive(c, w.a, w.ba, wire); w.(a := s, ba := log)
    case ReachesB(wire) => var (s, log) := Arrive(c, w.b, w.ab, wire); w.(b := s, ab := log)
  }

  function Run(c: Suite, w: World, events: seq<Event>): World
    decreases |events|
  {
    if events == [] then w else Run(c, Step(c, w, events[0]), events[1..])
  }

  /** One of the two ends sealed `pt` as number `n` under `key`. */
  ghost predicate SealedByAnEnd(w: World, key: Option<Bytes>, n: nat, pt: Bytes) {
    || (w.a.send.key == key && n < |w.ab.sent| && w.ab.sent[n] == pt)
    || (w.b.send.key == key && n < |w.ba.sent| && w.ba.sent[n] == pt)
  }

  /** What AEAD keeps others from doing: whatever `wire` opens as under `key` was sealed under
      that key and number by one of the two ends, whichever it was. */
  ghost predicate NotForged(c: Suite, w: World, key: Option<Bytes>, wire: Bytes) {
    key.Some? && |wire| >= COUNTER_BYTES ==>
      var header := wire[..COUNTER_BYTES];
      forall pt :: c.open(key.value, ReadUint64(header), header, wire[COUNTER_BYTES..]) == Some(pt) ==>
                     SealedByAnEnd(w, key, ReadUint64(header), pt)
  }

  ghost predicate Unforged(c: Suite, w: World, e: Event) {
    match e
    case ReachesA(wire) => NotForged(c, w, w.a.recv.key, wire)
    case ReachesB(wire) => NotForged(c, w, w.b.recv.key, wire)
    case _ => true
  }

  ghost predicate UnforgedRun(c: Suite, w: World, events: seq<Event>)
    decreases |events|
  {
    events == [] || (Unforged(c, w, events[0]) && UnforgedRun(c, Step(c, w, events[0]), events[1..]))
  }

  // ----- What holds in every reachable state -----

  function Counters(delivered: seq<(nat, Bytes)>): set<int> {
    if delivered == [] then {}
    else Counters(delivered[..|delivered| - 1]) + {delivered[|delivered| - 1].0}
  }

  /** The largest counter delivered so far, or -1. */
  function Highest(delivered: seq<(nat, Bytes)>): int {
    if delivered == [] then -1
    else
      var rest := Highest(delivered[..|delivered| - 1]);
      var last := delivered[|delivered| - 1].0;
      if last > rest then last else rest
  }

  /** Counters run 0, 1, 2, ... without reuse: the i-th datagram carries counter i. */
  ghost predicate CountersNeverRepeat(c: Suite, sender: Session, log: Log) {
    && |log.sent| == |log.wires| == sender.counter <= NONCE_MAX
    && forall i :: 0 <= i < |log.wires| ==> log.wires[i] == Datagram(c, sender.send, i, log.sent[i])
  }

  /** Everything delivered was sealed by the peer, under that counter, and delivered once. */
  ghost predicate DeliveredAtMostOnce(log: Log) {
    && (forall j :: 0 <= j < |log.delivered| ==>
          log.delivered[j].0 < |log.sent| && log.delivered[j].1 == log.sent[log.delivered[j].0])
    && (forall j, k :: 0 <= j < k < |log.delivered| ==> log.delivered[j].0 != log.delivered[k].0)
  }

  ghost predicate Sound(c: Suite, sender: Session, receiver: Session, log: Log) {
    && sender.send == receiver.recv && sender.send.key.Some?
    && CountersNeverRepeat(c, sender, log)
    && DeliveredAtMostOnce(log)
    && Refines(receiver.replay, History(Highest(log.delivered), Counters(log.delivered)))
  }

  /** Both directions, each under its own key. */
  ghost predicate BothSound(c: Suite, w: World) {
    Sound(c, w.a, w.b, w.ab) && Sound(c, w.b, w.a, w.ba) && w.a.send.key != w.b.send.key
  }

  lemma {:induction false} CountersAreDelivered(delivered: seq<(nat, Bytes)>, n: int)
    ensures n in Counters(delivered) <==> exists j :: 0 <= j < |delivered| && delivered[j].0 == n
  {
    if delivered != [] {
      var front := delivered[..|delivered| - 1];
      CountersAreDelivered(front, n);
      assert forall j :: 0 <= j < |front| ==> front[j] == delivered[j];
    }
  }

  lemma GenuineAuthenticates(c: Suite, key: Cipher, n: nat, pt: Bytes)
    requires Lawful(c) && key.key.Some? && n < TWO_TO_THE_64
    ensures Authenticate(c, key, Datagram(c, key, n, pt)) == Some((n, pt))
  {
    var ad := WriteUint64(n);
    var wire := Datagram(c, key, n, pt);
    assert wire[..COUNTER_BYTES] == ad && wire[COUNTER_BYTES..] == c.seal(key.key.value, n, ad, pt);
    assert c.open(key.key.value, n, ad, c.seal(key.key.value, n, ad, pt)) == Some(pt);
  }

  /** No two datagrams a session emits are equal, since no counter is used twice. */
  lemma EmittedDatagramsDiffer(c: Suite, sender: Session, log: Log, i: nat, j: nat)
    requires CountersNeverRepeat(c, sender, log) && i < j < |log.wires|
    ensures log.wires[i] != log.wires[j]
  {
    assert log.wires[i][..8] == WriteUint64(i) && log.wires[j][..8] == WriteUint64(j);
  }

  /** The arrival of the i-th emitted datagram: it is delivered, under its own counter and with
      its own plaintext, exactly when it was not delivered before and the highest counter
      delivered is less than 1024 ahead of it. */
  lemma GenuineArrival(c: Suite, sender: Session, receiver: Session, log: Log, i: nat)
    requires Lawful(c) && Sound(c, sender, receiver, log) && i < |log.wires|
    ensures var (_, log1) := Arrive(c, receiver, log, log.wires[i]);
            var firstArrival := forall j :: 0 <= j < |log.delivered| ==> log.delivered[j].0 != i;
            log1 == if firstArrival && Highest(log.delivered) < i + 1024
                    then log.(delivered := log.delivered + [(i, log.sent[i])]) else log
    ensures var (r1, log1) := Arrive(c, receiver, log, log.wires[i]);
            Refines(r1.replay, History(Highest(log1.delivered), Counters(log1.delivered)))
  {
    GenuineAuthenticates(c, sender.send, i, log.sent[i]);
    CountersAreDelivered(log.delivered, i);
    CheckRefines(receiver.replay, History(Highest(log.delivered), Counters(log.delivered)), i);
    var more := log.delivered + [(i, log.sent[i])];
    assert more[..|more| - 1] == log.delivered;
  }

  lemma EmitKeepsSound(c: Suite, s: Session, r: Session, log: Log, pt: Bytes)
    requires Sound(c, s, r, log)
    ensures Sound(c, Emit(c, s, log, pt).0, r, Emit(c, s, log, pt).1)
  {
  }

  /** An arrival touches the filter and what was delivered, and, unless it authenticates, neither. */
  lemma ArriveIsLocal(c: Suite, r: Session, log: Log, wire: Bytes)
    ensures var (r1, log1) := Arrive(c, r, log, wire);
            && r1.recv == r.recv && log1 == log.(delivered := log1.delivered)
            && (Authenticate(c, r.recv, wire).None? ==> r1.replay == r.replay && log1 == log)
  {
    hide Authenticate;
  }

  lemma DeliveredOnceMore(log: Log, i: nat)
    requires DeliveredAtMostOnce(log) && i < |log.sent|
    requires forall j :: 0 <= j < |log.delivered| ==> log.delivered[j].0 != i
    ensures DeliveredAtMostOnce(log.(delivered := log.delivered + [(i, log.sent[i])]))
  {
  }

  lemma ArriveKeepsSound(c: Suite, s: Session, r: Session, log: Log, wire: Bytes)
    requires Lawful(c) && Sound(c, s, r, log)
    requires Authenticate(c, r.recv, wire).Some? ==> wire in log.wires
    ensures Sound(c, s, Arrive(c, r, log, wire).0, Arrive(c, r, log, wire).1)
  {
    hide Authenticate, Lawful, Arrive, DeliveredAtMostOnce, Refines, Counters, Highest;
    ArriveIsLocal(c, r, log, wire);
    if wire in log.wires {
      var i :| 0 <= i < |log.wires| && log.wires[i] == wire;
      GenuineArrival(c, s, r, log, i);
      if forall j :: 0 <= j < |log.delivered| ==> log.delivered[j].0 != i {
        DeliveredOnceMore(log, i);
      }
    }
  }

  /** A datagram that opens as what the peer sealed under its number is the peer's own datagram. */
  lemma OpenedIsEmitted(c: Suite, sender: Session, log: Log, wire: Bytes)
    requires Lawful(c) && CountersNeverRepeat(c, sender, log) && sender.send.key.Some?
    requires Authenticate(c, sender.send, wire).Some?
    requires var (n, pt) := Authenticate(c, sender.send, wire).value; n < |log.sent| && log.sent[n] == pt
    ensures wire in log.wires
  {
    var (n, pt) := Authenticate(c, sender.send, wire).value;
    var (header, body) := (wire[..COUNTER_BYTES], wire[COUNTER_BYTES..]);
    OpenInvertsSeal(c, sender.send, n, header, pt, body);
    Uint64IsCanonical(header);
    assert wire == header + body;
    assert log.wires[n] == wire;
  }

  /** What authenticates at an end was emitted by the other: it cannot be that end's own datagram
      sent back to it, since the two directions have different keys. */
  lemma ComesFromPeer(c: Suite, w: World, e: Event)
    requires Lawful(c) && BothSound(c, w) && Unforged(c, w, e)
    ensures e.ReachesA? && Authenticate(c, w.a.recv, e.wire).Some? ==> e.wire in w.ba.wires
    ensures e.ReachesB? && Authenticate(c, w.b.recv, e.wire).Some? ==> e.wire in w.ab.wires
  {
    hide Lawful, Refines, DeliveredAtMostOnce, CountersNeverRepeat;
    if e.ReachesA? && Authenticate(c, w.a.recv, e.wire).Some? {
      assert SealedByAnEnd(w, w.a.recv.key, Authenticate(c, w.a.recv, e.wire).value.0,
                           Authenticate(c, w.a.recv, e.wire).value.1);
      OpenedIsEmitted(c, w.b, w.ba, e.wire);
    } else if e.ReachesB? && Authenticate(c, w.b.recv, e.wire).Some? {
      assert SealedByAnEnd(w, w.b.recv.key, Authenticate(c, w.b.recv, e.wire).value.0,
                           Authenticate(c, w.b.recv, e.wire).value.1);
      OpenedIsEmitted(c, w.a, w.ab, e.wire);
    }
  }

  lemma KeysStay(c: Suite, w: World, e: Event)
    ensures Step(c, w, e).a.send == w.a.send && Step(c, w, e).b.send == w.b.send
  {
    hide Authenticate, Check;
  }

  lemma StepKeepsSound(c: Suite, w: World, e: Event)
    requires Lawful(c) && BothSound(c, w) && Unforged(c, w, e)
    ensures BothSound(c, Step(c, w, e))
  {
    hide Lawful, Authenticate, Unforged, Refines, DeliveredAtMostOnce, Check;
    ComesFromPeer(c, w, e);
    KeysStay(c, w, e);
    match e {
      case ASends(pt) => EmitKeepsSound(c, w.a, w.b, w.ab, pt);
      case BSends(pt) => EmitKeepsSound(c, w.b, w.a, w.ba, pt);
      case ReachesA(wire) => ArriveKeepsSound(c, w.b, w.a, w.ba, wire);
      case ReachesB(wire) => ArriveKeepsSound(c, w.a, w.b, w.ab, wire);
    }
  }

  /** Safety over every run, in both directions at once. */
  lemma {:induction false} RunKeepsSound(c: Suite, w: World, events: seq<Event>)
    requires Lawful(c) && BothSound(c, w) && UnforgedRun(c, w, events)
    ensures BothSound(c, Run(c, w, events))
    decreases |events|
  {
    if events != [] {
      StepKeepsSound(c, w, events[0]);
      RunKeepsSound(c, Step(c, w, events[0]), events[1..]);
    }
  }

  const NOTHING := Log([], [], [])

  /** End to end: two sessions on paired transports, with a key for each direction, never reuse a
      counter and deliver every plaintext at most once, whatever the network does. */
  lemma SessionsAreSafe(c: Suite, a: Transport, b: Transport, events: seq<Event>)
    requires Lawful(c) && NoiseAgreement.Paired(a, b) && a.send.key.Some? && a.recv.key.Some?
    requires a.send.key != a.recv.key
    requires UnforgedRun(c, World(NewSession(a), NewSession(b), NOTHING, NOTHING), events)
    ensures var w := Run(c, World(NewSession(a), NewSession(b), NOTHING, NOTHING), events);
            && CountersNeverRepeat(c, w.a, w.ab) && CountersNeverRepeat(c, w.b, w.ba)
            && DeliveredAtMostOnce(w.ab) && DeliveredAtMostOnce(w.ba)
  {
    RunKeepsSound(c, World(NewSession(a), NewSession(b), NOTHING, NOTHING), events);
  }

  /** The stack joined up: after an unaltered XX handshake whose payloads fit, the sessions on
      the two transports are safe over every run. */
  lemma HandshakeThenSessions(c: Suite, sI: KeyPair, sR: KeyPair, eI: KeyPair, eR: KeyPair, prologue: Bytes,
                              p1: Bytes, p2: Bytes, p3: Bytes, events: seq<Event>)
    requires Lawful(c) && Genuine(c, sI) && Genuine(c, sR) && Genuine(c, eI) && Genuine(c, eR)
    requires NoiseAgreement.PayloadsFit(p1, p2, p3)
    ensures var x := NoiseAgreement.RunXX(c, sI, sR, eI, eR, prologue, p1, p2, p3);
            x.third.outcome.Ok? && x.thirdRead.outcome.Ok?
            && x.third.outcome.value.transport.Some? && x.thirdRead.outcome.value.transport.Some?
            && var a := NewSession(x.third.outcome.value.transport.value);
               var b := NewSession(x.thirdRead.outcome.value.transport.value);
               a.send.key != a.recv.key && UnforgedRun(c, World(a, b, NOTHING, NOTHING), events) ==>
                 BothSound(c, Run(c, World(a, b, NOTHING, NOTHING), events))
  {
    NoiseAgreement.XxAgreement(c, sI, sR, eI, eR, prologue, p1, p2, p3);
    var x := NoiseAgreement.RunXX(c, sI, sR, eI, eR, prologue, p1, p2, p3);
    var a := NewSession(x.third.outcome.value.transport.value);
    var b := NewSession(x.thirdRead.outcome.value.transport.value);
    var start := World(a, b, NOTHING, NOTHING);
    if a.send.key != a.recv.key && UnforgedRun(c, start, events) {
      RunKeepsSound(c, start, events);
    }
  }
}
