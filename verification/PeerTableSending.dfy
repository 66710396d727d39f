/** What a server sends over a whole run of ts/net/secure-udp.ts: every session numbers its datagrams
    0, 1, 2, ... without reuse, whatever happens in between and also after its peer was dropped. */
module PeerTableSending {
  import opened Wrappers
  import opened ByteStrings
  import opened CipherStates
  import opened NoiseSessions
  import opened PeerTable
  import opened PeerTableCap
  import opened PeerTableDelivery
  import opened ReplayFilters

  /** A datagram handed to the socket: the session it was sealed in, and its plaintext. */
  datatype Sending = Sending(session: nat, plaintext: Bytes, datagram: Bytes)

  /** Beside the server's world: every session ever opened as its record last held it, and what was sent. */
  datatype Traffic = Traffic(w: World, last: seq<Session>, sent: seq<Sending>)

  /** An event of the server, or a send on a handle whose record no longer holds a session of the table. */
  datatype Happening = AtServer(e: Event) | OldHandleSends(session: nat, plaintext: Bytes)

  /** What `send` hands to the socket, and what it leaves in the record. */
  function Send(cfg: Config, s: Session, plaintext: Bytes): (Session, Option<Bytes>) {
    var sealed := Seal(cfg.crypto, s, plaintext);
    (sealed.state, if sealed.outcome.Ok? then Some([TRANSPORT] + sealed.outcome.value) else None)
  }

  function Sent(sent: seq<Sending>, session: nat, plaintext: Bytes, datagram: Option<Bytes>): seq<Sending> {
    if datagram.None? then sent else sent + [Sending(session, plaintext, datagram.value)]
  }

  ghost predicate Holds(w: World, session: nat) {
    exists k :: SessionOf(w.t, k).Some? && k in w.latest && w.latest[k] == session
  }

  ghost function Happens(cfg: Config, x: Traffic, h: Happening): Traffic {
    match h
    case OldHandleSends(id, plaintext) =>
      if id >= |x.last| || Holds(x.w, id) then x
      else
        var (s, datagram) := Send(cfg, x.last[id], plaintext);
        x.(last := x.last[id := s], sent := Sent(x.sent, id, plaintext, datagram))
    case AtServer(e) =>
      var w1 := Next(cfg, x.w, e);
      if |w1.ciphers| > |x.w.ciphers| && e.Datagram? && SessionOf(w1.t, e.key).Some? then
        x.(w := w1, last := x.last + [SessionOf(w1.t, e.key).value])
      else if e.HandleSends? && SessionOf(x.w.t, e.key).Some? && e.key in x.w.latest
              && x.w.latest[e.key] < |x.last| then
        var id := x.w.latest[e.key];
        var (s, datagram) := Send(cfg, SessionOf(x.w.t, e.key).value, e.plaintext);
        x.(w := w1, last := x.last[id := s], sent := Sent(x.sent, id, e.plaintext, datagram))
      else x.(w := w1)
  }

  ghost function Run(cfg: Config, x: Traffic, happenings: seq<Happening>): Traffic
    decreases |happenings|
  {
    if happenings == [] then x else Run(cfg, Happens(cfg, x, happenings[0]), happenings[1..])
  }

  /** How many datagrams a session has sent. */
  function Count(sent: seq<Sending>, session: nat): nat {
    if sent == [] then 0
    else Count(sent[..|sent| - 1], session) + if sent[|sent| - 1].session == session then 1 else 0
  }

  lemma CountSnoc(sent: seq<Sending>, x: Sending, session: nat)
    ensures Count(sent + [x], session) == Count(sent, session) + if x.session == session then 1 else 0
  {
    assert (sent + [x])[..|sent|] == sent;
  }

  lemma {:induction false} CountNone(sent: seq<Sending>, session: nat)
    requires forall i :: 0 <= i < |sent| ==> sent[i].session != session
    ensures Count(sent, session) == 0
  {
    if sent != [] {
      CountNone(sent[..|sent| - 1], session);
    }
  }

  // ----- The invariant -----

  /** The k-th datagram of a session is the tag, k in eight bytes, and the plaintext sealed under k. */
  predicate IsNumbered(cfg: Config, x: Sending, key: Option<Bytes>, k: nat) {
    && key.Some? && k < TWO_TO_THE_64
    && x.datagram == [2] + (WriteUint64(k) + cfg.crypto.seal(key.value, k, WriteUint64(k), x.plaintext))
  }

  ghost predicate AllNumbered(cfg: Config, last: seq<Session>, sent: seq<Sending>) {
    forall i :: 0 <= i < |sent| ==>
      && sent[i].session < |last|
      && IsNumbered(cfg, sent[i], last[sent[i].session].send.key, Count(sent[..i], sent[i].session))
  }

  /** Each session's counter is the number of its datagrams. */
  ghost predicate Counted(last: seq<Session>, sent: seq<Sending>) {
    forall id :: 0 <= id < |last| ==>
      last[id].send.key.Some? && last[id].counter == Count(sent, id) <= NONCE_MAX
  }

  /** The table's sessions send as their records last did. */
  ghost predicate Current(x: Traffic, key: Address) {
    SessionOf(x.w.t, key).Some? ==>
      && key in x.w.latest && x.w.latest[key] < |x.last|
      && SameSender(SessionOf(x.w.t, key).value, x.last[x.w.latest[key]])
  }

  predicate SameSender(s: Session, s1: Session) {
    s.send == s1.send && s.counter == s1.counter
  }

  ghost predicate Orderly(cfg: Config, x: Traffic) {
    && Consistent(cfg, x.w) && |x.last| == |x.w.ciphers|
    && (forall k :: Current(x, k))
    && Counted(x.last, x.sent) && AllNumbered(cfg, x.last, x.sent)
  }

  // ----- One happening -----

  /** What a send seals under is the number of datagrams before it, and it moves the counter by one
      unless the counter is the reserved one. */
  lemma SendSeals(cfg: Config, s: Session, id: nat, plaintext: Bytes)
    requires s.send.key.Some? && s.counter <= NONCE_MAX
    ensures var (s1, datagram) := Send(cfg, s, plaintext);
            && s1 == s.(counter := s.counter + if s.counter < NONCE_MAX then 1 else 0)
            && (datagram.Some? <==> s.counter < NONCE_MAX)
            && (datagram.Some? ==>
                  IsNumbered(cfg, Sending(id, plaintext, datagram.value), s.send.key, s.counter))
  {
  }

  lemma OneMoreCounted(last: seq<Session>, sent: seq<Sending>, id: nat, s1: Session, y: Sending)
    requires Counted(last, sent) && id < |last| && y.session == id && last[id].counter < NONCE_MAX
    requires s1.send == last[id].send && s1.counter == last[id].counter + 1
    ensures Counted(last[id := s1], sent + [y])
  {
    forall i | 0 <= i < |last| ensures Count(sent + [y], i) == Count(sent, i) + if i == id then 1 else 0 {
      CountSnoc(sent, y, i);
    }
  }

  lemma OneMoreNumbered(cfg: Config, last: seq<Session>, sent: seq<Sending>, id: nat, s1: Session, y: Sending)
    requires AllNumbered(cfg, last, sent) && id < |last| && y.session == id && s1.send == last[id].send
    requires IsNumbered(cfg, y, s1.send.key, Count(sent, id))
    ensures AllNumbered(cfg, last[id := s1], sent + [y])
  {
    hide IsNumbered, Count;
    var (more, last1) := (sent + [y], last[id := s1]);
    forall i | 0 <= i < |more|
      ensures more[i].session < |last1|
              && IsNumbered(cfg, more[i], last1[more[i].session].send.key, Count(more[..i], more[i].session))
    {
      PrefixOfMore(sent, y, i);
    }
  }

  lemma PrefixOfMore(sent: seq<Sending>, y: Sending, i: nat)
    requires i <= |sent|
    ensures (sent + [y])[..i] == sent[..i] && sent[..|sent|] == sent
    ensures (sent + [y])[i] == if i < |sent| then sent[i] else y
  {
  }

  lemma SameNumbered(cfg: Config, last: seq<Session>, sent: seq<Sending>, id: nat, s1: Session)
    requires AllNumbered(cfg, last, sent) && Counted(last, sent) && id < |last|
    requires s1.send == last[id].send && s1.counter == last[id].counter
    ensures AllNumbered(cfg, last[id := s1], sent) && Counted(last[id := s1], sent)
  {
    hide IsNumbered;
  }

  /** A send under the counter that the record holds is the next datagram of its session. */
  lemma SendIsNext(cfg: Config, last: seq<Session>, sent: seq<Sending>, id: nat, s: Session, plaintext: Bytes)
    requires Counted(last, sent) && AllNumbered(cfg, last, sent) && id < |last| && SameSender(s, last[id])
    ensures var (s1, datagram) := Send(cfg, s, plaintext);
            && Counted(last[id := s1], Sent(sent, id, plaintext, datagram))
            && AllNumbered(cfg, last[id := s1], Sent(sent, id, plaintext, datagram))
            && s1 == s.(counter := s.counter + if s.counter < NONCE_MAX then 1 else 0)
  {
    assert last[id].send.key.Some? && last[id].counter == Count(sent, id) <= NONCE_MAX;
    hide Send, Counted, AllNumbered, IsNumbered;
    var (s1, datagram) := Send(cfg, s, plaintext);
    SendSeals(cfg, s, id, plaintext);
    if datagram.Some? {
      var y := Sending(id, plaintext, datagram.value);
      OneMoreCounted(last, sent, id, s1, y);
      OneMoreNumbered(cfg, last, sent, id, s1, y);
    } else {
      SameNumbered(cfg, last, sent, id, s1);
    }
  }

  lemma OldHandleIsOrderly(cfg: Config, x: Traffic, id: nat, plaintext: Bytes)
    requires Orderly(cfg, x)
    ensures Orderly(cfg, Happens(cfg, x, OldHandleSends(id, plaintext)))
  {
    hide Consistent, Counted, AllNumbered, Send;
    if id < |x.last| && !Holds(x.w, id) {
      SendIsNext(cfg, x.last, x.sent, id, x.last[id], plaintext);
      var x1 := Happens(cfg, x, OldHandleSends(id, plaintext));
      forall k ensures Current(x1, k) {
        assert Current(x, k);
      }
    }
  }

  lemma HandleSendIsOrderly(cfg: Config, x: Traffic, key: Address, plaintext: Bytes)
    requires Orderly(cfg, x)
    ensures Orderly(cfg, Happens(cfg, x, AtServer(HandleSends(key, plaintext))))
  {
    hide Consistent, Counted, AllNumbered, Send, SendTo;
    var x1 := Happens(cfg, x, AtServer(HandleSends(key, plaintext)));
    StepIsConsistent(cfg, x.w, HandleSends(key, plaintext));
    KeysAreUnique(cfg, x.w);
    NumbersDiffer(cfg, x.w);
    SendLeaves(cfg, x.w.t, key, plaintext);
    assert Current(x, key);
    if SessionOf(x.w.t, key).Some? {
      SendIsNext(cfg, x.last, x.sent, x.w.latest[key], SessionOf(x.w.t, key).value, plaintext);
    }
    forall k ensures Current(x1, k) {
      assert Current(x, k);
    }
  }

  lemma NumbersDiffer(cfg: Config, w: World)
    requires Consistent(cfg, w)
    ensures Numbered(w)
  {
  }

  /** What a datagram, a sweep or a closing does to the sending halves: nothing, but for a session
      it opens, which starts at counter 0. */
  lemma StepLeavesSenders(cfg: Config, w: World, e: Event)
    requires Consistent(cfg, w) && !e.HandleSends?
    ensures var (w1, opens) := (Next(cfg, w, e), PeerTableDelivery.Output(cfg, w.t, e).Opened?);
            && (forall k :: SessionOf(w1.t, k).Some? && !(opens && e.Datagram? && k == e.key) ==>
                  SessionOf(w.t, k).Some? && SameSender(SessionOf(w1.t, k).value, SessionOf(w.t, k).value))
            && (opens ==> && e.Datagram? && SessionOf(w1.t, e.key).Some?
                          && SessionOf(w1.t, e.key).value.send.key.Some? && SessionOf(w1.t, e.key).value.counter == 0
                          && |w1.ciphers| == |w.ciphers| + 1 && w1.latest == w.latest[e.key := |w.ciphers|])
            && (!opens ==> w1.ciphers == w.ciphers && w1.latest == w.latest)
  {
    hide Consistent, OnHandshake, OnTransport, Authenticate, SessionOf, Check;
    KeysAreUnique(cfg, w);
    if !e.Datagram? {
      OtherEventLeaves(cfg, w.t, e);
    } else if |e.data| > 0 && e.data[0] == HANDSHAKE {
      HandshakeLeaves(cfg, w.t, e.key, e.data[1..], e.ephemeral, e.now);
    } else if |e.data| > 0 && e.data[0] == TRANSPORT {
      TransportLeaves(cfg, w.t, e.key, e.data[1..], e.now);
    }
  }

  lemma OpeningIsOrderly(cfg: Config, x: Traffic, x1: Traffic, s: Session)
    requires Orderly(cfg, x) && x1.last == x.last + [s] && x1.sent == x.sent
    requires s.send.key.Some? && s.counter == 0
    ensures Counted(x1.last, x1.sent) && AllNumbered(cfg, x1.last, x1.sent)
  {
    hide Consistent, IsNumbered;
    CountNone(x.sent, |x.last|);
  }

  lemma ServerEventIsOrderly(cfg: Config, x: Traffic, e: Event)
    requires Orderly(cfg, x) && !e.HandleSends?
    ensures Orderly(cfg, Happens(cfg, x, AtServer(e)))
  {
    hide Consistent, Counted, AllNumbered, Next, PeerTableDelivery.Output, SessionOf;
    var x1 := Happens(cfg, x, AtServer(e));
    StepIsConsistent(cfg, x.w, e);
    StepLeavesSenders(cfg, x.w, e);
    if PeerTableDelivery.Output(cfg, x.w.t, e).Opened? {
      OpeningIsOrderly(cfg, x, x1, SessionOf(x1.w.t, e.key).value);
    }
    forall k ensures Current(x1, k) {
      assert Current(x, k);
    }
  }

  lemma HappeningIsOrderly(cfg: Config, x: Traffic, h: Happening)
    requires Orderly(cfg, x)
    ensures Orderly(cfg, Happens(cfg, x, h))
  {
    hide Orderly, Happens;
    match h {
      case OldHandleSends(id, plaintext) => OldHandleIsOrderly(cfg, x, id, plaintext);
      case AtServer(e) =>
        if e.HandleSends? {
          HandleSendIsOrderly(cfg, x, e.key, e.plaintext);
        } else {
          ServerEventIsOrderly(cfg, x, e);
        }
    }
  }

  // ----- Whole runs -----

  lemma {:induction false} RunIsOrderly(cfg: Config, x: Traffic, happenings: seq<Happening>)
    requires Orderly(cfg, x)
    ensures Orderly(cfg, Run(cfg, x, happenings))
    decreases |happenings|
  {
    hide Orderly, Happens;
    if happenings != [] {
      HappeningIsOrderly(cfg, x, happenings[0]);
      RunIsOrderly(cfg, Happens(cfg, x, happenings[0]), happenings[1..]);
    }
  }

  lemma {:induction false} CountGrows(sent: seq<Sending>, i: nat, j: nat)
    requires i < j <= |sent|
    ensures Count(sent[..i], sent[i].session) < Count(sent[..j], sent[i].session)
    decreases j
  {
    assert sent[..j][..j - 1] == sent[..j - 1] && sent[..j][j - 1] == sent[j - 1];
    if i < j - 1 {
      CountGrows(sent, i, j - 1);
    }
  }

  predicate BeginsEmpty(x: Traffic) {
    Begins(x.w) && x.last == [] && x.sent == []
  }

  /** Over every run of a server, through deliveries, handshakes and re-handshakes, sweeps, evictions
      and closings, and also on handles whose peer was dropped: the k-th datagram of a session carries
      k and is sealed under k, with the session's sending key; so no two share a counter. */
  lemma EverySendHasItsOwnCounter(cfg: Config, start: Traffic, happenings: seq<Happening>)
    requires BeginsEmpty(start)
    ensures var x := Run(cfg, start, happenings);
            && AllNumbered(cfg, x.last, x.sent)
            && (forall key :: SessionOf(x.w.t, key).Some? ==>
                  && key in x.w.latest && x.w.latest[key] < |x.last|
                  && SessionOf(x.w.t, key).value.send == x.last[x.w.latest[key]].send
                  && SessionOf(x.w.t, key).value.counter == Count(x.sent, x.w.latest[key]))
            && forall i, j :: 0 <= i < j < |x.sent| && x.sent[i].session == x.sent[j].session ==>
                                x.sent[i].datagram[1..9] != x.sent[j].datagram[1..9]
  {
    hide Run, Consistent;
    BeginIsConsistent(cfg, start.w);
    RunIsOrderly(cfg, start, happenings);
    var x := Run(cfg, start, happenings);
    forall i, j | 0 <= i < j < |x.sent| && x.sent[i].session == x.sent[j].session
      ensures x.sent[i].datagram[1..9] != x.sent[j].datagram[1..9]
    {
      CountGrows(x.sent, i, j);
      HeadersDiffer(cfg, x, i, j);
    }
    forall key | SessionOf(x.w.t, key).Some?
      ensures key in x.w.latest && x.w.latest[key] < |x.last|
              && SameSender(SessionOf(x.w.t, key).value, x.last[x.w.latest[key]])
    {
      assert Current(x, key);
    }
  }

  lemma HeadersDiffer(cfg: Config, x: Traffic, i: nat, j: nat)
    requires AllNumbered(cfg, x.last, x.sent) && i < j < |x.sent| && x.sent[i].session == x.sent[j].session
    requires Count(x.sent[..i], x.sent[i].session) < Count(x.sent[..j], x.sent[j].session)
    ensures |x.sent[i].datagram| >= 9 && |x.sent[j].datagram| >= 9
    ensures x.sent[i].datagram[1..9] != x.sent[j].datagram[1..9]
  {
    var (k, l) := (Count(x.sent[..i], x.sent[i].session), Count(x.sent[..j], x.sent[j].session));
    var key := x.last[x.sent[i].session].send.key;
    assert IsNumbered(cfg, x.sent[i], key, k) && IsNumbered(cfg, x.sent[j], key, l);
    hide AllNumbered, Count, IsNumbered;
    HeaderIs(cfg, x.sent[i], key, k);
    HeaderIs(cfg, x.sent[j], key, l);
    assert ReadUint64(WriteUint64(k)) == k;
  }

  lemma HeaderIs(cfg: Config, y: Sending, key: Option<Bytes>, k: nat)
    requires IsNumbered(cfg, y, key, k)
    ensures |y.datagram| >= 9 && k < TWO_TO_THE_64 && y.datagram[1..9] == WriteUint64(k)
  {
  }

  /** Nothing that is sent is missing: an event logs exactly what the record's session seals. */
  lemma SendsAreLogged(cfg: Config, x: Traffic, key: Address, plaintext: Bytes)
    requires Orderly(cfg, x)
    ensures var (s, x1) := (SessionOf(x.w.t, key), Happens(cfg, x, AtServer(HandleSends(key, plaintext))));
            if s.Some? && s.value.counter < 0xffff_ffff_ffff_ffff then
              |x1.sent| == |x.sent| + 1 && x1.sent[..|x.sent|] == x.sent
              && x1.sent[|x.sent|].session == x.w.latest[key] && x1.sent[|x.sent|].plaintext == plaintext
            else x1.sent == x.sent
  {
    hide Consistent, AllNumbered, Counted, SendTo;
    assert Current(x, key);
    StepIsConsistent(cfg, x.w, HandleSends(key, plaintext));
  }
}
