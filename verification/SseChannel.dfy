/** plugins/sse/src/channel.ts: the push-to-pull bridge, and the stream end to end. */
module SseChannel {
  import opened Wrappers
  import opened SseFormat

  /** The state of a channel: `waiting` stands for a `next` whose promise is not yet resolved. */
  datatype Channel<T> = Channel(queue: seq<T>, waiting: bool, closed: bool)

  /** What a promise handed out by `next` is resolved with. */
  datatype Outcome<T> = Item(value: T) | Done

  function Buffer<T>(queue: seq<T>, maxQueue: nat, value: T): seq<T> {
    (if |queue| >= maxQueue && queue != [] then queue[1..] else queue) + [value]
  }

  /** `push`: resolves the waiting `next`, or buffers, dropping the oldest past the maximum. */
  function Push<T>(c: Channel<T>, maxQueue: nat, value: T): (Channel<T>, Option<Outcome<T>>) {
    if c.closed then (c, None)
    else if c.waiting then (c.(waiting := false), Some(Item(value)))
    else (c.(queue := Buffer(c.queue, maxQueue, value)), None)
  }

  /** `next`, and `None` when it has to wait. */
  function Next<T>(c: Channel<T>): (Channel<T>, Option<Outcome<T>>) {
    if c.queue != [] then (c.(queue := c.queue[1..]), Some(Item(c.queue[0])))
    else if c.closed then (c, Some(Done))
    else (c.(waiting := true), None)
  }

  function Close<T>(c: Channel<T>): (Channel<T>, Option<Outcome<T>>) {
    if c.closed then (c, None)
    else (c.(closed := true, waiting := false), if c.waiting then Some(Done) else None)
  }

  class ChannelObject<T> {
    const maxQueue: nat
    var queue: seq<T>
    var waiting: bool
    var closed: bool

    ghost function View(): Channel<T>
      reads this
    {
      Channel(queue, waiting, closed)
    }

    constructor (maxQueue: nat)
      ensures this.maxQueue == maxQueue && View() == Channel([], false, false)
    {
      this.maxQueue, queue, waiting, closed := maxQueue, [], false, false;
    }

    method DoPush(value: T) returns (resolved: Option<Outcome<T>>)
      modifies this
      ensures (View(), resolved) == Push(old(View()), maxQueue, value)
    {
      if closed {
        return None;
      }
      if waiting {
        waiting := false;
        return Some(Item(value));
      }
      if |queue| >= maxQueue && |queue| > 0 {
        queue := queue[1..];
      }
      queue := queue + [value];
      return None;
    }

    method DoClose() returns (resolved: Option<Outcome<T>>)
      modifies this
      ensures (View(), resolved) == Close(old(View()))
    {
      if closed {
        return None;
      }
      closed := true;
      if waiting {
        waiting := false;
        return Some(Done);
      }
      return None;
    }

    method DoNext() returns (resolved: Option<Outcome<T>>)
      modifies this
      ensures (View(), resolved) == Next(old(View()))
    {
      if |queue| > 0 {
        var queued := queue[0];
        queue := queue[1..];
        return Some(Item(queued));
      }
      if closed {
        return Some(Done);
      }
      waiting := true;
      return None;
    }
  }

  // ----- Whole runs with one consumer -----

  datatype Event<T> = Pushes(value: T) | Pulls | Closes

  /** A channel, what was pushed while it was open, and what its promises were resolved with;
      beside them the places in `sent` of what was taken and of what was lost. */
  datatype Trace<T> = Trace(
    channel: Channel<T>,
    sent: seq<T>,
    taken: seq<T>,
    delivered: seq<int>,
    dropped: seq<int>,
    ended: bool
  )

  /** The trace after a call left `c` and resolved a promise, or none: what is taken is the value
      in `resolved`, and a push loses as many values as the buffer fails to grow by. */
  function Note<T>(t: Trace<T>, c: Channel<T>, resolved: Option<Outcome<T>>, place: int): Trace<T> {
    match resolved
    case None => t.(channel := c)
    case Some(Done) => t.(channel := c, ended := true)
    case Some(Item(value)) => t.(channel := c, taken := t.taken + [value], delivered := t.delivered + [place])
  }

  /** One consumer: it does not pull again while a pull is waiting. */
  function Step<T>(t: Trace<T>, maxQueue: nat, e: Event<T>): Trace<T> {
    var before := |t.channel.queue|;
    match e
    case Pushes(value) =>
      var (c, resolved) := Push(t.channel, maxQueue, value);
      if t.channel.closed then t.(channel := c)
      else
        var t1 := Note(t, c, resolved, |t.sent|);
        t1.(sent := t.sent + [value],
            dropped := if resolved.None? && |c.queue| <= before then t.dropped + [|t.sent| - before] else t.dropped)
    case Pulls =>
      if t.channel.waiting then t
      else
        var (c, resolved) := Next(t.channel);
        Note(t, c, resolved, |t.sent| - before)
    case Closes =>
      var (c, resolved) := Close(t.channel);
      Note(t, c, resolved, |t.sent|)
  }

  function Run<T>(t: Trace<T>, maxQueue: nat, events: seq<Event<T>>): Trace<T>
    decreases |events|
  {
    if events == [] then t else Run(Step(t, maxQueue, events[0]), maxQueue, events[1..])
  }

  ghost predicate Increasing(s: seq<int>) {
    forall i, j :: 0 <= i < j < |s| ==> s[i] < s[j]
  }

  /** Every value sent is delivered, dropped or buffered, exactly one of them; what was taken is
      the delivered values themselves, in the order sent; and the buffer is the latest values. */
  ghost predicate Sorted<T>(t: Trace<T>, maxQueue: nat) {
    var start := |t.sent| - |t.channel.queue|;
    && start >= 0 && t.channel.queue == t.sent[start..]
    && |t.channel.queue| <= (if maxQueue == 0 then 1 else maxQueue)
    && (t.channel.waiting ==> t.channel.queue == [] && !t.channel.closed)
    && Increasing(t.delivered) && Increasing(t.dropped)
    && (forall n :: n in t.delivered ==> 0 <= n < start && n !in t.dropped)
    && (forall n :: n in t.dropped ==> 0 <= n < start)
    && (forall n :: 0 <= n < start ==> n in t.delivered || n in t.dropped)
    && TakenInOrder(t)
    && (t.ended ==> t.channel.closed && t.channel.queue == [])
  }

  /** The i-th value taken is the value sent at the i-th delivered place. */
  ghost predicate TakenInOrder<T>(t: Trace<T>) {
    && |t.taken| == |t.delivered|
    && forall i :: 0 <= i < |t.taken| ==> 0 <= t.delivered[i] < |t.sent| && t.taken[i] == t.sent[t.delivered[i]]
  }

  /** A push that resolves a waiting pull delivers the value pushed. */
  lemma HandOverSorts<T>(t: Trace<T>, maxQueue: nat, value: T)
    requires Sorted(t, maxQueue) && t.channel.waiting
    ensures Sorted(Step(t, maxQueue, Pushes(value)), maxQueue)
  {
    NextPlace(t.delivered, |t.sent|);
  }

  lemma BufferIsLatest<T>(queue: seq<T>, maxQueue: nat, value: T, sent: seq<T>)
    requires |queue| <= |sent| && queue == sent[|sent| - |queue|..]
    requires |queue| <= (if maxQueue == 0 then 1 else maxQueue)
    ensures var (after, all) := (Buffer(queue, maxQueue, value), sent + [value]);
            && |after| == |queue| + (if |queue| >= maxQueue && queue != [] then 0 else 1)
            && after == all[|all| - |after|..]
  {
  }

  /** A push into the buffer loses the oldest value there, or nothing. */
  lemma BufferSorts<T>(t: Trace<T>, maxQueue: nat, value: T)
    requires Sorted(t, maxQueue) && !t.channel.waiting && !t.channel.closed
    ensures Sorted(Step(t, maxQueue, Pushes(value)), maxQueue)
  {
    hide Buffer;
    BufferIsLatest(t.channel.queue, maxQueue, value, t.sent);
    NextPlace(t.dropped, |t.sent| - |t.channel.queue|);
  }

  lemma PullSorts<T>(t: Trace<T>, maxQueue: nat)
    requires Sorted(t, maxQueue)
    ensures Sorted(Step(t, maxQueue, Pulls), maxQueue)
  {
    if !t.channel.waiting && t.channel.queue != [] {
      var start := |t.sent| - |t.channel.queue|;
      assert t.channel.queue[1..] == t.sent[start + 1..];
      NextPlace(t.delivered, start);
    }
  }

  lemma NextPlace(places: seq<int>, start: int)
    requires Increasing(places) && forall n :: n in places ==> n < start
    ensures Increasing(places + [start])
    ensures forall x :: x in places + [start] <==> x in places || x == start
  {
    assert forall i :: 0 <= i < |places| ==> places[i] in places;
  }

  lemma StepSorts<T>(t: Trace<T>, maxQueue: nat, e: Event<T>)
    requires Sorted(t, maxQueue)
    ensures Sorted(Step(t, maxQueue, e), maxQueue)
  {
    match e {
      case Pushes(value) =>
        if t.channel.waiting {
          HandOverSorts(t, maxQueue, value);
        } else if !t.channel.closed {
          BufferSorts(t, maxQueue, value);
        }
      case Pulls => PullSorts(t, maxQueue);
      case Closes =>
    }
  }

  lemma {:induction false} RunSorts<T>(t: Trace<T>, maxQueue: nat, events: seq<Event<T>>)
    requires Sorted(t, maxQueue)
    ensures Sorted(Run(t, maxQueue, events), maxQueue)
    decreases |events|
  {
    if events != [] {
      StepSorts(t, maxQueue, events[0]);
      RunSorts(Step(t, maxQueue, events[0]), maxQueue, events[1..]);
    }
  }

  /** Whether an event pushes into a full buffer. */
  predicate Overflows<T>(t: Trace<T>, maxQueue: nat, e: Event<T>) {
    e.Pushes? && !t.channel.closed && !t.channel.waiting && t.channel.queue != [] && |t.channel.queue| >= maxQueue
  }

  function OverflowCount<T>(t: Trace<T>, maxQueue: nat, events: seq<Event<T>>): nat
    decreases |events|
  {
    if events == [] then 0
    else
      (if Overflows(t, maxQueue, events[0]) then 1 else 0)
      + OverflowCount(Step(t, maxQueue, events[0]), maxQueue, events[1..])
  }

  /** A value is lost for each push into a full buffer, and for nothing else. */
  lemma {:induction false} OnlyOverflowDrops<T>(t: Trace<T>, maxQueue: nat, events: seq<Event<T>>)
    ensures |Run(t, maxQueue, events).dropped| == |t.dropped| + OverflowCount(t, maxQueue, events)
    decreases |events|
  {
    if events != [] {
      OnlyOverflowDrops(Step(t, maxQueue, events[0]), maxQueue, events[1..]);
    }
  }

  function Repeated<T>(e: Event<T>, n: nat): seq<Event<T>> {
    if n == 0 then [] else [e] + Repeated(e, n - 1)
  }

  /** Once closed, a channel hands out what it still buffers, in order, and then the end; what is
      pushed meanwhile is ignored. */
  lemma {:induction false} ClosedDrains<T>(t: Trace<T>, maxQueue: nat, late: T)
    requires t.channel.closed && !t.channel.waiting
    ensures Step(t, maxQueue, Pushes(late)) == t
    ensures var t1 := Run(t, maxQueue, Repeated(Pulls, |t.channel.queue| + 1));
            t1.taken == t.taken + t.channel.queue && t1.ended && t1.channel.queue == [] && t1.sent == t.sent
    decreases |t.channel.queue|
  {
    var (n, t1) := (|t.channel.queue|, Step(t, maxQueue, Pulls));
    var pulls := Repeated<T>(Pulls, n + 1);
    assert pulls[0] == Pulls && pulls[1..] == Repeated(Pulls, n);
    if n > 0 {
      ClosedDrains(t1, maxQueue, late);
      assert t.channel.queue == [t.channel.queue[0]] + t.channel.queue[1..];
    }
  }

  /** Closing a channel never leaves its consumer waiting: a pull that waits is ended at once. */
  lemma CloseEndsTheWait<T>(t: Trace<T>, maxQueue: nat)
    requires !t.channel.closed
    ensures var t1 := Step(t, maxQueue, Closes);
            && t1.channel.closed && !t1.channel.waiting
            && (t.channel.waiting ==> t1.ended)
            && t1.channel.queue == t.channel.queue && t1.taken == t.taken
  {
  }

  // ----- The stream, end to end -----

  /** What a producer sends. */
  datatype Message = Sent(event: SseEvent) | Comment(text: string)

  function FrameOf(m: Message): string {
    match m
    case Sent(e) => Frame(e)
    case Comment(text) => ":" + OneLine(text) + "\n\n"
  }

  function Frames(ms: seq<Message>): seq<string> {
    seq(|ms|, i requires 0 <= i < |ms| => FrameOf(ms[i]))
  }

  function Concat(frames: seq<string>): string {
    if frames == [] then "" else frames[0] + Concat(frames[1..])
  }

  /** The events a client should dispatch for the messages it was delivered. */
  function ExpectedAll(lastEventId: string, ms: seq<Message>): seq<Received>
    decreases |ms|
  {
    if ms == [] then []
    else
      match ms[0]
      case Comment(_) => ExpectedAll(lastEventId, ms[1..])
      case Sent(e) => [Expected(lastEventId, e)] + ExpectedAll(Expected(lastEventId, e).lastEventId, ms[1..])
  }

  /** The client after it read one message's frame. */
  function Reads(c: Client, m: Message): Client {
    match m
    case Comment(_) => c
    case Sent(e) => AfterHeader(c, e).(dispatched := c.dispatched + [Expected(c.lastEventId, e)], eventType := "")
  }

  function ReadsAll(c: Client, ms: seq<Message>): Client
    decreases |ms|
  {
    if ms == [] then c else ReadsAll(Reads(c, ms[0]), ms[1..])
  }

  lemma FrameParses(c: Client, m: Message, rest: string)
    requires Idle(c)
    ensures Parse(c, FrameOf(m) + rest) == Parse(Reads(c, m), rest) && Idle(Reads(c, m))
  {
    match m {
      case Comment(text) => ParseComment(c, text, rest);
      case Sent(e) => ParseFrame(c, e, rest);
    }
  }

  lemma ParseNothing(c: Client)
    ensures Parse(c, "") == c
  {
  }

  /** Parsing the concatenated frames is reading the messages one by one. */
  lemma {:induction false} FramesParse(c: Client, ms: seq<Message>)
    requires Idle(c)
    ensures Parse(c, Concat(Frames(ms))) == ReadsAll(c, ms)
    decreases |ms|
  {
    if ms == [] {
      ParseNothing(c);
    } else {
      var rest := Concat(Frames(ms[1..]));
      assert Frames(ms)[1..] == Frames(ms[1..]);
      assert Concat(Frames(ms)) == FrameOf(ms[0]) + rest;
      FrameParses(c, ms[0], rest);
      FramesParse(Reads(c, ms[0]), ms[1..]);
    }
  }

  /** Reading messages dispatches exactly their events, in order. */
  lemma {:induction false} ReadsDispatch(c: Client, ms: seq<Message>)
    ensures ReadsAll(c, ms).dispatched == c.dispatched + ExpectedAll(c.lastEventId, ms)
    decreases |ms|
  {
    if ms == [] {
      assert c.dispatched + [] == c.dispatched;
    } else {
      var c1 := Reads(c, ms[0]);
      ReadsDispatch(c1, ms[1..]);
      if ms[0].Sent? {
        var (x, more) := (Expected(c.lastEventId, ms[0].event), ExpectedAll(c1.lastEventId, ms[1..]));
        assert c.dispatched + [x] + more == c.dispatched + ([x] + more);
      }
    }
  }

  const EMPTY_CLIENT := Client([], "", "", "", None)

  predicate Fresh<T>(t: Trace<T>) {
    && t.channel == Channel([], false, false) && !t.ended
    && t.sent == [] && t.taken == [] && t.delivered == [] && t.dropped == []
  }

  // The channel carries frames; that it carries the messages' frames is parametricity.

  function FramedEvent(e: Event<Message>): Event<string> {
    match e
    case Pushes(m) => Pushes(FrameOf(m))
    case Pulls => Pulls
    case Closes => Closes
  }

  function FramedEvents(events: seq<Event<Message>>): seq<Event<string>> {
    if events == [] then [] else [FramedEvent(events[0])] + FramedEvents(events[1..])
  }

  function Framed(t: Trace<Message>): Trace<string> {
    Trace(Channel(Frames(t.channel.queue), t.channel.waiting, t.channel.closed),
          Frames(t.sent), Frames(t.taken), t.delivered, t.dropped, t.ended)
  }

  lemma FramesSnoc(ms: seq<Message>, m: Message)
    ensures Frames(ms + [m]) == Frames(ms) + [FrameOf(m)]
    ensures ms != [] ==> Frames(ms[1..]) == Frames(ms)[1..]
  {
    hide FrameOf;
  }

  lemma StepFramed(t: Trace<Message>, maxQueue: nat, e: Event<Message>)
    ensures Framed(Step(t, maxQueue, e)) == Step(Framed(t), maxQueue, FramedEvent(e))
  {
    hide FrameOf;
    FramesSnoc(t.channel.queue, if e.Pushes? then e.value else Comment(""));
    if t.channel.queue != [] {
      FramesSnoc(t.taken, t.channel.queue[0]);
    }
    if e.Pushes? {
      FramesSnoc(t.sent, e.value);
      FramesSnoc(t.taken, e.value);
      if t.channel.queue != [] {
        FramesSnoc(t.channel.queue[1..], e.value);
      }
    }
  }

  lemma {:induction false} RunFramed(t: Trace<Message>, maxQueue: nat, events: seq<Event<Message>>)
    ensures Framed(Run(t, maxQueue, events)) == Run(Framed(t), maxQueue, FramedEvents(events))
    decreases |events|
  {
    if events != [] {
      StepFramed(t, maxQueue, events[0]);
      RunFramed(Step(t, maxQueue, events[0]), maxQueue, events[1..]);
      assert FramedEvents(events)[1..] == FramedEvents(events[1..]);
    }
  }

  lemma FreshSorts<T>(start: Trace<T>, maxQueue: nat)
    requires Fresh(start)
    ensures Sorted(start, maxQueue)
  {
  }

  lemma FramedIsFresh(start: Trace<Message>)
    requires Fresh(start)
    ensures Fresh(Framed(start))
  {
  }

  /** What a run of messages and the same run of frames share: both account for every value, and
      the wire run hands out the frames of the messages handed out. */
  lemma RunsAgree(start: Trace<Message>, maxQueue: nat, events: seq<Event<Message>>, t: Trace<Message>,
                  wire: Trace<string>)
    requires Fresh(start)
    requires t == Run(start, maxQueue, events) && wire == Run(Framed(start), maxQueue, FramedEvents(events))
    ensures Sorted(t, maxQueue) && Sorted(wire, maxQueue)
    ensures wire.taken == Frames(t.taken)
  {
    hide Run, Sorted, FramedEvents, Frames;
    FreshSorts(start, maxQueue);
    FramedIsFresh(start);
    FreshSorts(Framed(start), maxQueue);
    RunSorts(start, maxQueue, events);
    RunSorts(Framed(start), maxQueue, FramedEvents(events));
    RunFramed(start, maxQueue, events);
  }

  lemma DeliveredParse(ms: seq<Message>)
    ensures Parse(EMPTY_CLIENT, Concat(Frames(ms))).dispatched == ExpectedAll("", ms)
  {
    FramesParse(EMPTY_CLIENT, ms);
    ReadsDispatch(EMPTY_CLIENT, ms);
    assert [] + ExpectedAll("", ms) == ExpectedAll("", ms);
  }

  /** SSE end to end. For every sequence of events and comments sent, and any interleaving of
      push, next and close with one consumer: parsing the frames the channel handed out yields the
      events of the messages taken, in order; these are what was sent less what was dropped or is
      still buffered; and only pushes into a full buffer drop, each the oldest. */
  lemma SseEndToEnd(start: Trace<Message>, maxQueue: nat, events: seq<Event<Message>>, t: Trace<Message>,
                    wire: Trace<string>)
    requires Fresh(start)
    requires t == Run(start, maxQueue, events) && wire == Run(Framed(start), maxQueue, FramedEvents(events))
    ensures Sorted(t, maxQueue) && Sorted(wire, maxQueue)
    ensures Parse(EMPTY_CLIENT, Concat(wire.taken)).dispatched == ExpectedAll("", t.taken)
    ensures |t.dropped| == OverflowCount(start, maxQueue, events)
  {
    RunsAgree(start, maxQueue, events, t, wire);
    OnlyOverflowDrops(start, maxQueue, events);
    DeliveredParse(t.taken);
  }
}
