/** At-most-once execution over every interleaving of concurrent requests, and what the store
    promises once a response is recorded. */
module IdempotencySafety {
  import opened Wrappers
  import opened OrderedMap
  import opened Idempotency

  datatype Event =
    | Arrives(req: Request, participates: bool, key: Option<string>, fingerprint: string, now: int)
    | Responds(req: Request, res: Response, now: int)
    | Sweeps(now: int)

  function Step(o: Options, st: State, e: Event): State {
    match e
    case Arrives(req, participates, key, fingerprint, now) =>
      PreHandler(o, st, req, participates, key, fingerprint, now).0
    case Responds(req, res, now) => OnSend(o, st, req, res, now)
    case Sweeps(now) => st.(slots := Evict(st.slots, now))
  }

  function Decide(o: Options, st: State, e: Event): Decision
    requires e.Arrives?
  {
    PreHandler(o, st, e.req, e.participates, e.key, e.fingerprint, e.now).1
  }

  function After(o: Options, st: State, events: seq<Event>): State
    decreases |events|
  {
    if events == [] then st else After(o, Step(o, st, events[0]), events[1..])
  }

  // ----- One owner per key -----

  /** Every request past `begin` as owner has its own reservation, and no two share a key. */
  ghost predicate Owned(st: State) {
    && Unique(st.slots)
    && (forall r :: r in st.reserved ==>
          var slot := Get(st.slots, st.reserved[r].key);
          slot.Some? && slot.value.record.None? && slot.value.fingerprint == st.reserved[r].fingerprint)
    && (forall r, r' :: r in st.reserved && r' in st.reserved && r != r' ==>
          st.reserved[r].key != st.reserved[r'].key)
  }

  /** A request object arrives once; and no reservation has expired, or is dropped for room,
      before its owner finishes. */
  ghost predicate Undisturbed(o: Options, st: State, e: Event) {
    && (e.Arrives? ==> e.req !in st.reserved)
    && (forall r :: r in st.reserved && !(e.Responds? && e.req == r) ==>
          var key := st.reserved[r].key;
          Live(st.slots, key, e.now) && Has(Step(o, st, e).slots, key))
  }

  ghost predicate UndisturbedRun(o: Options, st: State, events: seq<Event>)
    decreases |events|
  {
    events == [] || (Undisturbed(o, st, events[0]) && UndisturbedRun(o, Step(o, st, events[0]), events[1..]))
  }

  /** What a reservation or completion of one key does to another key. */
  lemma BeginIsExact(m: Slots, maxKeys: int, key: string, fingerprint: string, lockTtlMs: int, now: int, other: string)
    requires Unique(m)
    ensures var (m1, r) := Begin(m, maxKeys, key, fingerprint, lockTtlMs, now);
            && Unique(m1)
            && (r == New <==> !Live(m, key, now))
            && (r == New ==> Get(m1, key) == Some(Slot(fingerprint, None, now + lockTtlMs)))
            && (r != New ==> m1 == m)
            && (other != key ==> Get(m1, other) == Get(m, other) || Get(m1, other) == None)
            && (r == New ==> |m1| <= Max(1, maxKeys))
  {
    KeepIsExact(m, Unexpired(now), other);
    FitIsExact(Evict(m, now), maxKeys, other);
    var room := if |m| >= maxKeys then CapacityEvict(m, maxKeys, now) else m;
    PutIsExact(room, key, Slot(fingerprint, None, now + lockTtlMs));
  }

  function Max(a: int, b: int): int {
    if a >= b then a else b
  }

  lemma ArrivalKeepsOwned(o: Options, st: State, e: Event)
    requires e.Arrives? && Owned(st) && Undisturbed(o, st, e)
    ensures Owned(Step(o, st, e))
  {
    hide Begin;
    if e.participates && e.key.Some? && e.key.value != "" {
      var key := e.key.value;
      BeginIsExact(st.slots, o.maxKeys, key, e.fingerprint, o.lockTtlMs, e.now, key);
      forall r | r in st.reserved
        ensures var slots := Step(o, st, e).slots;
                Get(slots, st.reserved[r].key) == Get(st.slots, st.reserved[r].key)
      {
        BeginIsExact(st.slots, o.maxKeys, key, e.fingerprint, o.lockTtlMs, e.now, st.reserved[r].key);
      }
    }
  }

  lemma DeleteShortens(slots: Slots, key: string)
    ensures |Delete(slots, key)| <= |slots|
  {
  }

  /** What an owner's response does to the slots: its own key, any other key, and the size. */
  lemma OnSendIsExact(o: Options, st: State, req: Request, res: Response, now: int, other: string)
    requires Unique(st.slots) && req in st.reserved
    ensures var held := st.reserved[req];
            var slots := OnSend(o, st, req, res, now).slots;
            && Unique(slots)
            && Get(slots, held.key)
               == (if res.status >= 500 then None
                   else Some(Slot(held.fingerprint, Some(RecordOf(held, res)), now + o.recordTtlMs)))
            && (other != held.key ==> Get(slots, other) == Get(st.slots, other))
            && (res.status < 500 ==> |slots| == |st.slots| + if Has(st.slots, held.key) then 0 else 1)
            && (res.status >= 500 ==> |slots| <= |st.slots|)
  {
    hide Get, Put, Delete, Find, Unique;
    var held := st.reserved[req];
    if res.status >= 500 {
      DeleteIsExact(st.slots, held.key);
      DeleteShortens(st.slots, held.key);
    } else {
      PutIsExact(st.slots, held.key, Slot(held.fingerprint, Some(RecordOf(held, res)), now + o.recordTtlMs));
    }
  }

  lemma ResponseKeepsOwned(o: Options, st: State, e: Event)
    requires e.Responds? && Owned(st)
    ensures Owned(Step(o, st, e))
  {
    if e.req in st.reserved {
      var st1 := Step(o, st, e);
      OnSendIsExact(o, st, e.req, e.res, e.now, "");
      assert st1.reserved == st.reserved - {e.req};
      forall r | r in st1.reserved
        ensures Get(st1.slots, st.reserved[r].key) == Get(st.slots, st.reserved[r].key)
      {
        OnSendIsExact(o, st, e.req, e.res, e.now, st.reserved[r].key);
      }
    }
  }

  lemma StepKeepsOwned(o: Options, st: State, e: Event)
    requires Owned(st) && Undisturbed(o, st, e)
    ensures Owned(Step(o, st, e))
  {
    match e {
      case Arrives(_, _, _, _, _) => ArrivalKeepsOwned(o, st, e);
      case Responds(_, _, _) => ResponseKeepsOwned(o, st, e);
      case Sweeps(now) =>
        KeepUnique(st.slots, Unexpired(now));
        forall r | r in st.reserved
          ensures Get(Step(o, st, e).slots, st.reserved[r].key) == Get(st.slots, st.reserved[r].key)
        {
          KeepIsExact(st.slots, Unexpired(now), st.reserved[r].key);
        }
    }
  }

  /** At most one request per key is past `begin` as owner at a time, in every undisturbed run. */
  lemma {:induction false} AtMostOneOwner(o: Options, st: State, events: seq<Event>)
    requires Owned(st) && UndisturbedRun(o, st, events)
    ensures Owned(After(o, st, events))
    decreases |events|
  {
    if events != [] {
      StepKeepsOwned(o, st, events[0]);
      AtMostOneOwner(o, Step(o, st, events[0]), events[1..]);
    }
  }

  /** A handler is let run as owner exactly when no live slot holds the key: while a request
      owns it, a second one is answered 409, or 422 when its parameters differ. */
  lemma WhoRuns(o: Options, st: State, e: Event)
    requires e.Arrives? && e.participates && e.key.Some? && e.key.value != "" && Unique(st.slots)
    ensures Decide(o, st, e) == Runs(true) <==> !Live(st.slots, e.key.value, e.now)
    ensures Owned(st) && Undisturbed(o, st, e) ==>
              forall r :: r in st.reserved && st.reserved[r].key == e.key.value ==>
                Decide(o, st, e) == if st.reserved[r].fingerprint == e.fingerprint then Answers409 else Answers422
  {
    BeginIsExact(st.slots, o.maxKeys, e.key.value, e.fingerprint, o.lockTtlMs, e.now, e.key.value);
  }

  /** Without the premise it fails: a reservation that has expired is taken again, and two
      requests own the key at once. */
  lemma ExpiredReservationIsTakenTwice()
    ensures var o := Options(10, false, 86400, 60);
            var first := Arrives(1, true, Some("k"), "f", 0);
            var second := Arrives(2, true, Some("k"), "f", 60);
            var st := Step(o, State([], map[]), first);
            && Decide(o, State([], map[]), first) == Runs(true) && Decide(o, st, second) == Runs(true)
            && var after := Step(o, st, second);
               1 in after.reserved && 2 in after.reserved && after.reserved[1].key == after.reserved[2].key
  {
    var o := Options(10, false, 86400, 60);
    var first := Arrives(1, true, Some("k"), "f", 0);
    var second := Arrives(2, true, Some("k"), "f", 60);
    var empty: Slots := [];
    PutIsExact(empty, "k", Slot("f", None, 60));
    var st := Step(o, State(empty, map[]), first);
    assert Get(st.slots, "k") == Some(Slot("f", None, 60));
  }

  // ----- After completion -----

  /** The key holds this record until `until`, and nobody is about to overwrite it. */
  ghost predicate RecordStands(st: State, key: string, record: Record, until: int) {
    && Unique(st.slots)
    && Get(st.slots, key) == Some(Slot(record.fingerprint, Some(record), until))
    && forall r :: r in st.reserved ==> st.reserved[r].key != key
  }

  /** The non-5xx response of an owner is recorded; a 5xx frees the key. */
  lemma CompletionRecords(o: Options, st: State, e: Event)
    requires e.Responds? && Owned(st) && e.req in st.reserved
    ensures var held := st.reserved[e.req];
            if e.res.status < 500
            then RecordStands(Step(o, st, e), held.key, RecordOf(held, e.res), e.now + o.recordTtlMs)
            else Get(Step(o, st, e).slots, held.key) == None
  {
    OnSendIsExact(o, st, e.req, e.res, e.now, "");
  }

  /** While the record lives and is not dropped for room. */
  ghost predicate RecordLives(o: Options, st: State, key: string, until: int, events: seq<Event>)
    decreases |events|
  {
    events == [] ||
    (events[0].now < until && Has(Step(o, st, events[0]).slots, key)
     && RecordLives(o, Step(o, st, events[0]), key, until, events[1..]))
  }

  /** Every request for `key` in the run is answered with the record when its fingerprint is the
      record's, and with 422 otherwise; no handler runs for it. */
  ghost predicate AllReplayed(o: Options, st: State, key: string, record: Record, events: seq<Event>)
    decreases |events|
  {
    events == [] ||
    (&& (events[0].Arrives? && events[0].participates && events[0].key == Some(key) && key != "" ==>
           Decide(o, st, events[0])
           == if events[0].fingerprint == record.fingerprint then Replays(record) else Answers422)
     && AllReplayed(o, Step(o, st, events[0]), key, record, events[1..]))
  }

  lemma StepKeepsRecord(o: Options, st: State, key: string, record: Record, until: int, e: Event)
    requires RecordStands(st, key, record, until) && e.now < until && Has(Step(o, st, e).slots, key)
    ensures RecordStands(Step(o, st, e), key, record, until)
    ensures e.Arrives? && e.participates && e.key == Some(key) && key != "" ==>
              Decide(o, st, e) == if e.fingerprint == record.fingerprint then Replays(record) else Answers422
  {
    match e {
      case Arrives(_, participates, k, fingerprint, now) =>
        if participates && k.Some? && k.value != "" {
          BeginIsExact(st.slots, o.maxKeys, k.value, fingerprint, o.lockTtlMs, now, key);
        }
      case Responds(req, res, now) =>
        if req in st.reserved {
          OnSendIsExact(o, st, req, res, now, key);
        }
      case Sweeps(now) => KeepIsExact(st.slots, Unexpired(now), key);
    }
  }

  /** After a non-5xx completion, every later `begin` while the record lives returns that same
      record for the same fingerprint and a mismatch for any other: the handler is not run again. */
  lemma {:induction false} RecordIsReplayed(o: Options, st: State, key: string, record: Record, until: int,
                                            events: seq<Event>)
    requires RecordStands(st, key, record, until) && RecordLives(o, st, key, until, events)
    ensures AllReplayed(o, st, key, record, events)
    ensures RecordStands(After(o, st, events), key, record, until)
    decreases |events|
  {
    if events != [] {
      StepKeepsRecord(o, st, key, record, until, events[0]);
      RecordIsReplayed(o, Step(o, st, events[0]), key, record, until, events[1..]);
    }
  }

  /** Whether `d` answers with the response `res`, field by field. */
  predicate Repeats(d: Decision, res: Response) {
    && d.Replays?
    && d.record.status == res.status && d.record.contentType == res.contentType
    && d.record.body == res.body && d.record.headers == Replayable(res.staged + res.headers)
  }

  /** Header names are compared without regard to case. */
  predicate IsCookie(name: string) {
    |name| == 10 && forall i :: 0 <= i < 10 ==> name[i] == "set-cookie"[i] || name[i] == "SET-COOKIE"[i]
  }

  /** What is left out of a replay is cookies, in any case and wherever they stand, and nothing else. */
  lemma {:induction false} OnlyCookiesAreSkipped(a: Headers, b: Headers, h: (string, string))
    ensures Replayable(a + b) == Replayable(a) + Replayable(b)
    ensures Replayable([h]) == if IsCookie(h.0) then [] else [h]
  {
    hide Lower, IsCookie;
    assert [h][1..] == [];
    CookieNames(h.0);
    if a == [] {
      assert a + b == b;
    } else {
      OnlyCookiesAreSkipped(a[1..], b, h);
      ReplayableCons(a, b);
    }
  }

  lemma ReplayableCons(a: Headers, b: Headers)
    requires a != [] && Replayable(a[1..] + b) == Replayable(a[1..]) + Replayable(b)
    ensures Replayable(a + b) == Replayable(a) + Replayable(b)
  {
    hide UnlessCookie;
    assert (a + b)[0] == a[0] && (a + b)[1..] == a[1..] + b;
    assert Replayable(a + b) == UnlessCookie(a[0]) + Replayable(a[1..] + b);
    Regroup(UnlessCookie(a[0]), Replayable(a[1..]), Replayable(b));
  }

  lemma Regroup(a: Headers, b: Headers, c: Headers)
    ensures a + (b + c) == a + b + c
  {
  }

  lemma CookieNames(name: string)
    ensures Lower(name) == "set-cookie" <==> IsCookie(name)
  {
    var (lower, cookie) := (Lower(name), "set-cookie");
    assert |cookie| == 10;
    assert lower == cookie <==> |name| == 10 && forall i :: 0 <= i < 10 ==> lower[i] == cookie[i];
    if |name| == 10 {
      forall i | 0 <= i < 10
        ensures lower[i] == cookie[i] <==> name[i] == "set-cookie"[i] || name[i] == "SET-COOKIE"[i]
      {
      }
    }
  }

  /** Every request of the run for `key` is answered with `res` when it has the fingerprint of the
      first one, and with 422 otherwise. */
  ghost predicate AllRepeat(o: Options, st: State, key: string, fingerprint: string, res: Response, events: seq<Event>)
    decreases |events|
  {
    events == [] ||
    (&& (events[0].Arrives? && events[0].participates && events[0].key == Some(key) && key != "" ==>
           if events[0].fingerprint == fingerprint then Repeats(Decide(o, st, events[0]), res)
           else Decide(o, st, events[0]) == Answers422)
     && AllRepeat(o, Step(o, st, events[0]), key, fingerprint, res, events[1..]))
  }

  lemma {:induction false} ReplaysRepeat(o: Options, st: State, key: string, record: Record, res: Response,
                                         events: seq<Event>)
    requires AllReplayed(o, st, key, record, events) && Repeats(Replays(record), res)
    ensures AllRepeat(o, st, key, record.fingerprint, res, events)
    decreases |events|
  {
    hide Step, Decide;
    if events != [] {
      ReplaysRepeat(o, Step(o, st, events[0]), key, record, res, events[1..]);
    }
  }

  /** A retry gets the first response. After an owner's response below 500, every later request with
      its key, while the record lives, is answered with that very response (its status, content type,
      body, and its headers and the staged ones but cookies) when the fingerprint is the owner's, and
      with 422 when it is not. */
  lemma RetryGetsTheResponse(o: Options, st: State, e: Event, events: seq<Event>)
    requires e.Responds? && e.res.status < 500 && Owned(st) && e.req in st.reserved
    requires RecordLives(o, Step(o, st, e), st.reserved[e.req].key, e.now + o.recordTtlMs, events)
    ensures var held := st.reserved[e.req];
            AllRepeat(o, Step(o, st, e), held.key, held.fingerprint, e.res, events)
  {
    var held := st.reserved[e.req];
    var (st1, record) := (Step(o, st, e), RecordOf(held, e.res));
    CompletionRecords(o, st, e);
    hide Step, Owned, RecordStands;
    RecordIsReplayed(o, st1, held.key, record, e.now + o.recordTtlMs, events);
    ReplaysRepeat(o, st1, held.key, record, e.res, events);
  }

  /** A request that does not participate, or has no key, is never answered from the store and never
      owns anything: its handler runs, unless a key is required and it has none. */
  lemma WithoutAKey(o: Options, st: State, e: Event)
    requires e.Arrives? && (e.participates ==> e.key.None? || e.key.value == "")
    ensures Step(o, st, e) == st
    ensures Decide(o, st, e) == if e.participates && o.required then Answers400 else Runs(false)
  {
  }

  /** The sweep forgets exactly the slots that have expired. */
  lemma SweepIsExact(o: Options, st: State, now: int, key: string)
    requires Unique(st.slots)
    ensures var slot := Get(st.slots, key);
            Get(Step(o, st, Sweeps(now)).slots, key)
            == if slot.Some? && now < slot.value.expiresAt then slot else None
  {
    KeepIsExact(st.slots, Unexpired(now), key);
  }

  // ----- The ceiling -----

  /** The one way past the ceiling: an owner whose slot was dropped completes while the table is
      full, since `complete` makes no room. */
  predicate CompletesOverCeiling(o: Options, st: State, e: Event) {
    && e.Responds? && e.req in st.reserved && e.res.status < 500
    && !Has(st.slots, st.reserved[e.req].key) && |st.slots| >= Max(1, o.maxKeys)
  }

  /** Every event keeps the table within max(1, maxKeys) slots, if and only if it is not that. */
  lemma CeilingHoldsUnless(o: Options, st: State, e: Event)
    requires Unique(st.slots) && |st.slots| <= Max(1, o.maxKeys)
    ensures |Step(o, st, e).slots| <= Max(1, o.maxKeys) <==> !CompletesOverCeiling(o, st, e)
  {
    match e {
      case Arrives(_, participates, key, fingerprint, now) =>
        if participates && key.Some? && key.value != "" {
          BeginIsExact(st.slots, o.maxKeys, key.value, fingerprint, o.lockTtlMs, now, key.value);
        }
      case Responds(req, res, now) =>
        if req in st.reserved {
          OnSendIsExact(o, st, req, res, now, "");
        }
      case Sweeps(now) =>
    }
  }

  /** How often a run does that. */
  function PassesCeiling(o: Options, st: State, events: seq<Event>): nat
    decreases |events|
  {
    if events == [] then 0
    else
      (if CompletesOverCeiling(o, st, events[0]) then 1 else 0) + PassesCeiling(o, Step(o, st, events[0]), events[1..])
  }

  lemma StepPassesByOne(o: Options, st: State, e: Event)
    requires Unique(st.slots)
    ensures Unique(Step(o, st, e).slots)
    ensures |Step(o, st, e).slots|
         <= Max(|st.slots|, Max(1, o.maxKeys)) + (if CompletesOverCeiling(o, st, e) then 1 else 0)
  {
    match e {
      case Arrives(_, participates, key, fingerprint, now) =>
        if participates && key.Some? && key.value != "" {
          BeginIsExact(st.slots, o.maxKeys, key.value, fingerprint, o.lockTtlMs, now, key.value);
        }
      case Responds(req, res, now) =>
        if req in st.reserved {
          OnSendIsExact(o, st, req, res, now, "");
        }
      case Sweeps(now) => KeepUnique(st.slots, Unexpired(now));
    }
  }

  /** Over every run the ceiling is passed by at most one slot for each such completion; so a run
      without them keeps it. */
  lemma {:induction false} CeilingOverRuns(o: Options, st: State, events: seq<Event>)
    requires Unique(st.slots)
    ensures |After(o, st, events).slots| <= Max(|st.slots|, Max(1, o.maxKeys)) + PassesCeiling(o, st, events)
    decreases |events|
  {
    if events != [] {
      StepPassesByOne(o, st, events[0]);
      CeilingOverRuns(o, Step(o, st, events[0]), events[1..]);
    }
  }

  /** Which keys a new reservation costs at the ceiling: every expired one, and of the live ones
      those with `maxKeys` or more live ones from them on, that is, the oldest. */
  lemma ExpiredThenOldestGo(m: Slots, maxKeys: int, key: string, fingerprint: string, lockTtlMs: int, now: int, i: nat)
    requires Unique(m) && i < |m| && m[i].key != key && |m| >= maxKeys && !Live(m, key, now)
    ensures Has(Begin(m, maxKeys, key, fingerprint, lockTtlMs, now).0, m[i].key)
       <==> now < m[i].value.expiresAt && |Evict(m[i..], now)| < maxKeys
  {
    hide Keep, Fit;
    var (room, slot) := (CapacityEvict(m, maxKeys, now), Slot(fingerprint, None, now + lockTtlMs));
    EvictedIffOld(m, Unexpired(now), maxKeys, i);
    KeepUnique(m, Unexpired(now));
    FitIsExact(Evict(m, now), maxKeys, key);
    PutIsExact(room, key, slot);
    assert Get(Put(room, key, slot), m[i].key) == Get(room, m[i].key);
  }

  /** With room for one key, a reservation in an empty table is its only slot... */
  lemma FirstTakesTheRoom(o: Options, st: State, e: Event)
    requires st.slots == [] && o.maxKeys == 1
    requires e.Arrives? && e.participates && e.key.Some? && e.key.value != ""
    ensures Step(o, st, e) == State([Entry(e.key.value, Slot(e.fingerprint, None, e.now + o.lockTtlMs))],
                                    st.reserved[e.req := Held(e.key.value, e.fingerprint)])
  {
  }

  /** ... which the next key drops ... */
  lemma NextTakesItsPlace(o: Options, st: State, e: Event)
    requires Unique(st.slots) && |st.slots| == 1 && o.maxKeys == 1
    requires e.Arrives? && e.participates && e.key.Some? && e.key.value != "" && st.slots[0].key != e.key.value
    ensures var st1 := Step(o, st, e);
            && Unique(st1.slots) && |st1.slots| == 1 && st1.slots[0].key == e.key.value
            && st1.reserved == st.reserved[e.req := Held(e.key.value, e.fingerprint)]
  {
    hide Begin;
    var (m, r) := Begin(st.slots, o.maxKeys, e.key.value, e.fingerprint, o.lockTtlMs, e.now);
    BeginIsExact(st.slots, o.maxKeys, e.key.value, e.fingerprint, o.lockTtlMs, e.now, e.key.value);
    assert Find(st.slots, e.key.value) == 1;
    assert m[Find(m, e.key.value)].key == e.key.value;
  }

  /** ... and the first owner's completion then adds a second slot. */
  lemma CompletionAddsASlot(o: Options, st: State, e: Event)
    requires Unique(st.slots) && e.Responds? && e.req in st.reserved && e.res.status < 500
    requires !Has(st.slots, st.reserved[e.req].key)
    ensures |Step(o, st, e).slots| == |st.slots| + 1
  {
  }

  /** It happens: room for one key, two requests with different keys, and the first one's response. */
  lemma CeilingCanBePassed(o: Options, st: State, e1: Event, e2: Event, e3: Event)
    requires o.maxKeys == 1 && st.slots == []
    requires e1.Arrives? && e1.participates && e1.key.Some? && e1.key.value != ""
    requires e2.Arrives? && e2.participates && e2.key.Some? && e2.key.value != ""
    requires e1.key != e2.key && e1.req != e2.req
    requires e3.Responds? && e3.req == e1.req && e3.res.status < 500
    ensures |After(o, st, [e1, e2, e3]).slots| == 2
  {
    hide Step;
    FirstTakesTheRoom(o, st, e1);
    var st1 := Step(o, st, e1);
    NextTakesItsPlace(o, st1, e2);
    var st2 := Step(o, st1, e2);
    assert Find(st2.slots, e1.key.value) == 1;
    CompletionAddsASlot(o, st2, e3);
    assert [e1, e2, e3][1..] == [e2, e3] && [e2, e3][1..] == [e3] && [e3][1..] == [];
    assert After(o, st, [e1, e2, e3]) == After(o, st1, [e2, e3]) == After(o, st2, [e3]) == Step(o, st2, e3);
  }
}
