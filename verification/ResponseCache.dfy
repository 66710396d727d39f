/** plugins/cache/src/store.ts: a bounded cache whose map order is the order of last use. */
module ResponseCache {
  import opened Wrappers
  import opened ByteStrings
  import opened OrderedMap

  datatype CacheEntry = CacheEntry(
    status: int,
    contentType: string,
    body: Bytes,
    headers: seq<(string, string)>,
    vary: Option<string>,
    storedAt: int,
    expiresAt: int
  )

  type Entries = seq<Entry<string, CacheEntry>>

  function Unexpired(now: int): CacheEntry -> bool {
    (e: CacheEntry) => now < e.expiresAt
  }

  /** Deleted and set again: the key moves to the newest place. */
  function Renew(m: Entries, key: string, entry: CacheEntry): Entries {
    Delete(m, key) + [Entry(key, entry)]
  }

  function Lookup(m: Entries, key: string, now: int): (Entries, Option<CacheEntry>) {
    var entry := Get(m, key);
    if entry.None? then (m, None)
    else if now >= entry.value.expiresAt then (Delete(m, key), None)
    else (Renew(m, key, entry.value), entry)
  }

  function Store(m: Entries, max: int, key: string, entry: CacheEntry): Entries {
    var m1 := Renew(m, key, entry);
    if |m1| > max then m1[1..] else m1
  }

  lemma RenewIsPut(m: Entries, key: string, entry: CacheEntry)
    requires Unique(m)
    ensures Put(Delete(m, key), key, entry) == Renew(m, key, entry) && Unique(Renew(m, key, entry))
  {
    DeleteIsExact(m, key);
    PutIsExact(Delete(m, key), key, entry);
  }

  class MemoryStore {
    const max: int
    var entries: Entries

    ghost predicate Valid()
      reads this
    {
      Unique(entries)
    }

    constructor (max: int)
      ensures this.max == max && Valid() && entries == []
    {
      this.max, entries := max, [];
    }

    method DoGet(key: string, now: int) returns (r: Option<CacheEntry>)
      requires Valid()
      modifies this
      ensures Valid() && (entries, r) == Lookup(old(entries), key, now)
    {
      DeleteIsExact(entries, key);
      var entry := Get(entries, key);
      if entry.None? {
        return None;
      }
      if now >= entry.value.expiresAt {
        entries := Delete(entries, key);
        return None;
      }
      RenewIsPut(entries, key, entry.value);
      entries := Delete(entries, key);
      entries := Put(entries, key, entry.value);
      return entry;
    }

    method DoSet(key: string, entry: CacheEntry)
      requires Valid()
      modifies this
      ensures Valid() && entries == Store(old(entries), max, key, entry)
    {
      RenewIsPut(entries, key, entry);
      entries := Delete(entries, key);
      entries := Put(entries, key, entry);
      if |entries| > max {
        var oldest := entries[0].key;
        FindIs(entries, 0);
        DeleteIsExact(entries, oldest);
        entries := Delete(entries, oldest);
      }
    }

    method DoDelete(key: string)
      requires Valid()
      modifies this
      ensures Valid() && entries == Delete(old(entries), key)
    {
      DeleteIsExact(entries, key);
      entries := Delete(entries, key);
    }

    method DoEvict(now: int)
      requires Valid()
      modifies this
      ensures Valid() && entries == Keep(old(entries), Unexpired(now))
    {
      hide Keep;
      KeepUnique(entries, Unexpired(now));
      ghost var before := entries;
      KeepNothing(before, Unexpired(now));
      var i := 0;
      ghost var n := 0;
      while i < |entries|
        invariant i <= |entries| && n <= |before|
        invariant entries[..i] == Keep(before[..n], Unexpired(now)) && entries[i..] == before[n..]
        decreases |entries| - i
      {
        KeepNext(before, n, Unexpired(now));
        assert entries[i] == before[n];
        ghost var (kept, rest) := (entries[..i], entries[i + 1..]);
        assert rest == before[n + 1..];
        if now >= entries[i].value.expiresAt {
          entries := entries[..i] + entries[i + 1..];
          assert entries[..i] == kept && entries[i..] == rest;
        } else {
          assert entries[..i + 1] == kept + [entries[i]];
          i := i + 1;
        }
        n := n + 1;
      }
      assert before[..n] == before && entries[..i] == entries;
    }
  }

  // ----- The simple specification -----

  datatype Event =
    | Gets(key: string, now: int)
    | Sets(key: string, entry: CacheEntry)
    | Deletes(key: string)
    | Sweeps(now: int)

  function Step(m: Entries, max: int, e: Event): Entries {
    match e
    case Gets(key, now) => Lookup(m, key, now).0
    case Sets(key, entry) => Store(m, max, key, entry)
    case Deletes(key) => Delete(m, key)
    case Sweeps(now) => Keep(m, Unexpired(now))
  }

  /** The keys used so far, in order (a hit or a set is a use), and the last entry set per key. */
  datatype History = History(uses: seq<string>, latest: map<string, CacheEntry>)

  function Uses(m: Entries, e: Event): bool {
    e.Sets? || (e.Gets? && Lookup(m, e.key, e.now).1.Some?)
  }

  function Extend(h: History, m: Entries, e: Event): History {
    History(if Uses(m, e) then h.uses + [e.key] else h.uses,
            if e.Sets? then h.latest[e.key := e.entry] else h.latest)
  }

  /** The last place of `key` in a log of keys, or -1. */
  function LastPlace(uses: seq<string>, key: string): (i: int)
    ensures -1 <= i < |uses|
    ensures i >= 0 ==> uses[i] == key
    ensures forall j :: i < j < |uses| ==> uses[j] != key
  {
    if uses == [] then -1
    else if uses[|uses| - 1] == key then |uses| - 1
    else LastPlace(uses[..|uses| - 1], key)
  }

  lemma LastPlaceSnoc(uses: seq<string>, key: string, other: string)
    ensures LastPlace(uses + [key], other) == if other == key then |uses| else LastPlace(uses, other)
  {
    assert (uses + [key])[..|uses|] == uses;
  }

  /** Every key of the map is in the log, and map order is the order of their last places in it. */
  ghost predicate OrderedByLast(m: Entries, uses: seq<string>) {
    && (forall i :: 0 <= i < |m| ==> LastPlace(uses, m[i].key) >= 0)
    && (forall i, j :: 0 <= i < j < |m| ==> LastPlace(uses, m[i].key) < LastPlace(uses, m[j].key))
  }

  ghost predicate HoldsLatest(m: Entries, latest: map<string, CacheEntry>) {
    forall i :: 0 <= i < |m| ==> m[i].key in latest && latest[m[i].key] == m[i].value
  }

  /** Order is order of last use, every entry is the last one set, and the size is capped. */
  ghost predicate Agrees(m: Entries, max: int, h: History) {
    && Unique(m)
    && OrderedByLast(m, h.uses)
    && HoldsLatest(m, h.latest)
    && (|m| <= max || m == [])
  }

  // ----- Preservation -----

  /** `w` is part of `m`, in the same order. */
  ghost predicate SubOrder(w: Entries, m: Entries, at: seq<nat>) {
    && |at| == |w|
    && (forall i :: 0 <= i < |w| ==> at[i] < |m| && w[i] == m[at[i]])
    && (forall i, j :: 0 <= i < j < |w| ==> at[i] < at[j])
  }

  lemma SubOrderAgrees(w: Entries, m: Entries, at: seq<nat>, max: int, h: History)
    requires Agrees(m, max, h) && SubOrder(w, m, at) && |w| <= |m|
    ensures Agrees(w, max, h)
  {
  }

  lemma WithoutAgrees(m: Entries, i: nat, max: int, h: History)
    requires Agrees(m, max, h) && i < |m|
    ensures Agrees(Without(m, i), max, h)
  {
    var w := Without(m, i);
    var at: seq<nat> := seq(|w|, j requires 0 <= j < |w| => if j < i then j else j + 1);
    SubOrderAgrees(w, m, at, max, h);
  }

  lemma {:induction false} KeepIsSubOrder(m: Entries, p: CacheEntry -> bool) returns (at: seq<nat>)
    ensures SubOrder(Keep(m, p), m, at)
  {
    if m == [] {
      at := [];
    } else {
      var front := m[..|m| - 1];
      at := KeepIsSubOrder(front, p);
      if p(m[|m| - 1].value) {
        at := at + [|m| - 1];
      }
    }
  }

  lemma DeleteAgrees(m: Entries, key: string, max: int, h: History)
    requires Agrees(m, max, h)
    ensures Agrees(Delete(m, key), max, h)
    ensures forall i :: 0 <= i < |Delete(m, key)| ==> Delete(m, key)[i].key != key
  {
    if Has(m, key) {
      WithoutAgrees(m, Find(m, key), max, h);
    }
    DeleteIsExact(m, key);
    var d := Delete(m, key);
    forall i | 0 <= i < |d| ensures d[i].key != key {
      FindIs(d, i);
    }
  }

  /** A use of `key` puts it after every other key. */
  lemma UseIsLast(m: Entries, uses: seq<string>, key: string, entry: CacheEntry)
    requires OrderedByLast(m, uses) && forall i :: 0 <= i < |m| ==> m[i].key != key
    ensures OrderedByLast(m + [Entry(key, entry)], uses + [key])
  {
    forall i | 0 <= i < |m| ensures LastPlace(uses + [key], m[i].key) == LastPlace(uses, m[i].key) {
      LastPlaceSnoc(uses, key, m[i].key);
    }
    LastPlaceSnoc(uses, key, key);
    var r := m + [Entry(key, entry)];
    assert forall i :: 0 <= i < |r| ==> r[i].key == if i < |m| then m[i].key else key;
  }

  /** The renewed key is last, as its use is. */
  lemma RenewAgrees(m: Entries, key: string, entry: CacheEntry, max: int, h: History)
    requires Agrees(m, max, h)
    ensures var r := Renew(m, key, entry);
            && Agrees(r, |r|, History(h.uses + [key], h.latest[key := entry]))
            && |r| == |m| + (if Has(m, key) then 0 else 1)
  {
    DeleteAgrees(m, key, max, h);
    RenewIsPut(m, key, entry);
    UseIsLast(Delete(m, key), h.uses, key, entry);
  }

  /** Agreement apart from the cap. */
  lemma CapAgrees(m: Entries, cap: int, max: int, h: History)
    requires Agrees(m, cap, h) && (|m| <= max || m == [])
    ensures Agrees(m, max, h)
  {
  }

  lemma LatestIsHeld(m: Entries, max: int, h: History, key: string)
    requires Agrees(m, max, h) && Has(m, key)
    ensures h.latest[key := m[Find(m, key)].value] == h.latest
  {
    hide LastPlace, OrderedByLast;
  }

  lemma GetAgrees(m: Entries, max: int, h: History, key: string, now: int)
    requires Agrees(m, max, h)
    ensures Agrees(Step(m, max, Gets(key, now)), max, Extend(h, m, Gets(key, now)))
  {
    hide Renew, LastPlace, OrderedByLast, HoldsLatest, Unique, Find;
    if Has(m, key) {
      var entry := m[Find(m, key)].value;
      if now >= entry.expiresAt {
        DeleteAgrees(m, key, max, h);
      } else {
        LatestIsHeld(m, max, h, key);
        var r := Renew(m, key, entry);
        RenewAgrees(m, key, entry, max, h);
        CapAgrees(r, |r|, max, History(h.uses + [key], h.latest[key := entry]));
      }
    }
  }

  lemma SetAgrees(m: Entries, max: int, h: History, key: string, entry: CacheEntry)
    requires Agrees(m, max, h)
    ensures Agrees(Step(m, max, Sets(key, entry)), max, Extend(h, m, Sets(key, entry)))
  {
    hide Renew, LastPlace, OrderedByLast, HoldsLatest, Unique;
    var r := Renew(m, key, entry);
    var h1 := History(h.uses + [key], h.latest[key := entry]);
    RenewAgrees(m, key, entry, max, h);
    if |r| > max {
      WithoutAgrees(r, 0, |r|, h1);
      assert Without(r, 0) == r[1..];
      CapAgrees(r[1..], |r|, max, h1);
    } else {
      CapAgrees(r, |r|, max, h1);
    }
  }

  lemma StepAgrees(m: Entries, max: int, h: History, e: Event)
    requires Agrees(m, max, h)
    ensures Agrees(Step(m, max, e), max, Extend(h, m, e))
  {
    match e {
      case Gets(key, now) => GetAgrees(m, max, h, key, now);
      case Sets(key, entry) => SetAgrees(m, max, h, key, entry);
      case Deletes(key) => DeleteAgrees(m, key, max, h);
      case Sweeps(now) =>
        var at := KeepIsSubOrder(m, Unexpired(now));
        SubOrderAgrees(Keep(m, Unexpired(now)), m, at, max, h);
    }
  }

  function After(m: Entries, max: int, events: seq<Event>): Entries
    decreases |events|
  {
    if events == [] then m else After(Step(m, max, events[0]), max, events[1..])
  }

  function HistoryAfter(m: Entries, max: int, h: History, events: seq<Event>): History
    decreases |events|
  {
    if events == [] then h else HistoryAfter(Step(m, max, events[0]), max, Extend(h, m, events[0]), events[1..])
  }

  /** Over every run: map order is order of last use, every entry is the last one set for its
      key, and the size never exceeds max. */
  lemma {:induction false} CacheAgreesWithHistory(m: Entries, max: int, h: History, events: seq<Event>)
    requires Agrees(m, max, h)
    ensures Agrees(After(m, max, events), max, HistoryAfter(m, max, h, events))
    decreases |events|
  {
    if events != [] {
      StepAgrees(m, max, h, events[0]);
      CacheAgreesWithHistory(Step(m, max, events[0]), max, Extend(h, m, events[0]), events[1..]);
    }
  }

  /** A hit returns the most recent entry set for the key, and never an expired one. */
  lemma HitIsLatestAndFresh(m: Entries, max: int, h: History, key: string, now: int)
    requires Agrees(m, max, h)
    ensures var r := Lookup(m, key, now).1;
            && (r.Some? ==> key in h.latest && r.value == h.latest[key] && now < r.value.expiresAt)
            && (r.None? ==> !Has(m, key) || h.latest[key].expiresAt <= now)
  {
  }

  /** The sweep forgets exactly the expired entries, and a delete its key; no other key changes. */
  lemma SweepAndDeleteAreExact(m: Entries, max: int, now: int, deleted: string, key: string)
    requires Unique(m)
    ensures var entry := Get(m, key);
            && Get(Step(m, max, Sweeps(now)), key)
               == (if entry.Some? && now < entry.value.expiresAt then entry else None)
            && Get(Step(m, max, Deletes(deleted)), key) == (if key == deleted then None else entry)
  {
    KeepIsExact(m, Unexpired(now), key);
    DeleteIsExact(m, deleted);
  }

  // ----- Eviction is least recently used -----

  function KeysFrom(uses: seq<string>, start: int): set<string> {
    set i | 0 <= i < |uses| && i >= start :: uses[i]
  }

  function KeySet(m: Entries): set<string> {
    set i | 0 <= i < |m| :: m[i].key
  }

  lemma {:induction false} KeySetSize(m: Entries)
    requires Unique(m)
    ensures |KeySet(m)| == |m|
  {
    if m == [] {
      assert KeySet(m) == {};
    } else {
      var (front, last) := (m[..|m| - 1], m[|m| - 1]);
      KeySetSize(front);
      assert m[|m| - 1].key !in KeySet(front);
      forall k ensures k in KeySet(m) <==> k in KeySet(front) || k == last.key {
        if k in KeySet(m) {
          var i :| 0 <= i < |m| && m[i].key == k;
          assert i < |front| ==> front[i].key == k;
        }
        if k in KeySet(front) {
          var i :| 0 <= i < |front| && front[i].key == k;
          assert m[i].key == k;
        }
        assert m[|m| - 1].key in KeySet(m);
      }
      assert KeySet(m) == KeySet(front) + {last.key};
    }
  }

  lemma {:induction false} SubsetSize(a: set<string>, b: set<string>)
    requires a <= b
    ensures |a| <= |b|
    decreases a
  {
    if x :| x in a {
      SubsetSize(a - {x}, b - {x});
    }
  }

  /** `set` drops another key only when at least `max` distinct other keys were used after that
      key's own last use. */
  lemma OnlyTheLeastRecentlyUsedGoes(m: Entries, max: int, h: History, key: string, entry: CacheEntry, dropped: string)
    requires Agrees(m, max, h)
    requires dropped != key && Has(m, dropped) && !Has(Store(m, max, key, entry), dropped)
    ensures var h1 := Extend(h, m, Sets(key, entry));
            var others := KeysFrom(h1.uses, LastPlace(h1.uses, dropped) + 1);
            dropped !in others && |others| >= max
  {
    hide LastPlace, KeysFrom, OrderedByLast, HoldsLatest;
    var r := Renew(m, key, entry);
    RenewAgrees(m, key, entry, max, h);
    RenewKeepsOthers(m, key, entry, dropped);
    OldestIsDropped(r, dropped);
    YoungerWereUsedLater(r, History(h.uses + [key], h.latest[key := entry]));
  }

  /** In an agreeing map, every key but the oldest was used after the oldest's last use. */
  lemma YoungerWereUsedLater(r: Entries, h: History)
    requires r != [] && Agrees(r, |r|, h)
    ensures var others := KeysFrom(h.uses, LastPlace(h.uses, r[0].key) + 1);
            r[0].key !in others && |others| >= |r| - 1
  {
    var (rest, others) := (r[1..], KeysFrom(h.uses, LastPlace(h.uses, r[0].key) + 1));
    forall k | k in KeySet(rest) ensures k in others {
      var i :| 0 <= i < |rest| && rest[i].key == k;
      assert r[i + 1].key == k;
      assert h.uses[LastPlace(h.uses, k)] == k;
    }
    assert forall i :: 0 <= i < |rest| ==> rest[i] == r[i + 1];
    KeySetSize(rest);
    SubsetSize(KeySet(rest), others);
  }

  lemma RenewKeepsOthers(m: Entries, key: string, entry: CacheEntry, other: string)
    requires Unique(m) && other != key
    ensures Has(Renew(m, key, entry), other) <==> Has(m, other)
  {
    RenewIsPut(m, key, entry);
    DeleteIsExact(m, key);
    PutIsExact(Delete(m, key), key, entry);
    assert Get(Renew(m, key, entry), other) == Get(m, other);
  }

  lemma OldestIsDropped(r: Entries, k: string)
    requires Unique(r) && Has(r, k) && r != [] && !Has(r[1..], k)
    ensures r[0].key == k
  {
    DropOldest(r, k);
  }

  // ----- Least recently used is not least recently written -----

  /** The log of the keys written. */
  function Written(writes: seq<string>, e: Event): seq<string> {
    if e.Sets? then writes + [e.key] else writes
  }

  function WrittenAfter(writes: seq<string>, events: seq<Event>): seq<string>
    decreases |events|
  {
    if events == [] then writes else WrittenAfter(Written(writes, events[0]), events[1..])
  }

  /** A hit on an entry that is not the newest: the one event that moves an entry unwritten. */
  predicate MovesUp(m: Entries, e: Event) {
    e.Gets? && Lookup(m, e.key, e.now).1.Some? && m[|m| - 1].key != e.key
  }

  lemma SubOrderOrdered(w: Entries, m: Entries, at: seq<nat>, log: seq<string>)
    requires Unique(m) && OrderedByLast(m, log) && SubOrder(w, m, at)
    ensures Unique(w) && OrderedByLast(w, log)
  {
  }

  lemma WithoutOrdered(m: Entries, i: nat, log: seq<string>)
    requires Unique(m) && OrderedByLast(m, log) && i < |m|
    ensures Unique(Without(m, i)) && OrderedByLast(Without(m, i), log)
  {
    var w := Without(m, i);
    var at: seq<nat> := seq(|w|, j requires 0 <= j < |w| => if j < i then j else j + 1);
    SubOrderOrdered(w, m, at, log);
  }

  lemma DeleteOrdered(m: Entries, key: string, log: seq<string>)
    requires Unique(m) && OrderedByLast(m, log)
    ensures Unique(Delete(m, key)) && OrderedByLast(Delete(m, key), log)
    ensures forall i :: 0 <= i < |Delete(m, key)| ==> Delete(m, key)[i].key != key
  {
    hide OrderedByLast;
    if Has(m, key) {
      WithoutOrdered(m, Find(m, key), log);
    }
    DeleteIsExact(m, key);
    var d := Delete(m, key);
    forall i | 0 <= i < |d| ensures d[i].key != key {
      FindIs(d, i);
    }
  }

  lemma SetOrdered(m: Entries, max: int, key: string, entry: CacheEntry, log: seq<string>)
    requires Unique(m) && OrderedByLast(m, log)
    ensures Unique(Renew(m, key, entry)) && OrderedByLast(Renew(m, key, entry), log + [key])
    ensures Unique(Store(m, max, key, entry)) && OrderedByLast(Store(m, max, key, entry), log + [key])
  {
    hide OrderedByLast;
    var r := Renew(m, key, entry);
    DeleteOrdered(m, key, log);
    RenewIsPut(m, key, entry);
    UseIsLast(Delete(m, key), log, key, entry);
    WithoutOrdered(r, 0, log + [key]);
    assert Without(r, 0) == r[1..];
  }

  /** A hit leaves the order of last writes as it is if and only if it hits the newest entry. */
  lemma HitOrdered(m: Entries, key: string, now: int, log: seq<string>)
    requires Unique(m) && OrderedByLast(m, log) && Lookup(m, key, now).1.Some?
    ensures OrderedByLast(Lookup(m, key, now).0, log) <==> m[|m| - 1].key == key
  {
    var (i, last) := (Find(m, key), |m| - 1);
    var r := Lookup(m, key, now).0;
    assert r == Without(m, i) + [m[i]];
    if i == last {
      assert r == m;
    } else {
      FindIs(m, last);
      assert r[last - 1] == m[last] && r[last] == m[i];
    }
  }

  /** Map order is the order of last writes until an entry that is not the newest is hit: that
      event, and no other, breaks it. */
  lemma OnlyHitsBreakWriteOrder(m: Entries, max: int, writes: seq<string>, e: Event)
    requires Unique(m) && OrderedByLast(m, writes)
    ensures Unique(Step(m, max, e))
    ensures OrderedByLast(Step(m, max, e), Written(writes, e)) <==> !MovesUp(m, e)
  {
    hide OrderedByLast;
    match e {
      case Gets(key, now) =>
        DeleteOrdered(m, key, writes);
        if Lookup(m, key, now).1.Some? {
          HitOrdered(m, key, now, writes);
          RenewIsPut(m, key, Get(m, key).value);
        }
      case Sets(key, entry) => SetOrdered(m, max, key, entry, writes);
      case Deletes(key) => DeleteOrdered(m, key, writes);
      case Sweeps(now) =>
        var at := KeepIsSubOrder(m, Unexpired(now));
        SubOrderOrdered(Keep(m, Unexpired(now)), m, at, writes);
    }
  }

  predicate NeverMovesUp(m: Entries, max: int, events: seq<Event>)
    decreases |events|
  {
    events == [] || (!MovesUp(m, events[0]) && NeverMovesUp(Step(m, max, events[0]), max, events[1..]))
  }

  /** While only the newest entry is hit, what a set drops past the cap is the least recently
      written entry: every one that stays was written after it. */
  lemma {:induction false} DropsLeastWritten(m: Entries, max: int, writes: seq<string>, events: seq<Event>,
                                             key: string, entry: CacheEntry, dropped: string)
    requires Unique(m) && OrderedByLast(m, writes) && NeverMovesUp(m, max, events)
    ensures var (m1, log) := (After(m, max, events), WrittenAfter(writes, events) + [key]);
            var m2 := Store(m1, max, key, entry);
            && OrderedByLast(m2, log)
            && (Has(m1, dropped) && dropped != key && !Has(m2, dropped) ==>
                  forall i :: 0 <= i < |m2| ==> LastPlace(log, dropped) < LastPlace(log, m2[i].key))
    decreases |events|
  {
    hide LastPlace, OrderedByLast;
    if events != [] {
      OnlyHitsBreakWriteOrder(m, max, writes, events[0]);
      DropsLeastWritten(Step(m, max, events[0]), max, Written(writes, events[0]), events[1..], key, entry, dropped);
    } else {
      SetOrdered(m, max, key, entry, writes);
      if Has(m, dropped) && dropped != key && !Has(Store(m, max, key, entry), dropped) {
        var r := Renew(m, key, entry);
        RenewKeepsOthers(m, key, entry, dropped);
        OldestIsDropped(r, dropped);
        FirstIsLeast(r, writes + [key]);
      }
    }
  }

  lemma FirstIsLeast(r: Entries, log: seq<string>)
    requires r != [] && OrderedByLast(r, log)
    ensures forall i :: 0 <= i < |r[1..]| ==> LastPlace(log, r[0].key) < LastPlace(log, r[1..][i].key)
  {
    assert forall i :: 0 <= i < |r[1..]| ==> r[1..][i] == r[i + 1];
  }

  /** With one hit in between it need not be: in a store for two, `b` is written after `a`, and
      then a hit on `a` makes the next set drop `b` and keep the older write. */
  lemma HitSavesTheOlderWrite(empty: Entries, a: string, b: string, c: string,
                              ea: CacheEntry, eb: CacheEntry, ec: CacheEntry, now: int)
    requires empty == [] && a != b && b != c && a != c && now < ea.expiresAt
    ensures var two := After(empty, 2, [Sets(a, ea), Sets(b, eb)]);
            && two == [Entry(a, ea), Entry(b, eb)] && MovesUp(two, Gets(a, now))
            && Step(Step(two, 2, Gets(a, now)), 2, Sets(c, ec)) == [Entry(a, ea), Entry(c, ec)]
    ensures var writes := WrittenAfter([], [Sets(a, ea), Sets(b, eb), Gets(a, now)]);
            LastPlace(writes, a) < LastPlace(writes, b)
  {
    var (x, y) := (Entry(a, ea), Entry(b, eb));
    var (e1, e2, hit) := (Sets(a, ea), Sets(b, eb), Gets(a, now));
    assert Step(empty, 2, e1) == [x];
    assert Step([x], 2, e2) == [x, y];
    AfterTwo(empty, 2, e1, e2);
    HitThenSet(x, y, Entry(c, ec), now);
    WrittenTwice(e1, e2, hit);
    LastPlaceSnoc([a], b, a);
    LastPlaceSnoc([a], b, b);
  }

  lemma AfterTwo(m: Entries, max: int, e: Event, f: Event)
    ensures After(m, max, [e, f]) == Step(Step(m, max, e), max, f)
  {
    hide Step;
    var (once, twice) := (Step(m, max, e), Step(Step(m, max, e), max, f));
    assert [e, f][1..] == [f] && [f][1..] == [];
    assert After(m, max, [e, f]) == After(once, max, [f]);
    assert After(once, max, [f]) == After(twice, max, []);
  }

  lemma WrittenTwice(e: Event, f: Event, hit: Event)
    requires e.Sets? && f.Sets? && hit.Gets?
    ensures WrittenAfter([], [e, f, hit]) == [e.key] + [f.key]
  {
    assert [e, f, hit][1..] == [f, hit] && [f, hit][1..] == [hit] && [hit][1..] == [];
    assert Written([], e) == [e.key];
    assert WrittenAfter([], [e, f, hit]) == WrittenAfter([e.key], [f, hit]);
    assert WrittenAfter([e.key], [f, hit]) == WrittenAfter([e.key] + [f.key], [hit]);
    assert WrittenAfter([e.key] + [f.key], [hit]) == WrittenAfter([e.key] + [f.key], []);
  }

  lemma HitThenSet(x: Entry<string, CacheEntry>, y: Entry<string, CacheEntry>, z: Entry<string, CacheEntry>, now: int)
    requires x.key != y.key && y.key != z.key && x.key != z.key && now < x.value.expiresAt
    ensures MovesUp([x, y], Gets(x.key, now))
    ensures Step(Step([x, y], 2, Gets(x.key, now)), 2, Sets(z.key, z.value)) == [x, z]
  {
    assert Find([x, y], x.key) == 0 && Without([x, y], 0) == [y];
    assert Step([x, y], 2, Gets(x.key, now)) == [y, x];
    HasIffSome([y, x], z.key);
    assert Renew([y, x], z.key, z.value) == [y, x, z];
    assert [y, x, z][1..] == [x, z];
  }
}
