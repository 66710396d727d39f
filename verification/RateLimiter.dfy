/** plugins/ratelimiter/src/store.ts: the fixed-window counter, its table, and the bound it
    puts on admitted hits. */
module RateLimiter {
  import opened Wrappers
  import opened OrderedMap

  datatype Bucket = Bucket(count: nat, resetAt: int)

  type Buckets = seq<Entry<string, Bucket>>

  /** What a hit is answered with: its place in its window, and where that window ends. */
  datatype StoreHit = StoreHit(count: nat, resetAt: int)

  function Unexpired(now: int): Bucket -> bool {
    (b: Bucket) => now < b.resetAt
  }

  function Evict(m: Buckets, now: int): Buckets {
    Keep(m, Unexpired(now))
  }

  /** At capacity: expired first, then oldest-inserted. */
  function CapacityEvict(m: Buckets, maxKeys: int, now: int): Buckets {
    Fit(Evict(m, now), maxKeys)
  }

  function Hit(m: Buckets, maxKeys: int, key: string, windowMs: int, now: int): (Buckets, StoreHit) {
    var bucket := Get(m, key);
    if bucket.None? || now >= bucket.value.resetAt then
      var room := if |m| >= maxKeys then CapacityEvict(m, maxKeys, now) else m;
      (Put(room, key, Bucket(1, now + windowMs)), StoreHit(1, now + windowMs))
    else
      var b := Bucket(bucket.value.count + 1, bucket.value.resetAt);
      (Put(m, key, b), StoreHit(b.count, b.resetAt))
  }

  class MemoryStore {
    const maxKeys: int
    var buckets: Buckets

    constructor (maxKeys: int)
      ensures this.maxKeys == maxKeys && buckets == []
    {
      this.maxKeys, buckets := maxKeys, [];
    }

    method DoEvict(now: int)
      modifies this
      ensures buckets == Evict(old(buckets), now)
    {
      hide Keep;
      ghost var before := buckets;
      KeepNothing(before, Unexpired(now));
      var i := 0;
      ghost var seen := 0;
      while i < |buckets|
        invariant i <= |buckets| && seen <= |before|
        invariant buckets[..i] == Evict(before[..seen], now) && buckets[i..] == before[seen..]
        decreases |buckets| - i
      {
        KeepNext(before, seen, Unexpired(now));
        assert buckets[i] == before[seen];
        ghost var (kept, rest) := (buckets[..i], buckets[i + 1..]);
        assert rest == before[seen + 1..];
        if now >= buckets[i].value.resetAt {
          buckets := buckets[..i] + buckets[i + 1..];
          assert buckets[..i] == kept && buckets[i..] == rest;
        } else {
          assert buckets[..i + 1] == kept + [buckets[i]];
          i := i + 1;
        }
        seen := seen + 1;
      }
      assert before[..seen] == before && buckets[..i] == buckets;
    }

    method DoCapacityEvict(now: int)
      modifies this
      ensures buckets == CapacityEvict(old(buckets), maxKeys, now)
    {
      DoEvict(now);
      while |buckets| >= maxKeys
        invariant Fit(buckets, maxKeys) == CapacityEvict(old(buckets), maxKeys, now)
        decreases |buckets|
      {
        if buckets == [] {
          break;
        }
        buckets := buckets[1..];
      }
    }

    method DoHit(key: string, windowMs: int, now: int) returns (hit: StoreHit)
      modifies this
      ensures (buckets, hit) == Hit(old(buckets), maxKeys, key, windowMs, now)
    {
      var bucket := Get(buckets, key);
      if bucket.None? || now >= bucket.value.resetAt {
        if |buckets| >= maxKeys {
          DoCapacityEvict(now);
        }
        var started := Bucket(1, now + windowMs);
        buckets := Put(buckets, key, started);
        return StoreHit(started.count, started.resetAt);
      }
      var more := Bucket(bucket.value.count + 1, bucket.value.resetAt);
      buckets := Put(buckets, key, more);
      return StoreHit(more.count, more.resetAt);
    }

    method Reset(key: string)
      modifies this
      ensures buckets == Delete(old(buckets), key)
    {
      buckets := Delete(buckets, key);
    }
  }

  // ----- Whole runs -----

  datatype Event = Hits(key: string, now: int) | Sweeps(now: int) | Resets(key: string, now: int)

  function Step(m: Buckets, maxKeys: int, windowMs: int, e: Event): Buckets {
    match e
    case Hits(key, now) => Hit(m, maxKeys, key, windowMs, now).0
    case Sweeps(now) => Evict(m, now)
    case Resets(key, now) => Delete(m, key)
  }

  /** What a hit does to the table: its own key gets the next window, every other key keeps its
      bucket or is dropped for room, and the table stays within its ceiling. */
  lemma HitIsExact(m: Buckets, maxKeys: int, key: string, windowMs: int, now: int, other: string)
    requires Unique(m)
    ensures var m1 := Hit(m, maxKeys, key, windowMs, now).0;
            && Unique(m1) && Get(m1, key) == Some(Window(Get(m, key), windowMs, now))
            && (other != key ==> Get(m1, other) == Get(m, other) || Get(m1, other) == None)
            && (|m| <= Max(1, maxKeys) ==> |m1| <= Max(1, maxKeys))
  {
    var bucket := Get(m, key);
    if bucket.None? || now >= bucket.value.resetAt {
      KeepIsExact(m, Unexpired(now), other);
      FitIsExact(Evict(m, now), maxKeys, other);
      var room := if |m| >= maxKeys then CapacityEvict(m, maxKeys, now) else m;
      PutIsExact(room, key, Bucket(1, now + windowMs));
    } else {
      PutIsExact(m, key, Window(bucket, windowMs, now));
    }
  }

  /** Which keys a new window costs at the ceiling: every expired one, and of the live ones those
      with `maxKeys` or more live ones from them on, that is, the oldest. */
  lemma ExpiredThenOldestGo(m: Buckets, maxKeys: int, key: string, windowMs: int, now: int, i: nat)
    requires Unique(m) && i < |m| && m[i].key != key
    requires |m| >= maxKeys && (Get(m, key).None? || now >= Get(m, key).value.resetAt)
    ensures Has(Hit(m, maxKeys, key, windowMs, now).0, m[i].key)
       <==> now < m[i].value.resetAt && |Evict(m[i..], now)| < maxKeys
  {
    hide Keep, Fit;
    EvictedIffOld(m, Unexpired(now), maxKeys, i);
    KeepUnique(m, Unexpired(now));
    FitIsExact(Evict(m, now), maxKeys, key);
    PutIsExact(CapacityEvict(m, maxKeys, now), key, Bucket(1, now + windowMs));
    assert Get(Put(CapacityEvict(m, maxKeys, now), key, Bucket(1, now + windowMs)), m[i].key)
        == Get(CapacityEvict(m, maxKeys, now), m[i].key);
  }

  /** A hit is answered with the count and the end of the window it falls in: of the one that is
      running, which it does not prolong, or of a new one that ends `windowMs` from now. */
  lemma HitAnswersItsWindow(m: Buckets, maxKeys: int, key: string, windowMs: int, now: int)
    requires Unique(m)
    ensures var ((m1, hit), bucket) := (Hit(m, maxKeys, key, windowMs, now), Get(m, key));
            && (bucket.Some? && now < bucket.value.resetAt ==>
                  hit == StoreHit(bucket.value.count + 1, bucket.value.resetAt))
            && (bucket.None? || now >= bucket.value.resetAt ==> hit == StoreHit(1, now + windowMs))
            && Get(m1, key) == Some(Bucket(hit.count, hit.resetAt))
  {
    HitIsExact(m, maxKeys, key, windowMs, now, key);
  }

  /** The sweep forgets exactly the windows that have ended. */
  lemma SweepIsExact(m: Buckets, maxKeys: int, windowMs: int, now: int, key: string)
    requires Unique(m)
    ensures var bucket := Get(m, key);
            Get(Step(m, maxKeys, windowMs, Sweeps(now)), key)
            == if bucket.Some? && now < bucket.value.resetAt then bucket else None
  {
    KeepIsExact(m, Unexpired(now), key);
  }

  lemma StepKeepsUnique(m: Buckets, maxKeys: int, windowMs: int, e: Event)
    requires Unique(m)
    ensures Unique(Step(m, maxKeys, windowMs, e))
    ensures |m| <= Max(1, maxKeys) ==> |Step(m, maxKeys, windowMs, e)| <= Max(1, maxKeys)
  {
    match e {
      case Hits(key, now) => HitIsExact(m, maxKeys, key, windowMs, now, key);
      case Sweeps(now) => KeepUnique(m, Unexpired(now));
      case Resets(key, now) => DeleteIsExact(m, key);
    }
  }

  function Max(a: int, b: int): int {
    if a >= b then a else b
  }

  function After(m: Buckets, maxKeys: int, windowMs: int, events: seq<Event>): Buckets
    decreases |events|
  {
    if events == [] then m else After(Step(m, maxKeys, windowMs, events[0]), maxKeys, windowMs, events[1..])
  }

  /** The table never holds more than max(1, maxKeys) keys. */
  lemma {:induction false} TableIsBounded(m: Buckets, maxKeys: int, windowMs: int, events: seq<Event>)
    requires Unique(m) && |m| <= Max(1, maxKeys)
    ensures Unique(After(m, maxKeys, windowMs, events)) && |After(m, maxKeys, windowMs, events)| <= Max(1, maxKeys)
    decreases |events|
  {
    if events != [] {
      StepKeepsUnique(m, maxKeys, windowMs, events[0]);
      TableIsBounded(Step(m, maxKeys, windowMs, events[0]), maxKeys, windowMs, events[1..]);
    }
  }

  // ----- One key, by itself -----

  /** The window of one key after a hit: a hit outside the window starts a new one. */
  function Window(w: Option<Bucket>, windowMs: int, now: int): Bucket {
    if w.None? || now >= w.value.resetAt then Bucket(1, now + windowMs)
    else Bucket(w.value.count + 1, w.value.resetAt)
  }

  /** The counts a key's hits should be answered with: the position of each in its window. */
  function Positions(w: Option<Bucket>, windowMs: int, hits: seq<int>): seq<nat>
    decreases |hits|
  {
    if hits == [] then []
    else
      var w1 := Window(w, windowMs, hits[0]);
      [w1.count] + Positions(Some(w1), windowMs, hits[1..])
  }

  function HitsOf(key: string, events: seq<Event>): seq<int> {
    if events == [] then []
    else (if events[0].Hits? && events[0].key == key then [events[0].now] else []) + HitsOf(key, events[1..])
  }

  /** The counts the store returns for `key` over a run. */
  function CountsOf(key: string, m: Buckets, maxKeys: int, windowMs: int, events: seq<Event>): seq<nat>
    decreases |events|
  {
    if events == [] then []
    else
      (if events[0].Hits? && events[0].key == key
       then [Hit(m, maxKeys, key, windowMs, events[0].now).1.count] else [])
      + CountsOf(key, Step(m, maxKeys, windowMs, events[0]), maxKeys, windowMs, events[1..])
  }

  /** The key is neither reset nor dropped, while its window runs, to make room for another. */
  ghost predicate KeyUndisturbed(key: string, m: Buckets, maxKeys: int, windowMs: int, events: seq<Event>)
    decreases |events|
  {
    events == [] ||
    (var e := events[0];
     var m1 := Step(m, maxKeys, windowMs, e);
     && !(e.Resets? && e.key == key)
     && (Get(m, key).Some? && e.now < Get(m, key).value.resetAt ==> Get(m1, key).Some?)
     && KeyUndisturbed(key, m1, maxKeys, windowMs, events[1..]))
  }

  ghost predicate Monotone(now: int, events: seq<Event>)
    decreases |events|
  {
    events == [] || (now <= events[0].now && Monotone(events[0].now, events[1..]))
  }

  /** The stored bucket is the reference window, up to what has expired by `now`. */
  ghost predicate Tracks(m: Buckets, key: string, w: Option<Bucket>, now: int) {
    if w.Some? && now < w.value.resetAt then Get(m, key) == w
    else Get(m, key).None? || now >= Get(m, key).value.resetAt
  }

  lemma OthersTrack(m: Buckets, key: string, w: Option<Bucket>, now: int, maxKeys: int, windowMs: int, e: Event)
    requires Unique(m) && Tracks(m, key, w, now) && now <= e.now
    requires !e.Sweeps? ==> e.key != key
    requires Get(m, key).Some? && e.now < Get(m, key).value.resetAt ==> Get(Step(m, maxKeys, windowMs, e), key).Some?
    ensures Tracks(Step(m, maxKeys, windowMs, e), key, w, e.now)
  {
    match e {
      case Hits(other, t) => HitIsExact(m, maxKeys, other, windowMs, t, key);
      case Sweeps(t) => KeepIsExact(m, Unexpired(t), key);
      case Resets(other, t) => DeleteIsExact(m, other);
    }
  }

  lemma HitTracks(m: Buckets, key: string, w: Option<Bucket>, now: int, maxKeys: int, windowMs: int, t: int)
    requires Unique(m) && Tracks(m, key, w, now) && now <= t
    ensures Hit(m, maxKeys, key, windowMs, t).1.count == Window(w, windowMs, t).count
    ensures Tracks(Hit(m, maxKeys, key, windowMs, t).0, key, Some(Window(w, windowMs, t)), t)
  {
    HitIsExact(m, maxKeys, key, windowMs, t, key);
  }

  /** Each returned count is the hit's position in its window, whatever other keys do and
      whenever sweeps run. */
  lemma {:induction false} CountsArePositions(key: string, m: Buckets, w: Option<Bucket>, now: int, maxKeys: int,
                                              windowMs: int, events: seq<Event>)
    requires Unique(m) && Tracks(m, key, w, now) && Monotone(now, events)
    requires KeyUndisturbed(key, m, maxKeys, windowMs, events)
    ensures CountsOf(key, m, maxKeys, windowMs, events) == Positions(w, windowMs, HitsOf(key, events))
    decreases |events|
  {
    if events != [] {
      var e := events[0];
      var m1 := Step(m, maxKeys, windowMs, e);
      StepKeepsUnique(m, maxKeys, windowMs, e);
      if e.Hits? && e.key == key {
        HitTracks(m, key, w, now, maxKeys, windowMs, e.now);
        CountsArePositions(key, m1, Some(Window(w, windowMs, e.now)), e.now, maxKeys, windowMs, events[1..]);
        var rest := HitsOf(key, events[1..]);
        assert ([e.now] + rest)[1..] == rest;
      } else {
        OthersTrack(m, key, w, now, maxKeys, windowMs, e);
        CountsArePositions(key, m1, w, e.now, maxKeys, windowMs, events[1..]);
        assert [] + HitsOf(key, events[1..]) == HitsOf(key, events[1..]);
      }
    }
  }

  // ----- The bound on admitted hits -----

  ghost predicate Rising(now: int, hits: seq<int>)
    decreases |hits|
  {
    hits == [] || (now <= hits[0] && Rising(hits[0], hits[1..]))
  }

  /** Hits with a count within `max` in the half-open interval [from, until). */
  function AdmittedWithin(w: Option<Bucket>, windowMs: int, max: nat, hits: seq<int>, from: int, until: int): nat
    decreases |hits|
  {
    if hits == [] then 0
    else
      var w1 := Window(w, windowMs, hits[0]);
      (if from <= hits[0] < until && w1.count <= max then 1 else 0)
      + AdmittedWithin(Some(w1), windowMs, max, hits[1..], from, until)
  }

  lemma {:induction false} NoneAfter(w: Option<Bucket>, windowMs: int, max: nat, hits: seq<int>, now: int, from: int,
                                     until: int)
    requires Rising(now, hits) && now >= until
    ensures AdmittedWithin(w, windowMs, max, hits, from, until) == 0
    decreases |hits|
  {
    if hits != [] {
      NoneAfter(Some(Window(w, windowMs, hits[0])), windowMs, max, hits[1..], hits[0], from, until);
    }
  }

  /** What can still be admitted in [from, from + windowMs) from a window in progress. */
  function Budget(w: Option<Bucket>, windowMs: int, max: nat, from: int): int {
    if max == 0 then 0
    else if w.None? || w.value.resetAt < from then 2 * max - 1
    else
      var left := Max(0, max - w.value.count);
      if w.value.resetAt >= from + windowMs then left else left + max
  }

  lemma {:induction false} WithinBudget(w: Option<Bucket>, windowMs: int, max: nat, hits: seq<int>, now: int, from: int)
    requires Rising(now, hits) && (w.Some? ==> w.value.count >= 1)
    ensures AdmittedWithin(w, windowMs, max, hits, from, from + windowMs) <= Budget(w, windowMs, max, from)
    decreases |hits|
  {
    if hits != [] {
      var t := hits[0];
      var w1 := Window(w, windowMs, t);
      WithinBudget(Some(w1), windowMs, max, hits[1..], t, from);
      if t >= from + windowMs {
        NoneAfter(w, windowMs, max, hits, t, from, from + windowMs);
      }
    }
  }

  /** At most 2 * max - 1 hits are admitted in any half-open interval as long as the window (and
      none when max is 0): one less than twice the limit. */
  lemma AtMostTwiceMax(windowMs: int, max: nat, hits: seq<int>, now: int, from: int)
    requires Rising(now, hits)
    ensures AdmittedWithin(None, windowMs, max, hits, from, from + windowMs) <= Max(0, 2 * max - 1)
  {
    WithinBudget(None, windowMs, max, hits, now, from);
  }

  /** Hits on `key` that the store answers with a count within `max`, in [from, until). */
  function StoreAdmits(key: string, m: Buckets, maxKeys: int, windowMs: int, events: seq<Event>, max: nat, from: int,
                       until: int): nat
    decreases |events|
  {
    if events == [] then 0
    else
      var e := events[0];
      (if e.Hits? && e.key == key && from <= e.now < until
          && Hit(m, maxKeys, key, windowMs, e.now).1.count <= max then 1 else 0)
      + StoreAdmits(key, Step(m, maxKeys, windowMs, e), maxKeys, windowMs, events[1..], max, from, until)
  }

  lemma {:induction false} StoreAdmitsAsWindow(key: string, m: Buckets, w: Option<Bucket>, now: int, maxKeys: int,
                                               windowMs: int, events: seq<Event>, max: nat, from: int, until: int)
    requires Unique(m) && Tracks(m, key, w, now) && Monotone(now, events)
    requires KeyUndisturbed(key, m, maxKeys, windowMs, events)
    ensures StoreAdmits(key, m, maxKeys, windowMs, events, max, from, until)
         == AdmittedWithin(w, windowMs, max, HitsOf(key, events), from, until)
    ensures Rising(now, HitsOf(key, events))
    decreases |events|
  {
    hide Window, Unique, Tracks;
    if events != [] {
      var e := events[0];
      var m1 := Step(m, maxKeys, windowMs, e);
      StepKeepsUnique(m, maxKeys, windowMs, e);
      if e.Hits? && e.key == key {
        HitTracks(m, key, w, now, maxKeys, windowMs, e.now);
        StoreAdmitsAsWindow(key, m1, Some(Window(w, windowMs, e.now)), e.now, maxKeys, windowMs, events[1..], max,
                            from, until);
        var rest := HitsOf(key, events[1..]);
        assert ([e.now] + rest)[1..] == rest;
      } else {
        OthersTrack(m, key, w, now, maxKeys, windowMs, e);
        StoreAdmitsAsWindow(key, m1, w, e.now, maxKeys, windowMs, events[1..], max, from, until);
        assert [] + HitsOf(key, events[1..]) == HitsOf(key, events[1..]);
        RisingEarlier(HitsOf(key, events[1..]), now, e.now);
      }
    }
  }

  lemma RisingEarlier(hits: seq<int>, earlier: int, now: int)
    requires Rising(now, hits) && earlier <= now
    ensures Rising(earlier, hits)
  {
  }

  /** The fixed-window bound on the store itself: from an empty store, whatever other keys do,
      at most 2 * max - 1 hits on an undisturbed key are admitted in any interval of one window. */
  lemma StoreAdmitsAtMostTwiceMax(key: string, maxKeys: int, windowMs: int, events: seq<Event>, start: int, max: nat,
                                  from: int)
    requires Monotone(start, events) && KeyUndisturbed(key, [], maxKeys, windowMs, events)
    ensures StoreAdmits(key, [], maxKeys, windowMs, events, max, from, from + windowMs) <= Max(0, 2 * max - 1)
  {
    hide KeyUndisturbed, StoreAdmits, AdmittedWithin, HitsOf, Monotone, Rising;
    var empty: Buckets := [];
    StoreAdmitsAsWindow(key, empty, None, start, maxKeys, windowMs, events, max, from, from + windowMs);
    AtMostTwiceMax(windowMs, max, HitsOf(key, events), start, from);
  }

  // ----- The bound is met -----

  function Repeat(t: int, n: nat): seq<int> {
    if n == 0 then [] else [t] + Repeat(t, n - 1)
  }

  lemma {:induction false} RepeatAdmits(w: Bucket, windowMs: int, max: nat, t: int, n: nat, rest: seq<int>, from: int,
                                        until: int)
    requires t < w.resetAt && from <= t < until && w.count + n <= max
    ensures AdmittedWithin(Some(w), windowMs, max, Repeat(t, n) + rest, from, until)
         == n + AdmittedWithin(Some(Bucket(w.count + n, w.resetAt)), windowMs, max, rest, from, until)
    decreases n
  {
    if n == 0 {
      assert Repeat(t, n) + rest == rest;
    } else {
      var hits := Repeat(t, n) + rest;
      assert hits[0] == t && hits[1..] == Repeat(t, n - 1) + rest;
      RepeatAdmits(Bucket(w.count + 1, w.resetAt), windowMs, max, t, n - 1, rest, from, until);
    }
  }

  /** One hit, a burst just inside the interval, and another at the moment the window turns. */
  function WorstRun(windowMs: int, max: nat): seq<int>
    requires max >= 1
  {
    [0] + (Repeat(1, max - 1) + ([windowMs] + (Repeat(windowMs, max - 1) + [])))
  }

  lemma {:induction false} RepeatRises(t: int, n: nat, rest: seq<int>)
    requires Rising(t, rest)
    ensures Rising(t, Repeat(t, n) + rest)
  {
    if n == 0 {
      assert Repeat(t, n) + rest == rest;
    } else {
      RepeatRises(t, n - 1, rest);
      assert (Repeat(t, n) + rest)[1..] == Repeat(t, n - 1) + rest;
    }
  }

  /** The later burst: a window that starts at `t` admits all `max` of its hits. */
  lemma LateBurst(w: Bucket, windowMs: int, max: nat, t: int, from: int, until: int)
    requires max >= 1 && w.resetAt <= t < t + windowMs && from <= t < until
    ensures AdmittedWithin(Some(w), windowMs, max, [t] + (Repeat(t, max - 1) + []), from, until) == max
  {
    var hits := [t] + (Repeat(t, max - 1) + []);
    assert hits[0] == t && hits[1..] == Repeat(t, max - 1) + [];
    RepeatAdmits(Bucket(1, t + windowMs), windowMs, max, t, max - 1, [], from, until);
  }

  /** Both bursts, after the first hit at `start` has begun a window. */
  lemma BothBursts(windowMs: int, max: nat, start: int, t: int, until: int)
    requires max >= 1 && windowMs >= 2 && t == start + 1 && until == t + windowMs
    ensures var late := [start + windowMs] + (Repeat(start + windowMs, max - 1) + []);
            AdmittedWithin(Some(Bucket(1, start + windowMs)), windowMs, max, Repeat(t, max - 1) + late, t, until)
            == 2 * max - 1
  {
    var w := Bucket(1, start + windowMs);
    var late := [start + windowMs] + (Repeat(start + windowMs, max - 1) + []);
    RepeatAdmits(w, windowMs, max, t, max - 1, late, t, until);
    LateBurst(Bucket(max, start + windowMs), windowMs, max, start + windowMs, t, until);
  }

  lemma WorstRunRises(windowMs: int, max: nat)
    requires windowMs >= 2 && max >= 1
    ensures Rising(0, WorstRun(windowMs, max))
  {
    hide Repeat;
    var late := [windowMs] + (Repeat(windowMs, max - 1) + []);
    assert WorstRun(windowMs, max)[1..] == Repeat(1, max - 1) + late;
    assert late[1..] == Repeat(windowMs, max - 1) + [];
    RepeatRises(windowMs, max - 1, []);
    RepeatRises(1, max - 1, late);
    RisingEarlier(Repeat(1, max - 1) + late, 0, 1);
  }

  lemma FirstStartsWindow(windowMs: int, max: nat, hits: seq<int>, from: int, until: int)
    requires hits != [] && !(from <= hits[0] < until)
    ensures AdmittedWithin(None, windowMs, max, hits, from, until)
         == AdmittedWithin(Some(Bucket(1, hits[0] + windowMs)), windowMs, max, hits[1..], from, until)
  {
  }

  lemma TwiceMaxLessOneIsMet(windowMs: int, max: nat)
    requires windowMs >= 2 && max >= 1
    ensures Rising(0, WorstRun(windowMs, max))
    ensures AdmittedWithin(None, windowMs, max, WorstRun(windowMs, max), 1, 1 + windowMs) == 2 * max - 1
  {
    hide AdmittedWithin, Repeat, Rising;
    WorstRunRises(windowMs, max);
    var hits := WorstRun(windowMs, max);
    FirstStartsWindow(windowMs, max, hits, 1, 1 + windowMs);
    assert hits[1..] == Repeat(1, max - 1) + ([0 + windowMs] + (Repeat(0 + windowMs, max - 1) + []));
    BothBursts(windowMs, max, 0, 1, 1 + windowMs);
  }

  // ----- The bound is met by the store -----

  function HitEvents(key: string, hits: seq<int>): seq<Event> {
    if hits == [] then [] else [Hits(key, hits[0])] + HitEvents(key, hits[1..])
  }

  /** A key that is alone in the run is never disturbed, even in a store for one key. */
  lemma {:induction false} AloneIsUndisturbed(key: string, m: Buckets, maxKeys: int, windowMs: int, hits: seq<int>,
                                              now: int)
    requires Unique(m) && Rising(now, hits)
    ensures KeyUndisturbed(key, m, maxKeys, windowMs, HitEvents(key, hits))
    ensures Monotone(now, HitEvents(key, hits)) && HitsOf(key, HitEvents(key, hits)) == hits
    decreases |hits|
  {
    hide Hit;
    if hits != [] {
      var events := HitEvents(key, hits);
      assert events[0] == Hits(key, hits[0]) && events[1..] == HitEvents(key, hits[1..]);
      HitIsExact(m, maxKeys, key, windowMs, hits[0], key);
      AloneIsUndisturbed(key, Hit(m, maxKeys, key, windowMs, hits[0]).0, maxKeys, windowMs, hits[1..], hits[0]);
      assert [hits[0]] + hits[1..] == hits;
    }
  }

  /** From an empty store, whatever its ceiling, a run of one key's hits in time order of which
      exactly 2 * max - 1 are admitted in one window length. */
  lemma StoreMeetsTheBound(key: string, empty: Buckets, maxKeys: int, windowMs: int, max: nat, events: seq<Event>)
    requires windowMs >= 2 && max >= 1 && empty == [] && events == HitEvents(key, WorstRun(windowMs, max))
    ensures Monotone(0, events) && KeyUndisturbed(key, empty, maxKeys, windowMs, events)
    ensures StoreAdmits(key, empty, maxKeys, windowMs, events, max, 1, 1 + windowMs) == 2 * max - 1
  {
    hide StoreAdmits, AdmittedWithin, WorstRun, HitEvents, KeyUndisturbed, Monotone, HitsOf;
    TwiceMaxLessOneIsMet(windowMs, max);
    AloneIsUndisturbed(key, empty, maxKeys, windowMs, WorstRun(windowMs, max), 0);
    StoreAdmitsAsWindow(key, empty, None, 0, maxKeys, windowMs, events, max, 1, 1 + windowMs);
  }

  // ----- What eviction and resets do to a count -----

  /** The hits a bucket stands for. */
  function Counted(bucket: Option<Bucket>): nat {
    if bucket.None? then 0 else bucket.value.count
  }

  /** All of `events` happen by `until`. */
  ghost predicate By(until: int, events: seq<Event>) {
    forall i :: 0 <= i < |events| ==> events[i].now <= until
  }

  lemma ByRest(until: int, events: seq<Event>)
    requires By(until, events) && events != []
    ensures events[0].now <= until && By(until, events[1..])
  {
  }

  /** One event adds at most itself to what the key's bucket counts. */
  lemma StepCounts(key: string, m: Buckets, maxKeys: int, windowMs: int, e: Event)
    requires Unique(m)
    ensures Counted(Get(Step(m, maxKeys, windowMs, e), key)) <= Counted(Get(m, key)) + |HitsOf(key, [e])|
  {
    match e {
      case Hits(other, now) => HitIsExact(m, maxKeys, other, windowMs, now, key);
      case Sweeps(now) => KeepIsExact(m, Unexpired(now), key);
      case Resets(other, now) => DeleteIsExact(m, other);
    }
  }

  lemma HitsOfFirst(key: string, events: seq<Event>)
    requires events != []
    ensures |HitsOf(key, events)| == |HitsOf(key, [events[0]])| + |HitsOf(key, events[1..])|
  {
    assert [events[0]][1..] == [];
  }

  /** Nothing makes a hit count for more than what the bucket held and the hits since. */
  lemma {:induction false} CountIsAtMost(key: string, m: Buckets, maxKeys: int, windowMs: int, events: seq<Event>,
                                         t: int)
    requires Unique(m)
    ensures Hit(After(m, maxKeys, windowMs, events), maxKeys, key, windowMs, t).1.count
         <= Counted(Get(m, key)) + |HitsOf(key, events)| + 1
    decreases |events|
  {
    hide Step, HitsOf;
    if events != [] {
      HitsOfFirst(key, events);
      StepCounts(key, m, maxKeys, windowMs, events[0]);
      StepKeepsUnique(m, maxKeys, windowMs, events[0]);
      CountIsAtMost(key, Step(m, maxKeys, windowMs, events[0]), maxKeys, windowMs, events[1..], t);
    }
  }

  /** An event while the window of `key` runs either drops its bucket or counts exactly what it adds. */
  lemma RunningStep(key: string, m: Buckets, w: Bucket, maxKeys: int, windowMs: int, e: Event)
    requires Unique(m) && Get(m, key) == Some(w) && e.now < w.resetAt
    ensures var after := Get(Step(m, maxKeys, windowMs, e), key);
            && (e.Resets? && e.key == key ==> after == None)
            && (after.Some? ==> after.value == Bucket(w.count + |HitsOf(key, [e])|, w.resetAt))
  {
    assert [e][1..] == [];
    match e {
      case Hits(other, now) => HitIsExact(m, maxKeys, other, windowMs, now, key);
      case Sweeps(now) => KeepIsExact(m, Unexpired(now), key);
      case Resets(other, now) => DeleteIsExact(m, other);
    }
  }

  /** For a key whose window is running: a later hit in that window is counted at its position if
      and only if the bucket was neither reset nor dropped in between. */
  lemma {:induction false} PositionIffUndisturbed(key: string, m: Buckets, w: Bucket, maxKeys: int, windowMs: int,
                                                  events: seq<Event>, t: int)
    requires Unique(m) && Get(m, key) == Some(w) && w.count >= 1 && By(t, events) && t < w.resetAt
    ensures Hit(After(m, maxKeys, windowMs, events), maxKeys, key, windowMs, t).1.count
            == w.count + |HitsOf(key, events)| + 1
       <==> KeyUndisturbed(key, m, maxKeys, windowMs, events)
    decreases |events|
  {
    assert HitsOf(key, []) == [];
    hide Step, HitsOf;
    if events != [] {
      var e := events[0];
      var m1 := Step(m, maxKeys, windowMs, e);
      ByRest(t, events);
      HitsOfFirst(key, events);
      RunningStep(key, m, w, maxKeys, windowMs, e);
      StepKeepsUnique(m, maxKeys, windowMs, e);
      if Get(m1, key).Some? {
        PositionIffUndisturbed(key, m1, Get(m1, key).value, maxKeys, windowMs, events[1..], t);
      } else {
        CountIsAtMost(key, m1, maxKeys, windowMs, events[1..], t);
      }
    }
  }

  /** `n` hits on `key`, each followed by one on `other`, all at the same time. */
  function Alternating(key: string, other: string, now: int, n: nat): seq<Event> {
    if n == 0 then [] else [Hits(key, now), Hits(other, now)] + Alternating(key, other, now, n - 1)
  }

  /** In a store for one key, a hit on a key that is not stored drops the one that is. */
  lemma HitTakesOver(m: Buckets, key: string, other: string, windowMs: int, now: int)
    requires m == [] || (|m| == 1 && m[0].key == other && other != key)
    ensures Hit(m, 1, key, windowMs, now) == ([Entry(key, Bucket(1, now + windowMs))], StoreHit(1, now + windowMs))
  {
    var started := Entry(key, Bucket(1, now + windowMs));
    assert [] + [started] == [started];
    HasIffSome(m, key);
    if m != [] {
      assert m[1..] == [];
      var kept := Evict(m, now);
      assert |kept| <= 1;
      assert |kept| == 1 ==> kept[1..] == [];
      assert Fit(kept, 1) == [];
    }
  }

  /** So there is no bound for a key that is evicted while its window runs: for every n and every
      limit of at least 1, a store for one key admits n hits on it at a single moment. */
  lemma {:induction false} EvictionRefillsTheBudget(key: string, other: string, m: Buckets, windowMs: int, now: int,
                                                    max: nat, n: nat)
    requires windowMs >= 1 && max >= 1 && other != key
    requires m == [] || (|m| == 1 && m[0].key == other)
    ensures Monotone(now, Alternating(key, other, now, n))
    ensures StoreAdmits(key, m, 1, windowMs, Alternating(key, other, now, n), max, now, now + windowMs) == n
    decreases n
  {
    hide Hit;
    if n > 0 {
      var (events, rest) := (Alternating(key, other, now, n), Alternating(key, other, now, n - 1));
      assert events[0] == Hits(key, now) && events[1..] == [Hits(other, now)] + rest;
      assert events[1..][1..] == rest;
      var m1 := Hit(m, 1, key, windowMs, now).0;
      HitTakesOver(m, key, other, windowMs, now);
      HitTakesOver(m1, other, key, windowMs, now);
      EvictionRefillsTheBudget(key, other, Hit(m1, 1, other, windowMs, now).0, windowMs, now, max, n - 1);
    }
  }
}
