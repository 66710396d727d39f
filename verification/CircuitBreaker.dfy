/** plugins/circuit-breaker/src/breaker.ts: the breaker object, the journal machine it refines,
    and safety over every interleaving of calls and (possibly late) outcomes. */
module CircuitBreaker {

  datatype Config = Config(failureThreshold: real, minimumRequests: int, windowMs: int, resetTimeoutMs: int)

  datatype State = Closed | Open | HalfOpen

  /** The fields of a `Breaker`. */
  datatype Fields = Fields(
    state: State,
    failures: nat,
    total: nat,
    windowEnd: int,
    openUntil: int,
    probing: bool
  )

  datatype Event = Allow(now: int) | Success(now: int) | Failure(now: int)

  function Create(cfg: Config, now: int): Fields {
    Fields(Closed, 0, 0, now + cfg.windowMs, 0, false)
  }

  function Roll(cfg: Config, b: Fields, now: int): Fields {
    if now >= b.windowEnd then b.(failures := 0, total := 0, windowEnd := now + cfg.windowMs) else b
  }

  function ToOpen(cfg: Config, b: Fields, now: int): Fields {
    b.(state := Open, openUntil := now + cfg.resetTimeoutMs, probing := false)
  }

  function ToClosed(cfg: Config, b: Fields, now: int): Fields {
    b.(state := Closed, failures := 0, total := 0, probing := false, windowEnd := now + cfg.windowMs)
  }

  function OnAllow(b: Fields, now: int): (Fields, bool) {
    match b.state
    case Open => if now < b.openUntil then (b, false) else (b.(state := HalfOpen, probing := true), true)
    case HalfOpen => if b.probing then (b, false) else (b.(probing := true), true)
    case Closed => (b, true)
  }

  function OnSuccess(cfg: Config, b: Fields, now: int): Fields {
    if b.state == HalfOpen then ToClosed(cfg, b, now)
    else var r := Roll(cfg, b, now); r.(total := r.total + 1)
  }

  predicate Trips(cfg: Config, failures: nat, total: nat) {
    total > 0 && total >= cfg.minimumRequests && (failures as real) / (total as real) >= cfg.failureThreshold
  }

  function OnFailure(cfg: Config, b: Fields, now: int): Fields {
    if b.state == HalfOpen then ToOpen(cfg, b, now)
    else
      var r := Roll(cfg, b, now);
      var r1 := r.(total := r.total + 1, failures := r.failures + 1);
      if Trips(cfg, r1.failures, r1.total) then ToOpen(cfg, r1, now) else r1
  }

  /** One event: the next fields, and whether a call was admitted. */
  function Step(cfg: Config, b: Fields, e: Event): (Fields, bool) {
    match e
    case Allow(now) => OnAllow(b, now)
    case Success(now) => (OnSuccess(cfg, b, now), false)
    case Failure(now) => (OnFailure(cfg, b, now), false)
  }

  /** `Math.max(0, Math.ceil(ms / 1000))`. */
  function CeilSeconds(ms: int): nat {
    if ms <= 0 then 0 else (ms + 999) / 1000
  }

  class Breaker {
    const cfg: Config
    var state: State
    var failures: nat
    var total: nat
    var windowEnd: int
    var openUntil: int
    var probing: bool

    ghost function View(): Fields
      reads this
    {
      Fields(state, failures, total, windowEnd, openUntil, probing)
    }

    constructor (cfg: Config, now: int)
      ensures this.cfg == cfg && View() == Create(cfg, now)
    {
      this.cfg := cfg;
      state, failures, total, openUntil, probing := Closed, 0, 0, 0, false;
      windowEnd := now + cfg.windowMs;
    }

    method DoAllow(now: int) returns (admitted: bool)
      modifies this
      ensures (View(), admitted) == OnAllow(old(View()), now)
    {
      if state == Open {
        if now < openUntil {
          return false;
        }
        state := HalfOpen;
        probing := true;
        return true;
      }
      if state == HalfOpen {
        if probing {
          return false;
        }
        probing := true;
        return true;
      }
      return true;
    }

    method CooldownSeconds(now: int) returns (seconds: nat)
      ensures seconds == 0 <==> OnAllow(View(), now).1 || state == HalfOpen
      ensures state == Open ==> (seconds - 1) * 1000 < openUntil - now || seconds == 0
      ensures state == Open ==> openUntil - now <= seconds * 1000
    {
      if state != Open {
        return 0;
      }
      seconds := CeilSeconds(openUntil - now);
    }

    method DoRoll(now: int)
      modifies this
      ensures View() == Roll(cfg, old(View()), now)
    {
      if now >= windowEnd {
        failures, total := 0, 0;
        windowEnd := now + cfg.windowMs;
      }
    }

    method DoOpen(now: int)
      modifies this
      ensures View() == ToOpen(cfg, old(View()), now)
    {
      state := Open;
      openUntil := now + cfg.resetTimeoutMs;
      probing := false;
    }

    method DoSuccess(now: int)
      modifies this
      ensures View() == OnSuccess(cfg, old(View()), now)
    {
      if state == HalfOpen {
        state := Closed;
        failures, total, probing := 0, 0, false;
        windowEnd := now + cfg.windowMs;
        return;
      }
      DoRoll(now);
      total := total + 1;
    }

    method DoFailure(now: int)
      modifies this
      ensures View() == OnFailure(cfg, old(View()), now)
    {
      if state == HalfOpen {
        DoOpen(now);
        return;
      }
      DoRoll(now);
      total := total + 1;
      failures := failures + 1;
      if total >= cfg.minimumRequests && (failures as real) / (total as real) >= cfg.failureThreshold {
        DoOpen(now);
      }
    }
  }

  // ----- The journal machine -----

  /** What the breaker is for, without counters: a phase, and every outcome recorded outside a
      probe since the window last restarted (true is a success). */
  datatype Phase = Flowing | Cooling(until: int) | Probing

  datatype Journal = Journal(phase: Phase, windowStart: int, outcomes: seq<bool>)

  function Failures(outcomes: seq<bool>): nat {
    if outcomes == [] then 0
    else Failures(outcomes[..|outcomes| - 1]) + if outcomes[|outcomes| - 1] then 0 else 1
  }

  /** A window with the minimum volume in which the share of failures reaches the threshold. */
  predicate IsBad(cfg: Config, outcomes: seq<bool>) {
    var failures := |outcomes| - Successes(outcomes);
    && outcomes != [] && |outcomes| >= cfg.minimumRequests
    && failures as real >= cfg.failureThreshold * (|outcomes| as real)
  }

  function Successes(outcomes: seq<bool>): nat {
    if outcomes == [] then 0
    else Successes(outcomes[..|outcomes| - 1]) + if outcomes[|outcomes| - 1] then 1 else 0
  }

  lemma {:induction false} FailuresAndSuccesses(outcomes: seq<bool>)
    ensures Failures(outcomes) + Successes(outcomes) == |outcomes|
  {
    if outcomes != [] {
      FailuresAndSuccesses(outcomes[..|outcomes| - 1]);
    }
  }

  /** The code's quotient of its counters says so exactly of the window they count. */
  lemma TripsIffBad(cfg: Config, outcomes: seq<bool>)
    ensures Trips(cfg, Failures(outcomes), |outcomes|) <==> IsBad(cfg, outcomes)
  {
    FailuresAndSuccesses(outcomes);
    if outcomes != [] {
      QuotientReaches(Failures(outcomes) as real, |outcomes| as real, cfg.failureThreshold);
    }
  }

  lemma QuotientReaches(f: real, n: real, threshold: real)
    requires n > 0.0
    ensures f / n >= threshold <==> f >= threshold * n
  {
    var q := f / n;
    assert q * n == f;
    Scaled(q, threshold, n);
    Scaled(threshold, q, n);
  }

  lemma Scaled(a: real, b: real, n: real)
    requires n > 0.0
    ensures a < b ==> a * n < b * n
    ensures a == b ==> a * n == b * n
  {
    assert a < b ==> (b - a) * n > 0.0;
  }

  function Record(cfg: Config, j: Journal, now: int, ok: bool): Journal {
    if now >= j.windowStart + cfg.windowMs then Journal(j.phase, now, [ok])
    else j.(outcomes := j.outcomes + [ok])
  }

  function JournalStep(cfg: Config, j: Journal, e: Event): (Journal, bool) {
    match e
    case Allow(now) =>
      (match j.phase
       case Flowing => (j, true)
       case Cooling(until) => if now < until then (j, false) else (j.(phase := Probing), true)
       case Probing => (j, false))
    case Success(now) =>
      (if j.phase.Probing? then Journal(Flowing, now, []) else Record(cfg, j, now, true), false)
    case Failure(now) =>
      if j.phase.Probing? then (j.(phase := Cooling(now + cfg.resetTimeoutMs)), false)
      else
        var r := Record(cfg, j, now, false);
        (if IsBad(cfg, r.outcomes) then r.(phase := Cooling(now + cfg.resetTimeoutMs)) else r, false)
  }

  /** The breaker's fields against the journal: `probing` is no more than the half-open state,
      and the counters are the journal's outcomes. */
  ghost predicate Refines(cfg: Config, b: Fields, j: Journal) {
    && (match j.phase
        case Flowing => b.state == Closed
        case Cooling(until) => b.state == Open && b.openUntil == until
        case Probing => b.state == HalfOpen)
    && (b.probing <==> b.state == HalfOpen)
    && b.total == |j.outcomes| && b.failures == Failures(j.outcomes)
    && b.windowEnd == j.windowStart + cfg.windowMs
  }

  lemma RecordRefines(cfg: Config, b: Fields, j: Journal, now: int, ok: bool)
    requires Refines(cfg, b, j)
    ensures var r := Roll(cfg, b, now);
            Refines(cfg, r.(total := r.total + 1, failures := r.failures + if ok then 0 else 1),
                    Record(cfg, j, now, ok))
  {
    assert (j.outcomes + [ok])[..|j.outcomes|] == j.outcomes;
    assert [ok][..0] == [];
  }

  lemma StepRefines(cfg: Config, b: Fields, j: Journal, e: Event)
    requires Refines(cfg, b, j)
    ensures Refines(cfg, Step(cfg, b, e).0, JournalStep(cfg, j, e).0)
    ensures Step(cfg, b, e).1 == JournalStep(cfg, j, e).1
  {
    if !e.Allow? && b.state != HalfOpen {
      RecordRefines(cfg, b, j, e.now, e.Success?);
      TripsIffBad(cfg, Record(cfg, j, e.now, false).outcomes);
    }
  }

  function After(cfg: Config, b: Fields, events: seq<Event>): Fields
    decreases |events|
  {
    if events == [] then b else After(cfg, Step(cfg, b, events[0]).0, events[1..])
  }

  function JournalAfter(cfg: Config, j: Journal, events: seq<Event>): Journal
    decreases |events|
  {
    if events == [] then j else JournalAfter(cfg, JournalStep(cfg, j, events[0]).0, events[1..])
  }

  /** The times of the calls admitted over a run. */
  function Admissions(cfg: Config, b: Fields, events: seq<Event>): seq<int>
    decreases |events|
  {
    if events == [] then []
    else
      var (b1, admitted) := Step(cfg, b, events[0]);
      (if admitted then [events[0].now] else []) + Admissions(cfg, b1, events[1..])
  }

  /** In every reachable state, whatever the clock and the order of calls and outcomes: the
      counters are exactly the outcomes recorded outside half-open since the window restarted,
      and a probe is out exactly in the half-open state. */
  lemma {:induction false} BreakerRefinesJournal(cfg: Config, b: Fields, j: Journal, events: seq<Event>)
    requires Refines(cfg, b, j)
    ensures Refines(cfg, After(cfg, b, events), JournalAfter(cfg, j, events))
    decreases |events|
  {
    if events != [] {
      StepRefines(cfg, b, j, events[0]);
      BreakerRefinesJournal(cfg, Step(cfg, b, events[0]).0, JournalStep(cfg, j, events[0]).0, events[1..]);
    }
  }

  lemma NewBreakerRefines(cfg: Config, now: int)
    ensures Refines(cfg, Create(cfg, now), Journal(Flowing, now, []))
  {
  }

  // ----- Safety -----

  ghost predicate Monotone(now: int, events: seq<Event>)
    decreases |events|
  {
    events == [] || (now <= events[0].now && Monotone(events[0].now, events[1..]))
  }

  lemma {:induction false} NothingAdmittedBefore(cfg: Config, b: Fields, now: int, deadline: int, events: seq<Event>)
    requires Monotone(now, events)
    requires now + cfg.resetTimeoutMs >= deadline
    requires (b.state == Open && b.openUntil >= deadline) || now >= deadline
    ensures forall i :: 0 <= i < |Admissions(cfg, b, events)| ==> Admissions(cfg, b, events)[i] >= deadline
    decreases |events|
  {
    if events != [] {
      var e := events[0];
      var (b1, admitted) := Step(cfg, b, e);
      NothingAdmittedBefore(cfg, b1, e.now, deadline, events[1..]);
    }
  }

  /** After the breaker opens at t, no call is admitted before t + resetTimeoutMs, however many
      late successes and failures of older calls arrive meanwhile. */
  lemma CooldownIsRespected(cfg: Config, b: Fields, opening: Event, events: seq<Event>)
    requires Monotone(opening.now, events)
    requires Step(cfg, b, opening).0.state == Open
    requires b.state != Open || Step(cfg, b, opening).0.openUntil != b.openUntil
    ensures var t := Step(cfg, b, opening).0;
            forall i :: 0 <= i < |Admissions(cfg, t, events)| ==>
              Admissions(cfg, t, events)[i] >= opening.now + cfg.resetTimeoutMs
  {
    NothingAdmittedBefore(cfg, Step(cfg, b, opening).0, opening.now, opening.now + cfg.resetTimeoutMs, events);
  }

  /** Each half-open episode admits exactly one call: the one that starts it. */
  lemma OneProbePerEpisode(cfg: Config, start: int, events: seq<Event>, e: Event)
    ensures var b := After(cfg, Create(cfg, start), events);
            var (b1, admitted) := Step(cfg, b, e);
            && (admitted && b1.state == HalfOpen <==> b.state != HalfOpen && b1.state == HalfOpen)
            && (b.state == HalfOpen ==> !admitted)
  {
    NewBreakerRefines(cfg, start);
    BreakerRefinesJournal(cfg, Create(cfg, start), Journal(Flowing, start, []), events);
  }

  /** Closed trips to open exactly at the threshold: on a failure that makes the outcomes of the
      current window numerous enough and their failure rate high enough, and on nothing else. */
  lemma TripsExactlyAtThreshold(cfg: Config, start: int, events: seq<Event>, e: Event)
    ensures var b := After(cfg, Create(cfg, start), events);
            var j := JournalAfter(cfg, Journal(Flowing, start, []), events);
            var window := Record(cfg, j, e.now, false).outcomes;
            b.state == Closed ==>
              (Step(cfg, b, e).0.state != Closed <==> e.Failure? && IsBad(cfg, window))
              && (Step(cfg, b, e).0.state != Closed ==> Step(cfg, b, e).0.state == Open)
  {
    NewBreakerRefines(cfg, start);
    var (b, j) := (Create(cfg, start), Journal(Flowing, start, []));
    BreakerRefinesJournal(cfg, b, j, events);
    StepRefines(cfg, After(cfg, b, events), JournalAfter(cfg, j, events), e);
  }

  predicate AllAllow(events: seq<Event>) {
    forall i :: 0 <= i < |events| ==> events[i].Allow?
  }

  /** A half-open episode lasts exactly until the next success or failure, whichever call that
      belongs to: the breaker cannot tell the probe's result from a late one of an older call. */
  lemma {:induction false} EpisodeEndsAtNextResult(cfg: Config, b: Fields, allows: seq<Event>, result: Event)
    requires b.state == HalfOpen && b.probing && AllAllow(allows) && !result.Allow?
    ensures After(cfg, b, allows) == b && Admissions(cfg, b, allows) == []
    ensures After(cfg, b, allows + [result]).state == if result.Success? then Closed else Open
    decreases |allows|
  {
    if allows == [] {
      assert allows + [result] == [result] && [result][1..] == [];
    } else {
      assert (allows + [result])[1..] == allows[1..] + [result];
      EpisodeEndsAtNextResult(cfg, b, allows[1..], result);
    }
  }

  /** So an old call can decide: two calls go out, one fails and opens the breaker, the cooldown
      passes and the probe goes out; the other call's result then closes or reopens the breaker
      while the probe is still out. */
  lemma OldCallDecides(cfg: Config, start: int, t: int, events: seq<Event>, late: Event)
    requires cfg.minimumRequests <= 1 && cfg.failureThreshold <= 1.0 && cfg.resetTimeoutMs >= 0 && !late.Allow?
    requires events == [Allow(t), Allow(t), Failure(t), Allow(t + cfg.resetTimeoutMs)] && t < start + cfg.windowMs
    ensures var b := Create(cfg, start);
            && Admissions(cfg, b, events) == [t, t, t + cfg.resetTimeoutMs]
            && After(cfg, b, events).state == HalfOpen
            && Step(cfg, After(cfg, b, events), late).0.state == if late.Success? then Closed else Open
  {
    var b := Create(cfg, start);
    var (tripped, probe) := (ToOpen(cfg, b.(total := 1, failures := 1), t), t + cfg.resetTimeoutMs);
    assert Trips(cfg, 1, 1);
    assert Step(cfg, b, Allow(t)) == (b, true) && Step(cfg, b, Failure(t)) == (tripped, false);
    assert Step(cfg, tripped, Allow(probe)) == (tripped.(state := HalfOpen, probing := true), true);
    assert events[1..] == [Allow(t), Failure(t), Allow(probe)] && events[1..][1..] == [Failure(t), Allow(probe)];
    LastTwo(cfg, b, tripped, t, probe);
    assert [Failure(t), Allow(probe)] == events[1..][1..];
    assert [t] + ([t] + [probe]) == [t, t, probe];
  }

  lemma LastTwo(cfg: Config, b: Fields, tripped: Fields, t: int, probe: int)
    requires Step(cfg, b, Failure(t)) == (tripped, false)
    requires Step(cfg, tripped, Allow(probe)) == (tripped.(state := HalfOpen, probing := true), true)
    ensures var two := [Failure(t), Allow(probe)];
            && After(cfg, b, two) == tripped.(state := HalfOpen, probing := true)
            && Admissions(cfg, b, two) == [probe]
  {
    var two := [Failure(t), Allow(probe)];
    var last := two[1..];
    assert last == [Allow(probe)] && last[1..] == [];
    assert After(cfg, tripped, last) == tripped.(state := HalfOpen, probing := true);
    assert After(cfg, b, two) == After(cfg, tripped, last);
    assert Admissions(cfg, tripped, last) == [probe] + [];
    assert Admissions(cfg, b, two) == [] + Admissions(cfg, tripped, last);
  }
}
