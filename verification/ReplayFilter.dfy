/** The sliding-window replay filter of ts/net/noise-session.ts (the scheme of section 3.4.3
    of RFC 4303), and its refinement of a filter that never forgets. */
module ReplayFilters {
  const WINDOW: int := 1024

  /** The value of a `ReplayFilter` object. */
  datatype Filter = Filter(high: int, bits: set<int>)

  const EMPTY_FILTER := Filter(-1, {})

  function Prune(bits: set<int>, low: int): set<int> {
    set b | b in bits && b > low
  }

  /** One call: the next state, and whether `n` is fresh. Pruning uses the OLD high mark. */
  function Check(f: Filter, n: nat): (Filter, bool) {
    if n > f.high then (Filter(n, Prune(f.bits, f.high - WINDOW) + {n}), true)
    else if n <= f.high - WINDOW || n in f.bits then (f, false)
    else (f.(bits := f.bits + {n}), true)
  }

  lemma EmptyOrInhabited(s: set<int>)
    ensures s == {} || exists b :: b in s
  {
    if forall b :: b !in s {
      assert s == {};
    }
  }

  class ReplayFilter {
    var high: int
    var bits: set<int>

    ghost function View(): Filter
      reads this
    {
      Filter(high, bits)
    }

    constructor ()
      ensures View() == EMPTY_FILTER
    {
      high, bits := -1, {};
    }

    method DoCheck(n: nat) returns (isFresh: bool)
      modifies this
      ensures (View(), isFresh) == Check(old(View()), n)
    {
      if n > high {
        var lowOld := high - WINDOW;
        var todo := bits;
        while todo != {}
          invariant todo <= old(bits) && high == old(high)
          invariant forall b :: b in bits <==> b in old(bits) && (b in todo || b > lowOld)
          decreases |todo|
        {
          EmptyOrInhabited(todo);
          var seen :| seen in todo;
          todo := todo - {seen};
          if seen <= lowOld {
            bits := bits - {seen};
          }
        }
        assert forall b :: b in bits <==> b in Prune(old(bits), lowOld);
        assert bits == Prune(old(bits), lowOld);
        high := n;
        bits := bits + {n};
        return true;
      }
      if n <= high - WINDOW {
        return false;
      }
      if n in bits {
        return false;
      }
      bits := bits + {n};
      return true;
    }
  }

  // ----- The unbounded history it refines -----

  /** Every counter ever accepted; `high` is the largest, or -1. */
  datatype History = History(high: int, accepted: set<int>)

  function Remember(h: History, n: nat): (History, bool) {
    if n > h.high - 1024 && n !in h.accepted
    then (History(if n > h.high then n else h.high, h.accepted + {n}), true)
    else (h, false)
  }

  function After(f: Filter, ns: seq<nat>): Filter
    decreases |ns|
  {
    if ns == [] then f else After(Check(f, ns[0]).0, ns[1..])
  }

  function Verdicts(f: Filter, ns: seq<nat>): seq<bool>
    decreases |ns|
  {
    if ns == [] then [] else [Check(f, ns[0]).1] + Verdicts(Check(f, ns[0]).0, ns[1..])
  }

  function HistoryAfter(h: History, ns: seq<nat>): History
    decreases |ns|
  {
    if ns == [] then h else HistoryAfter(Remember(h, ns[0]).0, ns[1..])
  }

  function HistoryVerdicts(h: History, ns: seq<nat>): seq<bool>
    decreases |ns|
  {
    if ns == [] then [] else [Remember(h, ns[0]).1] + HistoryVerdicts(Remember(h, ns[0]).0, ns[1..])
  }

  /** The filter agrees with the history on the window, and holds nothing but history. */
  ghost predicate Refines(f: Filter, h: History) {
    && f.high == h.high
    && f.bits <= h.accepted
    && (forall b :: b in h.accepted ==> 0 <= b <= h.high)
    && (forall b :: b in h.accepted && b > h.high - WINDOW ==> b in f.bits)
  }

  /** What is stored lies in the current window and the one before the last advance. */
  ghost predicate TwoWindows(f: Filter, before: int) {
    && before <= f.high
    && (forall b :: b in f.bits ==> before - WINDOW < b <= before || f.high - WINDOW < b <= f.high)
  }

  lemma CheckRefines(f: Filter, h: History, n: nat)
    requires Refines(f, h)
    ensures Refines(Check(f, n).0, Remember(h, n).0) && Check(f, n).1 == Remember(h, n).1
  {
  }

  /** Over any call sequence the filter answers as the history does: `n` is accepted exactly
      when it was never accepted before and is above `high - 1024`. */
  lemma {:induction false} FilterRefinesHistory(f: Filter, h: History, ns: seq<nat>)
    requires Refines(f, h)
    ensures Verdicts(f, ns) == HistoryVerdicts(h, ns)
    ensures Refines(After(f, ns), HistoryAfter(h, ns))
    decreases |ns|
  {
    if ns != [] {
      CheckRefines(f, h, ns[0]);
      FilterRefinesHistory(Check(f, ns[0]).0, Remember(h, ns[0]).0, ns[1..]);
    }
  }

  lemma {:induction false} StaysInTwoWindows(f: Filter, before: int, ns: seq<nat>)
    requires TwoWindows(f, before)
    ensures exists p :: TwoWindows(After(f, ns), p)
    decreases |ns|
  {
    if ns == [] {
      assert TwoWindows(After(f, ns), before);
    } else {
      var f1 := Check(f, ns[0]).0;
      StaysInTwoWindows(f1, if ns[0] > f.high then f.high else before, ns[1..]);
      assert After(f, ns) == After(f1, ns[1..]);
    }
  }

  lemma {:induction false} RangeSize(s: set<int>, low: int, high: int)
    requires low <= high && forall b :: b in s ==> low < b <= high
    ensures |s| <= high - low
    decreases high - low
  {
    if low < high {
      RangeSize(s - {high}, low, high - 1);
      assert high in s ==> s == (s - {high}) + {high};
      assert high !in s ==> s == s - {high};
    } else {
      assert forall b :: b !in s;
      assert s == {};
    }
  }

  /** The stored set never exceeds two windows. */
  lemma StoredIsBounded(ns: seq<nat>)
    ensures |After(EMPTY_FILTER, ns).bits| <= 2 * WINDOW
  {
    StaysInTwoWindows(EMPTY_FILTER, -1, ns);
    var f := After(EMPTY_FILTER, ns);
    var p :| TwoWindows(f, p);
    var older := set b | b in f.bits && p - WINDOW < b <= p;
    var newer := f.bits - older;
    RangeSize(older, p - WINDOW, p);
    RangeSize(newer, f.high - WINDOW, f.high);
    assert f.bits == older + newer;
  }

  function Counters(lo: nat, hi: nat): seq<nat>
    requires lo <= hi
  {
    seq(hi - lo, i requires 0 <= i => lo + i)
  }

  function Interval(lo: int, hi: int): (s: set<int>)
    requires lo <= hi
    ensures forall b :: b in s <==> lo <= b < hi
    ensures |s| == hi - lo
    decreases hi - lo
  {
    if lo == hi then {} else Interval(lo, hi - 1) + {hi - 1}
  }

  lemma {:induction false} AfterConcat(f: Filter, a: seq<nat>, b: seq<nat>)
    ensures After(f, a + b) == After(After(f, a), b)
    decreases |a|
  {
    if a == [] {
      assert a + b == b;
    } else {
      assert (a + b)[1..] == a[1..] + b;
      AfterConcat(Check(f, a[0]).0, a[1..], b);
    }
  }

  lemma {:induction false} InOrder(n: nat)
    requires n <= WINDOW
    ensures After(EMPTY_FILTER, Counters(0, n)) == Filter(n - 1, Interval(0, n))
  {
    if n == 0 {
    } else {
      InOrder(n - 1);
      CountersSnoc(0, n);
      AfterSnoc(EMPTY_FILTER, Counters(0, n - 1), n - 1);
      var f := Filter(n - 2, Interval(0, n - 1));
      assert Prune(f.bits, f.high - WINDOW) == f.bits;
      assert Interval(0, n) == Interval(0, n - 1) + {n - 1};
    }
  }

  lemma AfterSnoc(f: Filter, ns: seq<nat>, n: nat)
    ensures After(f, ns + [n]) == Check(After(f, ns), n).0
  {
    AfterConcat(f, ns, [n]);
    var one: seq<nat> := [n];
    assert one[1..] == [];
  }

  lemma CountersSnoc(lo: nat, hi: nat)
    requires lo < hi
    ensures Counters(lo, hi) == Counters(lo, hi - 1) + [hi - 1]
  {
  }

  lemma AfterCounters(f: Filter, lo: nat, hi: nat)
    requires lo <= hi
    ensures lo == hi ==> After(f, Counters(lo, hi)) == f
    ensures lo < hi ==> After(f, Counters(lo, hi)) == Check(After(f, Counters(lo, hi - 1)), hi - 1).0
  {
    if lo < hi {
      CountersSnoc(lo, hi);
      AfterSnoc(f, Counters(lo, hi - 1), hi - 1);
    } else {
      assert Counters(lo, hi) == [];
    }
  }

  /** All counters below `n` are stored, and one more, up to a window ahead. */
  function Gapped(n: nat, high: int): Filter {
    Filter(high, Interval(0, n) + {high})
  }

  lemma CheckInGap(n: nat, high: int)
    requires high - WINDOW < n < high
    ensures Check(Gapped(n, high), n).0 == Gapped(n + 1, high)
  {
    assert Interval(0, n) + {high} + {n} == Interval(0, n + 1) + {high};
  }

  lemma {:induction false} BackFill(lo: nat, hi: nat, high: int)
    requires high - WINDOW < lo <= hi <= high
    ensures After(Gapped(lo, high), Counters(lo, hi)) == Gapped(hi, high)
    decreases hi - lo
  {
    hide After, Counters, Interval, Gapped, Check;
    AfterCounters(Gapped(lo, high), lo, hi);
    if lo < hi {
      BackFill(lo, hi - 1, high);
      CheckInGap(hi - 1, high);
    }
  }

  /** ... and the bound is met: a window in order, a jump one window ahead, then the gap. */
  lemma BoundIsAttained(w: nat)
    requires w == WINDOW
    ensures |After(EMPTY_FILTER, Counters(0, w) + ([2 * w - 1] + Counters(w, 2 * w - 1))).bits| == 2 * WINDOW
  {
    hide After, Counters;
    TwiceIsStored(w, 2 * w - 1);
  }

  lemma TwiceIsStored(w: nat, high: nat)
    requires 0 < w <= WINDOW && high == 2 * w - 1
    ensures |After(EMPTY_FILTER, Counters(0, w) + ([high] + Counters(w, high))).bits| == 2 * w
  {
    FilledGap(w, high);
    hide After, Counters, Check, Gapped, Interval;
    InOrder(w);
    JumpThenGap(w, high);
    var first := Filter(w - 1, Interval(0, w));
    AfterVia(EMPTY_FILTER, first, Gapped(high, high), Counters(0, w), [high] + Counters(w, high));
  }

  lemma JumpThenGap(w: nat, high: nat)
    requires w <= WINDOW && w <= high < w + WINDOW
    ensures After(Filter(w - 1, Interval(0, w)), [high] + Counters(w, high)) == Gapped(high, high)
  {
    hide After, Counters, Check, Gapped, Interval;
    Jump(w, high);
    BackFill(w, high, high);
    AfterVia(Filter(w - 1, Interval(0, w)), Gapped(w, high), Gapped(high, high), [high], Counters(w, high));
  }

  lemma FilledGap(w: nat, high: nat)
    requires high == 2 * w - 1
    ensures |Gapped(high, high).bits| == 2 * w
  {
    assert Gapped(high, high).bits == Interval(0, 2 * w);
  }

  lemma AfterVia(f: Filter, g: Filter, h: Filter, a: seq<nat>, b: seq<nat>)
    requires After(f, a) == g && After(g, b) == h
    ensures After(f, a + b) == h
  {
    AfterConcat(f, a, b);
  }

  lemma Jump(w: nat, high: nat)
    requires w <= WINDOW && w <= high
    ensures After(Filter(w - 1, Interval(0, w)), [high]) == Gapped(w, high)
  {
    var f := Filter(w - 1, Interval(0, w));
    AfterSnoc(f, [], high);
    assert [] + [high] == [high];
    assert Prune(f.bits, f.high - WINDOW) == f.bits;
  }
}
