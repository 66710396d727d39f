/** The pre-shared-key replay window of ts/net/secure-datagram.ts: a fixed ring of nonces and a
    set, refining the list of every nonce ever accepted. */
module ReplayWindows {
  import opened Wrappers
  import opened ByteStrings

  const NONCE_LEN: nat := 12

  /** The nonce of a sealed datagram; a shorter datagram is all nonce. */
  function NonceOf(sealed: Bytes): Bytes {
    if |sealed| < NONCE_LEN then sealed else sealed[..NONCE_LEN]
  }

  function LastOf<T>(s: seq<T>, n: nat): seq<T> {
    if |s| <= n then s else s[|s| - n..]
  }

  ghost predicate Distinct<T>(s: seq<T>) {
    forall i, j :: 0 <= i < j < |s| ==> s[i] != s[j]
  }

  /** `r` holds the elements of `s` and nothing else. */
  ghost predicate SameElements(r: set<Bytes>, s: seq<Bytes>) {
    forall x :: x in r <==> x in s
  }

  lemma {:induction false} DistinctSize(r: set<Bytes>, s: seq<Bytes>)
    requires SameElements(r, s) && Distinct(s)
    ensures |r| == |s|
  {
    if s == [] {
      assert r == {};
    } else {
      var (front, last) := (s[..|s| - 1], s[|s| - 1]);
      assert forall x :: x in s <==> x in front || x == last;
      DistinctSize(r - {last}, front);
      assert r == (r - {last}) + {last};
    }
  }

  /** What accepting one more nonce does to the last `max`: the oldest goes once there are `max`. */
  lemma LastOfSnoc(s: seq<Bytes>, x: Bytes, max: nat)
    requires max >= 1
    ensures LastOf(s + [x], max) == Push(LastOf(s, max), x, max)
  {
  }

  /** The place of the i-th oldest entry of a ring of `max` slots whose oldest is at `head`. */
  function Slot(head: nat, i: nat, max: nat): nat {
    if head + i < max then head + i else head + i - max
  }

  /** A ring of slots holding `recent`, the next write going to `head`. */
  ghost predicate RingHolds(ring: seq<Option<Bytes>>, head: nat, recent: seq<Bytes>) {
    && head < |ring| && |recent| <= |ring|
    && (|recent| < |ring| ==>
          && head == |recent|
          && (forall i :: 0 <= i < head ==> ring[i] == Some(recent[i]))
          && (forall i :: head <= i < |ring| ==> ring[i] == None))
    && (|recent| == |ring| ==> forall i :: 0 <= i < |ring| ==> ring[Slot(head, i, |ring|)] == Some(recent[i]))
  }

  /** The oldest nonce once `recent` has grown by one. */
  function Push(recent: seq<Bytes>, x: Bytes, max: nat): seq<Bytes> {
    (if |recent| < max || recent == [] then recent else recent[1..]) + [x]
  }

  lemma HeadIsOldest(ring: seq<Option<Bytes>>, head: nat, recent: seq<Bytes>)
    requires RingHolds(ring, head, recent)
    ensures head < |ring| && |recent| <= |ring|
    ensures ring[head] == if |recent| < |ring| then None else Some(recent[0])
  {
    assert Slot(head, 0, |ring|) == head;
  }

  lemma RingAdvances(ring: seq<Option<Bytes>>, head: nat, recent: seq<Bytes>, x: Bytes)
    requires RingHolds(ring, head, recent)
    ensures RingHolds(ring[head := Some(x)], (head + 1) % |ring|, Push(recent, x, |ring|))
    ensures |Push(recent, x, |ring|)| <= |ring|
  {
    var n := |ring|;
    var next := (head + 1) % n;
    assert next == if head + 1 < n then head + 1 else 0;
    var (ring', recent') := (ring[head := Some(x)], Push(recent, x, n));
    if |recent| == n {
      forall i | 0 <= i < n ensures ring'[Slot(next, i, n)] == Some(recent'[i]) {
        if i < n - 1 {
          assert Slot(next, i, n) == Slot(head, i + 1, n) != head;
          assert recent'[i] == recent[i + 1];
        } else {
          assert Slot(next, i, n) == head;
        }
      }
    } else if |recent| + 1 == n {
      assert forall i :: 0 <= i < n ==> Slot(0, i, n) == i;
    }
  }

  class ReplayWindow {
    const max: nat
    const ring: array<Option<Bytes>>
    var seen: set<Bytes>
    var head: nat
    /** Every nonce ever accepted, in order. */
    ghost var accepted: seq<Bytes>

    ghost function Recent(): seq<Bytes>
      reads this
    {
      LastOf(accepted, max)
    }

    /** The ring holds the last `max` accepted nonces, oldest at `head` once it is full; the
        set holds exactly those, which are distinct. */
    ghost predicate Valid()
      reads this, ring
    {
      && max >= 1 && ring.Length == max
      && RingHolds(ring[..], head, Recent())
      && Distinct(Recent()) && SameElements(seen, Recent())
    }

    constructor (requested: int)
      ensures Valid() && fresh(ring) && accepted == []
      ensures max == if requested < 1 then 1 else requested
    {
      var size: nat := if requested < 1 then 1 else requested;
      max := size;
      ring := new Option<Bytes>[size](_ => None);
      seen, head, accepted := {}, 0, [];
    }

    /** A nonce is refused exactly when it is among the last `max` accepted ones. */
    method Accept(sealed: Bytes) returns (ok: bool)
      requires Valid()
      modifies this, ring
      ensures Valid()
      ensures var nonce := if |sealed| < 12 then sealed else sealed[..12];
              && (ok <==> nonce !in old(Recent()))
              && accepted == old(accepted) + if ok then [nonce] else []
      ensures |seen| == |Recent()| <= max
    {
      hide RingHolds, Distinct, LastOf;
      var nonce := NonceOf(sealed);
      if nonce in seen {
        assert accepted + [] == accepted;
        DistinctSize(seen, Recent());
        HeadIsOldest(ring[..], head, Recent());
        return false;
      }
      ghost var slots := ring[..];
      HeadIsOldest(slots, head, Recent());
      Turnover(slots, head, accepted, seen, nonce);
      var evicted := ring[head];
      if evicted.Some? {
        seen := seen - {evicted.value};
      }
      ring[head] := Some(nonce);
      head := (head + 1) % max;
      seen := seen + {nonce};
      accepted := accepted + [nonce];
      assert ring[..] == slots[old(head) := Some(nonce)];
      return true;
    }
  }

  /** What one more nonce does to the ring, the set and the last `max`, all at once. */
  lemma Turnover(slots: seq<Option<Bytes>>, head: nat, accepted: seq<Bytes>, seen: set<Bytes>, x: Bytes)
    requires RingHolds(slots, head, LastOf(accepted, |slots|)) && Distinct(LastOf(accepted, |slots|))
    requires SameElements(seen, LastOf(accepted, |slots|)) && x !in seen && head < |slots|
    ensures var seen' := (if slots[head].Some? then seen - {slots[head].value} else seen) + {x};
            var recent' := LastOf(accepted + [x], |slots|);
            && RingHolds(slots[head := Some(x)], (head + 1) % |slots|, recent')
            && Distinct(recent') && SameElements(seen', recent')
            && |seen'| == |recent'| <= |slots|
  {
    hide RingHolds, Distinct;
    var (max, recent) := (|slots|, LastOf(accepted, |slots|));
    HeadIsOldest(slots, head, recent);
    RingAdvances(slots, head, recent, x);
    LastOfSnoc(accepted, x, max);
    SeenTurnsOver(seen, recent, x, max);
    DistinctSize((if slots[head].Some? then seen - {slots[head].value} else seen) + {x}, LastOf(accepted + [x], max));
  }

  /** The set keeps up with the ring: the overwritten nonce leaves, the new one enters. */
  lemma SeenTurnsOver(seen: set<Bytes>, recent: seq<Bytes>, x: Bytes, max: nat)
    requires SameElements(seen, recent) && Distinct(recent) && x !in recent && |recent| <= max && max >= 1
    ensures Distinct(Push(recent, x, max))
    ensures SameElements((if |recent| < max then seen else seen - {recent[0]}) + {x}, Push(recent, x, max))
  {
    assert recent != [] ==> forall y :: y in recent <==> y == recent[0] || y in recent[1..];
    assert recent != [] ==> recent[0] !in recent[1..];
    var kept := if |recent| < max then recent else recent[1..];
    assert forall y :: y in kept + [x] <==> y in kept || y == x;
  }

  // ----- Whole runs -----

  lemma LateIsInLast(s: seq<Bytes>, n: nat, i: nat)
    requires i < |s|
    ensures i + n >= |s| ==> s[i] in LastOf(s, n)
  {
    if |s| - n <= i && |s| > n {
      assert LastOf(s, n)[i - (|s| - n)] == s[i];
    }
  }

  /** The nonces accepted over a run, by the rule `Accept` is proved to follow. */
  function AcceptedIn(nonces: seq<Bytes>, max: nat): seq<Bytes> {
    if nonces == [] then []
    else
      var (front, last) := (AcceptedIn(nonces[..|nonces| - 1], max), nonces[|nonces| - 1]);
      if last in LastOf(front, max) then front else front + [last]
  }

  /** Over any run, a nonce is accepted again only after `max` others were in between. */
  lemma {:induction false} ReplaysAreFarApart(nonces: seq<Bytes>, max: nat, i: nat, j: nat)
    requires i < j < |AcceptedIn(nonces, max)| && AcceptedIn(nonces, max)[i] == AcceptedIn(nonces, max)[j]
    ensures j - i > max
  {
    var a := AcceptedIn(nonces, max);
    var front := AcceptedIn(nonces[..|nonces| - 1], max);
    if j < |front| {
      ReplaysAreFarApart(nonces[..|nonces| - 1], max, i, j);
    } else {
      assert a[j] !in LastOf(front, max);
      LateIsInLast(front, max, i);
    }
  }
}
