/** A JavaScript `Map`: entries in insertion order, keys unique. Setting a key that is present
    keeps its place; deleting and setting again moves it to the end. */
module OrderedMap {
  import opened Wrappers

  datatype Entry<+K, +V> = Entry(key: K, value: V)

  ghost predicate Unique<K, V>(m: seq<Entry<K, V>>) {
    forall i, j :: 0 <= i < j < |m| ==> m[i].key != m[j].key
  }

  /** The place of `k`, or |m| when it is absent. */
  function Find<K(==), V>(m: seq<Entry<K, V>>, k: K): (i: nat)
    ensures i <= |m|
    ensures i < |m| ==> m[i].key == k
    ensures forall j :: 0 <= j < i ==> m[j].key != k
  {
    if m == [] || m[0].key == k then 0
    else
      var rest := Find(m[1..], k);
      assert forall j :: 1 <= j < 1 + rest ==> m[j] == m[1..][j - 1];
      1 + rest
  }

  predicate Has<K(==), V>(m: seq<Entry<K, V>>, k: K) {
    Find(m, k) < |m|
  }

  function Get<K(==), V>(m: seq<Entry<K, V>>, k: K): Option<V> {
    if Has(m, k) then Some(m[Find(m, k)].value) else None
  }

  function Without<T>(s: seq<T>, i: nat): seq<T>
    requires i < |s|
  {
    s[..i] + s[i + 1..]
  }

  function Delete<K(==), V>(m: seq<Entry<K, V>>, k: K): seq<Entry<K, V>> {
    if Has(m, k) then Without(m, Find(m, k)) else m
  }

  function Put<K(==), V>(m: seq<Entry<K, V>>, k: K, v: V): seq<Entry<K, V>> {
    if Has(m, k) then m[Find(m, k) := Entry(k, v)] else m + [Entry(k, v)]
  }

  lemma FindIs<K, V>(m: seq<Entry<K, V>>, i: nat)
    requires Unique(m) && i < |m|
    ensures Find(m, m[i].key) == i
  {
    var j := Find(m, m[i].key);
    assert m[j].key == m[i].key;
  }

  lemma HasIffSome<K, V>(m: seq<Entry<K, V>>, k: K)
    ensures Has(m, k) <==> exists i :: 0 <= i < |m| && m[i].key == k
  {
    if exists i :: 0 <= i < |m| && m[i].key == k {
      var i :| 0 <= i < |m| && m[i].key == k;
      assert !(i < Find(m, k));
    }
  }

  lemma WithoutAt<T>(s: seq<T>, e: nat, j: nat)
    requires e < |s| && j < |s| - 1
    ensures |Without(s, e)| == |s| - 1 && Without(s, e)[j] == s[if j < e then j else j + 1]
  {
  }

  lemma AbsentWithout<K, V>(m: seq<Entry<K, V>>, e: nat, k: K)
    requires e < |m| && !Has(m, k)
    ensures !Has(Without(m, e), k)
  {
    hide Find;
    var w := Without(m, e);
    HasIffSome(m, k);
    HasIffSome(w, k);
    forall j | 0 <= j < |m| - 1 ensures |w| == |m| - 1 && w[j].key != k {
      WithoutAt(m, e, j);
    }
  }

  lemma PresentWithout<K, V>(m: seq<Entry<K, V>>, e: nat, k: K)
    requires e < |m| && e != Find(m, k) && Has(m, k)
    ensures Has(Without(m, e), k) && Without(m, e)[Find(Without(m, e), k)] == m[Find(m, k)]
  {
    hide Find, Without;
    var (w, i) := (Without(m, e), Find(m, k));
    var i' := if i < e then i else i - 1;
    WithoutAt(m, e, i');
    forall j | 0 <= j < i' ensures w[j].key != k {
      WithoutAt(m, e, j);
    }
    FirstWithKey(w, i', k);
  }

  /** Removing some other entry leaves the entry of `k` findable. */
  lemma WithoutKeeps<K, V>(m: seq<Entry<K, V>>, e: nat, k: K)
    requires e < |m| && e != Find(m, k)
    ensures Has(Without(m, e), k) <==> Has(m, k)
    ensures Has(m, k) ==> Without(m, e)[Find(Without(m, e), k)] == m[Find(m, k)]
  {
    hide Find, Without;
    if Has(m, k) {
      PresentWithout(m, e, k);
    } else {
      AbsentWithout(m, e, k);
    }
  }

  lemma FirstWithKey<K, V>(m: seq<Entry<K, V>>, i: nat, k: K)
    requires i < |m| && m[i].key == k && forall j :: 0 <= j < i ==> m[j].key != k
    ensures Find(m, k) == i
  {
    HasIffSome(m, k);
  }

  /** Deleting and setting keep keys unique, change the one key, and no other. */
  lemma DeleteIsExact<K, V>(m: seq<Entry<K, V>>, k: K)
    requires Unique(m)
    ensures Unique(Delete(m, k)) && Get(Delete(m, k), k) == None
    ensures forall k' :: k' != k ==> Get(Delete(m, k), k') == Get(m, k')
  {
    var d := Delete(m, k);
    var i := Find(m, k);
    if i < |m| {
      assert forall j :: 0 <= j < |d| ==> d[j] == m[if j < i then j else j + 1];
    }
    HasIffSome(d, k);
    forall k' | k' != k ensures Get(d, k') == Get(m, k') {
      HasIffSome(d, k');
      HasIffSome(m, k');
      if Has(m, k') && Has(m, k) {
        var j := Find(m, k');
        var j' := if j < i then j else j - 1;
        assert d[j'] == m[j];
        FindIs(d, j');
      }
    }
  }

  lemma PutIsExact<K, V>(m: seq<Entry<K, V>>, k: K, v: V)
    requires Unique(m)
    ensures Unique(Put(m, k, v)) && Get(Put(m, k, v), k) == Some(v)
    ensures forall k' :: k' != k ==> Get(Put(m, k, v), k') == Get(m, k')
    ensures |Put(m, k, v)| == |m| + if Has(m, k) then 0 else 1
  {
    var p := Put(m, k, v);
    var i := Find(m, k);
    assert p[i] == Entry(k, v);
    assert forall j :: 0 <= j < |m| ==> p[j].key == m[j].key;
    FindIs(p, i);
    forall k' | k' != k ensures Get(p, k') == Get(m, k') {
      HasIffSome(p, k');
      HasIffSome(m, k');
      if Has(m, k') {
        FindIs(p, Find(m, k'));
      }
    }
  }

  // ----- Sweeping a map -----

  /** The entries whose value passes `p`, in order. */
  function Keep<K, V>(m: seq<Entry<K, V>>, p: V -> bool): (r: seq<Entry<K, V>>)
    ensures |r| <= |m|
  {
    if m == [] then []
    else Keep(m[..|m| - 1], p) + if p(m[|m| - 1].value) then [m[|m| - 1]] else []
  }

  lemma KeepSnoc<K, V>(m: seq<Entry<K, V>>, e: Entry<K, V>, p: V -> bool)
    ensures Keep(m + [e], p) == Keep(m, p) + if p(e.value) then [e] else []
  {
    assert (m + [e])[..|m|] == m;
  }

  lemma KeepNothing<K, V>(m: seq<Entry<K, V>>, p: V -> bool)
    ensures Keep(m[..0], p) == []
  {
  }

  /** One more entry swept. */
  lemma KeepNext<K, V>(m: seq<Entry<K, V>>, n: nat, p: V -> bool)
    requires n < |m|
    ensures Keep(m[..n + 1], p) == Keep(m[..n], p) + if p(m[n].value) then [m[n]] else []
  {
    assert m[..n + 1] == m[..n] + [m[n]];
    KeepSnoc(m[..n], m[n], p);
  }

  lemma {:induction false} KeepMembers<K, V>(m: seq<Entry<K, V>>, p: V -> bool, e: Entry<K, V>)
    ensures e in Keep(m, p) <==> e in m && p(e.value)
  {
    if m != [] {
      var (front, last) := (m[..|m| - 1], m[|m| - 1]);
      KeepMembers(front, p, e);
      assert m == front + [last];
    }
  }

  lemma {:induction false} KeepUnique<K, V>(m: seq<Entry<K, V>>, p: V -> bool)
    requires Unique(m)
    ensures Unique(Keep(m, p))
  {
    if m != [] {
      var front := m[..|m| - 1];
      KeepUnique(front, p);
      var kept := Keep(front, p);
      forall j | 0 <= j < |kept| ensures kept[j].key != m[|m| - 1].key {
        KeepMembers(front, p, kept[j]);
      }
    }
  }

  lemma GetIsMember<K, V>(m: seq<Entry<K, V>>, k: K, v: V)
    requires Unique(m)
    ensures Get(m, k) == Some(v) <==> Entry(k, v) in m
  {
    if Entry(k, v) in m {
      var i :| 0 <= i < |m| && m[i] == Entry(k, v);
      FindIs(m, i);
    }
    if Has(m, k) {
      assert m[Find(m, k)] in m;
    }
  }

  /** Sweeping keeps a key exactly when its value passes. */
  lemma KeepIsExact<K, V>(m: seq<Entry<K, V>>, p: V -> bool, k: K)
    requires Unique(m)
    ensures Unique(Keep(m, p))
    ensures Get(Keep(m, p), k) == if Get(m, k).Some? && p(Get(m, k).value) then Get(m, k) else None
  {
    KeepUnique(m, p);
    var r := Keep(m, p);
    if Get(m, k).Some? {
      var v := Get(m, k).value;
      GetIsMember(m, k, v);
      KeepMembers(m, p, Entry(k, v));
      GetIsMember(r, k, v);
    }
    if Get(r, k).Some? {
      var v := Get(r, k).value;
      GetIsMember(r, k, v);
      KeepMembers(m, p, Entry(k, v));
      GetIsMember(m, k, v);
    }
  }

  /** Dropping the oldest entry removes its key and no other. */
  lemma DropOldest<K, V>(m: seq<Entry<K, V>>, k: K)
    requires Unique(m) && m != []
    ensures Unique(m[1..])
    ensures Get(m[1..], k) == if k == m[0].key then None else Get(m, k)
  {
    FindIs(m, 0);
    assert Without(m, 0) == m[1..];
    DeleteIsExact(m, m[0].key);
  }

  /** Oldest entries dropped until there are fewer than `max`, or none. */
  function Fit<K, V>(m: seq<Entry<K, V>>, max: int): (r: seq<Entry<K, V>>)
    ensures |r| == 0 || |r| < max
  {
    if |m| >= max && m != [] then Fit(m[1..], max) else m
  }

  lemma {:induction false} FitIsExact<K, V>(m: seq<Entry<K, V>>, max: int, k: K)
    requires Unique(m)
    ensures Unique(Fit(m, max))
    ensures Get(Fit(m, max), k) == Get(m, k) || Get(Fit(m, max), k) == None
  {
    if |m| >= max && m != [] {
      DropOldest(m, k);
      FitIsExact(m[1..], max, k);
    }
  }

  // ----- Which entries capacity eviction drops -----

  lemma {:induction false} KeepConcat<K, V>(a: seq<Entry<K, V>>, b: seq<Entry<K, V>>, p: V -> bool)
    ensures Keep(a + b, p) == Keep(a, p) + Keep(b, p)
    decreases |b|
  {
    if b == [] {
      assert a + b == a && Keep(a, p) + [] == Keep(a, p);
    } else {
      var (front, last) := (b[..|b| - 1], b[|b| - 1]);
      assert a + b == (a + front) + [last] && b == front + [last];
      KeepConcat(a, front, p);
      KeepSnoc(a + front, last, p);
      KeepSnoc(front, last, p);
    }
  }

  /** `Fit` keeps the newest entries: as many as stay below `max`. */
  lemma {:induction false} FitKeepsNewest<K, V>(m: seq<Entry<K, V>>, max: int)
    ensures var r := Fit(m, max);
            |r| == (if |m| < max then |m| else if max <= 0 then 0 else max - 1) && r == m[|m| - |r|..]
  {
    if |m| >= max && m != [] {
      FitKeepsNewest(m[1..], max);
      var r := Fit(m, max);
      assert m[1..][|m| - 1 - |r|..] == m[|m| - |r|..];
    }
  }

  /** Expired entries go first, then the oldest: after a sweep and dropping to fewer than `max`, an
      entry is left if and only if it passes and fewer than `max` entries from it on do. */
  lemma EvictedIffOld<K, V>(m: seq<Entry<K, V>>, p: V -> bool, max: int, i: nat)
    requires Unique(m) && i < |m|
    ensures Has(Fit(Keep(m, p), max), m[i].key) <==> p(m[i].value) && |Keep(m[i..], p)| < max
  {
    hide Keep, Fit;
    var (kept, x) := (Keep(m, p), m[i]);
    var r := Fit(kept, max);
    FitKeepsNewest(kept, max);
    KeepUnique(m, p);
    SplitKept(m, p, i);
    var q := |Keep(m[..i], p)|;
    HasIffSome(r, x.key);
    if p(x.value) {
      assert kept[q] == x;
      if q >= |kept| - |r| {
        assert r[q - (|kept| - |r|)] == x;
      }
      if Has(r, x.key) {
        FindIs(kept, q);
        FindIs(kept, Find(r, x.key) + (|kept| - |r|));
      }
    } else if Has(r, x.key) {
      OnlyPassingKept(m, p, i, Find(r, x.key) + (|kept| - |r|));
    }
  }

  lemma SplitKept<K, V>(m: seq<Entry<K, V>>, p: V -> bool, i: nat)
    requires i < |m|
    ensures Keep(m, p) == Keep(m[..i], p) + Keep(m[i..], p)
    ensures p(m[i].value) ==> Keep(m[i..], p) != [] && Keep(m[i..], p)[0] == m[i]
  {
    hide Keep;
    assert m == m[..i] + m[i..];
    KeepConcat(m[..i], m[i..], p);
    assert m[i..] == [m[i]] + m[i + 1..];
    KeepConcat([m[i]], m[i + 1..], p);
    KeepOne(m[i], p);
  }

  lemma KeepOne<K, V>(e: Entry<K, V>, p: V -> bool)
    ensures Keep([e], p) == if p(e.value) then [e] else []
  {
    assert [e][..0] == [];
  }

  lemma OnlyPassingKept<K, V>(m: seq<Entry<K, V>>, p: V -> bool, i: nat, k: nat)
    requires Unique(m) && i < |m| && k < |Keep(m, p)| && Keep(m, p)[k].key == m[i].key
    ensures p(m[i].value)
  {
    var e := Keep(m, p)[k];
    KeepMembers(m, p, e);
    var j :| 0 <= j < |m| && m[j] == e;
    FindIs(m, i);
    FindIs(m, j);
  }
}
