/** `String.split` on one character, its inverse, splitting on "::", and decimal numerals. */
module Text {
  function Split(s: string, c: char): (r: seq<string>)
    ensures |r| >= 1
  {
    if s == "" then [""]
    else
      var r := Split(s[1..], c);
      if s[0] == c then [""] + r else [[s[0]] + r[0]] + r[1..]
  }

  function Join(parts: seq<string>, c: char): string {
    if parts == [] then ""
    else if |parts| == 1 then parts[0]
    else parts[0] + [c] + Join(parts[1..], c)
  }

  /** Splitting loses nothing, and leaves no separator in a part. */
  lemma {:induction false} JoinSplit(s: string, c: char)
    ensures Join(Split(s, c), c) == s
    ensures forall i :: 0 <= i < |Split(s, c)| ==> c !in Split(s, c)[i]
  {
    if s != "" {
      JoinSplit(s[1..], c);
      var r := Split(s[1..], c);
      var t := Split(s, c);
      if s[0] == c {
        assert t[1..] == r;
        assert "" + [c] + s[1..] == s;
      } else {
        assert t[0] == [s[0]] + r[0] && t[1..] == r[1..];
        assert Join(t, c) == [s[0]] + Join(r, c);
      }
    }
  }

  lemma {:induction false} SplitPrefix(a: string, s: string, c: char)
    requires c !in a
    ensures Split(a + s, c) == [a + Split(s, c)[0]] + Split(s, c)[1..]
  {
    if a == "" {
      assert a + s == s && a + Split(s, c)[0] == Split(s, c)[0];
    } else {
      assert (a + s)[1..] == a[1..] + s;
      SplitPrefix(a[1..], s, c);
      assert [a[0]] + (a[1..] + Split(s, c)[0]) == a + Split(s, c)[0];
    }
  }

  /** Splitting a join of parts without the separator gives the parts back. */
  lemma {:induction false} SplitJoin(parts: seq<string>, c: char)
    requires parts != [] && forall i :: 0 <= i < |parts| ==> c !in parts[i]
    ensures Split(Join(parts, c), c) == parts
  {
    if |parts| == 1 {
      SplitPrefix(parts[0], "", c);
      assert parts[0] + "" == parts[0];
    } else {
      SplitJoin(parts[1..], c);
      var rest := Join(parts[1..], c);
      SplitPrefix(parts[0], [c] + rest, c);
      assert ([c] + rest)[1..] == rest;
      assert parts[0] + [c] + rest == parts[0] + ([c] + rest);
      assert parts[0] + "" == parts[0];
      assert Split([c] + rest, c) == [""] + parts[1..];
    }
  }

  // ----- "::" -----

  predicate PairAt(s: string, i: int) {
    0 <= i && i + 1 < |s| && s[i] == ':' && s[i + 1] == ':'
  }

  /** The first "::" at or after `start`, or |s|. */
  function FirstPair(s: string, start: nat): (i: nat)
    requires start <= |s|
    ensures start <= i <= |s|
    ensures i < |s| ==> PairAt(s, i)
    ensures forall j :: start <= j < i ==> !PairAt(s, j)
    decreases |s| - start
  {
    if start == |s| || PairAt(s, start) then start else FirstPair(s, start + 1)
  }

  /** `split("::")`: leftmost occurrences, not overlapping. */
  function SplitPairs(s: string): (r: seq<string>)
    ensures |r| >= 1
    decreases |s|
  {
    var i := FirstPair(s, 0);
    if i == |s| then [s] else [s[..i]] + SplitPairs(s[i + 2..])
  }

  predicate NoPair(s: string) {
    forall i :: 0 <= i < |s| ==> !PairAt(s, i)
  }

  lemma OneHalf(s: string)
    ensures |SplitPairs(s)| == 1 <==> NoPair(s)
    ensures NoPair(s) ==> SplitPairs(s) == [s]
  {
  }

  lemma TwoHalves(a: string, b: string)
    requires NoPair(a) && (a != "" ==> a[|a| - 1] != ':') && NoPair(b)
    ensures SplitPairs(a + "::" + b) == [a, b]
  {
    var s := a + "::" + b;
    assert PairAt(s, |a|);
    forall j | 0 <= j < |a| ensures !PairAt(s, j) {
      assert !PairAt(a, j);
      assert s[j] == a[j];
    }
    assert FirstPair(s, 0) == |a|;
    assert s[..|a|] == a && s[|a| + 2..] == b;
    OneHalf(b);
  }

  /** A join of non-empty parts without colons has no "::", and no colon at either end. */
  lemma {:induction false} JoinHasNoPair(parts: seq<string>)
    requires forall i :: 0 <= i < |parts| ==> parts[i] != "" && ':' !in parts[i]
    ensures var s := Join(parts, ':');
            NoPair(s) && (s != "" ==> s[0] != ':' && s[|s| - 1] != ':') && (parts != [] ==> s != "")
  {
    if |parts| == 1 {
      var s := parts[0];
      assert forall i :: 0 <= i < |s| ==> s[i] in s;
    } else if parts != [] {
      var (p, rest) := (parts[0], Join(parts[1..], ':'));
      JoinHasNoPair(parts[1..]);
      var s := p + [':'] + rest;
      assert forall i :: 0 <= i < |p| ==> p[i] in p && s[i] == p[i];
      forall i | 0 <= i < |s| ensures !PairAt(s, i) {
        if i > |p| {
          assert !PairAt(rest, i - |p| - 1);
          assert s[i] == rest[i - |p| - 1];
        } else if i == |p| && i + 1 < |s| {
          assert s[i + 1] == rest[0];
        }
      }
    }
  }

  // ----- Decimal numerals -----

  function Decimal(n: nat): (s: string)
    ensures s != "" && forall i :: 0 <= i < |s| ==> '0' <= s[i] <= '9'
  {
    (if n < 10 then "" else Decimal(n / 10)) + [('0' as int + n % 10) as char]
  }

  function DecimalValue(s: string): nat
    requires forall i :: 0 <= i < |s| ==> '0' <= s[i] <= '9'
  {
    if s == "" then 0 else DecimalValue(s[..|s| - 1]) * 10 + (s[|s| - 1] as int - '0' as int)
  }

  lemma {:induction false} DecimalRoundTrip(n: nat)
    ensures DecimalValue(Decimal(n)) == n
  {
    if n >= 10 {
      DecimalRoundTrip(n / 10);
    }
    var s := Decimal(n);
    assert s[..|s| - 1] == if n < 10 then "" else Decimal(n / 10);
  }
}
