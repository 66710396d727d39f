/** What the parts of an address text denote: octets, groups and prefix lengths as positional values
    of their digits, and where a dotted quad may stand among the groups. */
module IpTokens {
  import opened Wrappers
  import opened Bits
  import opened IpFilter
  import opened IpFilterTheorems

  /** `c` is written for the digit `d`: '0' to '9' from code 48, 'A' to 'F' from 65, 'a' to 'f' from 97. */
  predicate IsDigitOf(c: char, d: nat) {
    if d < 10 then c as int == 48 + d else d < 16 && (c as int == 65 + (d - 10) || c as int == 97 + (d - 10))
  }

  ghost predicate DigitsOf(s: string, radix: nat, digits: seq<nat>) {
    |digits| == |s| && forall i :: 0 <= i < |s| ==> digits[i] < radix && IsDigitOf(s[i], digits[i])
  }

  /** `s` is a numeral for `n`. */
  ghost predicate Denotes(s: string, radix: nat, n: nat) {
    exists digits :: DigitsOf(s, radix, digits) && Positional(digits, radix) == n
  }

  lemma {:induction false} NumeralIsPositional(s: string, radix: nat, digits: seq<nat>)
    requires DigitsOf(s, radix, digits) && AllHex(s)
    ensures Numeral(s, radix) == Positional(digits, radix)
  {
    if s != "" {
      NumeralIsPositional(s[..|s| - 1], radix, digits[..|digits| - 1]);
    }
  }

  /** A numeral's value is the positional value of its digits. */
  lemma NumeralIs(s: string, radix: nat, n: nat)
    requires radix == 10 || radix == 16
    ensures Denotes(s, radix, n) <==> (if radix == 10 then AllDigits(s) else AllHex(s)) && Numeral(s, radix) == n
  {
    hide Numeral, Positional;
    if Denotes(s, radix, n) {
      var digits :| DigitsOf(s, radix, digits) && Positional(digits, radix) == n;
      assert forall i :: 0 <= i < |s| ==> IsDigitOf(s[i], digits[i]);
      NumeralIsPositional(s, radix, digits);
    }
    if if radix == 10 then AllDigits(s) else AllHex(s) {
      var digits: seq<nat> := seq(|s|, i requires 0 <= i < |s| => HexDigit(s[i]));
      assert DigitsOf(s, radix, digits);
      NumeralIsPositional(s, radix, digits);
    }
  }

  /** A part of a dotted quad is taken exactly when it is one to three decimal digits for at most 255. */
  lemma OctetIs(part: string, n: nat)
    ensures Octet(part) == Some(n) <==> 1 <= |part| <= 3 && n <= 255 && Denotes(part, 10, n)
  {
    hide Numeral, Denotes;
    NumeralIs(part, 10, n);
  }

  /** A group is taken exactly when it is one to four hexadecimal digits. */
  lemma HexGroupIs(token: string, n: nat)
    ensures HexGroup(token) == Some(n) <==> 1 <= |token| <= 4 && Denotes(token, 16, n)
  {
    hide Numeral, Denotes;
    NumeralIs(token, 16, n);
  }

  /** A run of tokens without a dotted quad: one group for each, and none malformed. */
  lemma {:induction false} GroupsAre(tokens: seq<string>, groups: seq<nat>)
    requires forall i :: 0 <= i < |tokens| ==> '.' !in tokens[i]
    ensures Groups(tokens) == Some(groups)
       <==> |groups| == |tokens|
            && forall i :: 0 <= i < |tokens| ==> 1 <= |tokens[i]| <= 4 && Denotes(tokens[i], 16, groups[i])
    decreases |tokens|
  {
    hide Denotes, HexGroup;
    if tokens != [] {
      if groups != [] {
        GroupsAre(tokens[1..], groups[1..]);
        HexGroupIs(tokens[0], groups[0]);
        assert groups == [groups[0]] + groups[1..];
      }
      if Groups(tokens) == Some(groups) {
        assert groups != [];
      }
    }
  }

  /** A dotted quad is taken as the last token, for the two groups of its value ... */
  lemma {:induction false} QuadIsLast(front: seq<string>, quad: string)
    requires '.' in quad && forall i :: 0 <= i < |front| ==> '.' !in front[i]
    ensures var (g, v) := (Groups(front), ParseV4(quad));
            Groups(front + [quad])
            == if g.Some? && v.Some? then Some(g.value + [v.value / 65536, v.value % 65536]) else None
    decreases |front|
  {
    hide ParseV4, And, HexGroup;
    if front == [] {
      assert [] + [quad] == [quad];
      if ParseV4(quad).Some? {
        var v := ParseV4(quad).value;
        QuadGroups(v);
        assert [] + [v / 65536, v % 65536] == [v / 65536, v % 65536];
      }
    } else {
      assert (front + [quad])[1..] == front[1..] + [quad] && (front + [quad])[0] == front[0];
      QuadIsLast(front[1..], quad);
      if Groups(front).Some? && ParseV4(quad).Some? {
        var (first, rest, v) := (HexGroup(front[0]).value, Groups(front[1..]).value, ParseV4(quad).value);
        assert [first] + rest + [v / 65536, v % 65536] == [first] + (rest + [v / 65536, v % 65536]);
      }
    }
  }

  lemma QuadGroups(v: nat)
    ensures Shr(v, 16) == v / 65536 && And(v, 0xffff) == v % 65536
  {
    hide And;
    Powers();
    AndLow(v, 16);
  }

  /** ... and nowhere else. */
  lemma {:induction false} QuadNowhereElse(tokens: seq<string>, i: nat)
    requires i + 1 < |tokens| && '.' in tokens[i]
    ensures Groups(tokens).None?
    decreases i
  {
    hide ParseV4, HexGroup;
    if i > 0 && '.' !in tokens[0] {
      QuadNowhereElse(tokens[1..], i - 1);
    }
  }
}
