/** Address text denotes its positional value (section 2.2 of RFC 4291). */
module IpFilterTheorems {
  import opened Wrappers
  import opened Bits
  import opened Text
  import opened IpFilter

  // ----- Positional value -----

  function Positional(digits: seq<nat>, base: nat): nat {
    if digits == [] then 0 else Positional(digits[..|digits| - 1], base) * base + digits[|digits| - 1]
  }

  function Fold(digits: seq<nat>, base: nat, value: nat): nat {
    if digits == [] then value else Fold(digits[1..], base, value * base + digits[0])
  }

  lemma {:induction false} FoldSnoc(digits: seq<nat>, x: nat, base: nat, value: nat)
    ensures Fold(digits + [x], base, value) == Fold(digits, base, value) * base + x
    decreases |digits|
  {
    if digits == [] {
      assert [x][1..] == [] && digits + [x] == [x];
    } else {
      assert (digits + [x])[1..] == digits[1..] + [x];
      FoldSnoc(digits[1..], x, base, value * base + digits[0]);
    }
  }

  lemma {:induction false} FoldIsPositional(digits: seq<nat>, base: nat)
    ensures Fold(digits, base, 0) == Positional(digits, base)
  {
    if digits != [] {
      var (front, last) := (digits[..|digits| - 1], digits[|digits| - 1]);
      assert digits == front + [last];
      FoldIsPositional(front, base);
      FoldSnoc(front, last, base, 0);
    }
  }

  lemma {:induction false} PositionalBound(digits: seq<nat>, width: nat)
    requires forall i :: 0 <= i < |digits| ==> digits[i] < Pow2(width)
    ensures Positional(digits, Pow2(width)) < Pow2(width * |digits|)
  {
    if digits != [] {
      var (front, base) := (digits[..|digits| - 1], Pow2(width));
      PositionalBound(front, width);
      OneMoreDigit(Positional(front, base), digits[|digits| - 1], base, Pow2(width * |front|));
      assert width * |digits| == width * |front| + width;
      Pow2Adds(width * |front|, width);
    }
  }

  lemma OneMoreDigit(p: nat, d: nat, base: nat, bound: nat)
    requires p < bound && d < base
    ensures p * base + d < bound * base
  {
    MulMonotone(p + 1, bound, base);
  }

  lemma Powers()
    ensures Pow2(8) == 256 && Pow2(16) == 65536 && Pow2(32) == 0x1_0000_0000
  {
    Pow2Adds(8, 8);
    Pow2Adds(16, 16);
  }

  // ----- Dotted quads -----

  function Octets(parts: seq<string>): Option<seq<nat>> {
    if parts == [] then Some([])
    else
      var (first, rest) := (Octet(parts[0]), Octets(parts[1..]));
      if first.None? || rest.None? then None else Some([first.value] + rest.value)
  }

  lemma {:induction false} OctetsAreSmall(parts: seq<string>)
    ensures Octets(parts).Some? ==>
              |Octets(parts).value| == |parts|
              && forall i :: 0 <= i < |parts| ==> Octets(parts).value[i] < 256
  {
    if parts != [] {
      OctetsAreSmall(parts[1..]);
    }
  }

  lemma {:induction false} OctetsFold(parts: seq<string>, value: nat)
    ensures FoldOctets(parts, value)
         == if Octets(parts).None? then None else Some(Fold(Octets(parts).value, 256, value))
    decreases |parts|
  {
    if parts != [] && Octet(parts[0]).Some? {
      var n := Octet(parts[0]).value;
      Powers();
      OrIsPlus(value, n, 8);
      OctetsFold(parts[1..], value * 256 + n);
      if Octets(parts[1..]).Some? {
        var rest := Octets(parts[1..]).value;
        assert ([n] + rest)[1..] == rest;
      }
    }
  }

  /** Every dotted quad, and nothing else, parses, to its positional value below 2^32. */
  lemma QuadIsPositional(parts: seq<string>)
    requires |parts| == 4 && forall i :: 0 <= i < 4 ==> '.' !in parts[i]
    ensures ParseV4(Join(parts, '.'))
         == if Octets(parts).None? then None else Some(Positional(Octets(parts).value, 256))
    ensures ParseV4(Join(parts, '.')).Some? ==> ParseV4(Join(parts, '.')).value < Pow2(32)
  {
    SplitJoin(parts, '.');
    OctetsFold(parts, 0);
    OctetsAreSmall(parts);
    Powers();
    if Octets(parts).Some? {
      FoldIsPositional(Octets(parts).value, 256);
      PositionalBound(Octets(parts).value, 8);
    }
  }

  /** Whatever parses is a dotted quad. */
  lemma ParsedV4IsQuad(s: string) returns (parts: seq<string>)
    requires ParseV4(s).Some?
    ensures |parts| == 4 && (forall i :: 0 <= i < 4 ==> '.' !in parts[i])
    ensures s == Join(parts, '.') && Octets(parts).Some?
    ensures ParseV4(s).value < Pow2(32)
  {
    parts := Split(s, '.');
    JoinSplit(s, '.');
    QuadIsPositional(parts);
  }

  // ----- IPv6 text -----

  /** The shapes the parser takes: one run of groups in full, or two runs around "::". */
  datatype V6Text = Full(tokens: seq<string>) | Compressed(head: seq<string>, tail: seq<string>)

  ghost predicate Tokens(tokens: seq<string>) {
    forall i :: 0 <= i < |tokens| ==> tokens[i] != "" && ':' !in tokens[i] && '%' !in tokens[i]
  }

  ghost predicate IsText(t: V6Text) {
    match t
    case Full(tokens) => tokens != [] && Tokens(tokens)
    case Compressed(head, tail) => Tokens(head) && Tokens(tail)
  }

  function TextOf(t: V6Text): string {
    match t
    case Full(tokens) => Join(tokens, ':')
    case Compressed(head, tail) => Join(head, ':') + "::" + Join(tail, ':')
  }

  /** The eight groups a text stands for, "::" standing for at least one zero group. */
  function GroupsIn(t: V6Text): Option<seq<nat>> {
    match t
    case Full(tokens) =>
      if Groups(tokens).Some? && |Groups(tokens).value| == 8 then Groups(tokens) else None
    case Compressed(head, tail) =>
      var (h, u) := (Groups(head), Groups(tail));
      if h.Some? && u.Some? && |h.value| + |u.value| <= 7
      then Some(h.value + Zeros(8 - |h.value| - |u.value|) + u.value) else None
  }

  lemma QuadHalves(v: nat)
    requires v < Pow2(32)
    ensures Shr(v, 16) < 65536 && And(v, 0xffff) < 65536 && Shr(v, 16) * 65536 + And(v, 0xffff) == v
  {
    Powers();
    AndLow(v, 16);
  }

  lemma {:induction false} NumeralBound(s: string)
    requires AllHex(s) && |s| <= 4
    ensures Numeral(s, 16) < Pow2(4 * |s|) <= 65536
  {
    if s != "" {
      NumeralBound(s[..|s| - 1]);
      Pow2Adds(4 * (|s| - 1), 4);
      assert Pow2(4) == 16;
    }
    Powers();
    Pow2Adds(4 * |s|, 16 - 4 * |s|);
    MulMonotone(1, Pow2(16 - 4 * |s|), Pow2(4 * |s|));
  }

  lemma {:induction false} GroupsAreSmall(tokens: seq<string>)
    ensures Groups(tokens).Some? ==> forall i :: 0 <= i < |Groups(tokens).value| ==> Groups(tokens).value[i] < 65536
  {
    if tokens != [] && Groups(tokens).Some? {
      if '.' in tokens[0] {
        var parts := ParsedV4IsQuad(tokens[0]);
        QuadHalves(ParseV4(tokens[0]).value);
      } else {
        NumeralBound(tokens[0]);
        GroupsAreSmall(tokens[1..]);
      }
    }
  }

  lemma {:induction false} GroupsFold(groups: seq<nat>, value: nat)
    requires forall i :: 0 <= i < |groups| ==> groups[i] < 65536
    ensures FoldGroups(groups, value) == Fold(groups, 65536, value)
    decreases |groups|
  {
    if groups != [] {
      Powers();
      OrIsPlus(value, groups[0], 16);
      GroupsFold(groups[1..], value * 65536 + groups[0]);
    }
  }

  lemma GroupsOfJoin(tokens: seq<string>)
    requires Tokens(tokens)
    ensures GroupsOf(Join(tokens, ':')) == Groups(tokens)
  {
    JoinHasNoPair(tokens);
    if tokens != [] {
      SplitJoin(tokens, ':');
    }
  }

  lemma {:induction false} JoinHasNoPercent(tokens: seq<string>)
    requires Tokens(tokens)
    ensures '%' !in Join(tokens, ':')
  {
    if |tokens| > 1 {
      JoinHasNoPercent(tokens[1..]);
    }
  }

  lemma HalvesOfText(t: V6Text)
    requires IsText(t)
    ensures Assemble(SplitPairs(TextOf(t))) == GroupsIn(t) && '%' !in TextOf(t)
  {
    hide Join, SplitPairs, NoPair, Groups, Zeros;
    match t {
      case Full(tokens) =>
        JoinHasNoPair(tokens);
        OneHalf(TextOf(t));
        GroupsOfJoin(tokens);
        JoinHasNoPercent(tokens);
      case Compressed(head, tail) =>
        JoinHasNoPair(head);
        JoinHasNoPair(tail);
        TwoHalves(Join(head, ':'), Join(tail, ':'));
        GroupsOfJoin(head);
        GroupsOfJoin(tail);
        JoinHasNoPercent(head);
        JoinHasNoPercent(tail);
    }
  }

  lemma FirstCharIs(s: string, rest: string, c: char)
    requires c !in s && (rest == "" || rest[0] == c)
    ensures IndexOfChar(s + rest, c) == |s|
  {
    assert forall j :: 0 <= j < |s| ==> s[j] != c && (s + rest)[j] == s[j];
    assert rest != "" ==> (s + rest)[|s|] == c;
  }

  lemma GroupsInAreSmall(t: V6Text)
    ensures GroupsIn(t).Some? ==>
              |GroupsIn(t).value| == 8 && forall i :: 0 <= i < 8 ==> GroupsIn(t).value[i] < 65536
  {
    match t {
      case Full(tokens) => GroupsAreSmall(tokens);
      case Compressed(head, tail) =>
        GroupsAreSmall(head);
        GroupsAreSmall(tail);
    }
  }

  /** Every full, "::"-compressed or dotted-tail IPv6 text, with or without a zone, parses to
      the positional value of its eight groups, below 2^128; a text of that shape whose groups
      are not well-formed does not parse. */
  lemma V6TextIsPositional(t: V6Text, zone: string)
    requires IsText(t) && (zone == "" || zone[0] == '%')
    ensures ParseV6(TextOf(t) + zone)
         == if GroupsIn(t).None? then None else Some(Positional(GroupsIn(t).value, 65536))
    ensures GroupsIn(t).Some? ==> Positional(GroupsIn(t).value, 65536) < Pow2(128)
  {
    HalvesOfText(t);
    FirstCharIs(TextOf(t), zone, '%');
    assert (TextOf(t) + zone)[..|TextOf(t)|] == TextOf(t);
    if GroupsIn(t).Some? {
      GroupsInAreSmall(t);
      EightGroups(GroupsIn(t).value);
    }
  }

  lemma EightGroups(groups: seq<nat>)
    requires |groups| == 8 && forall i :: 0 <= i < 8 ==> groups[i] < 65536
    ensures FoldGroups(groups, 0) == Positional(groups, 65536) < Pow2(128)
  {
    GroupsFold(groups, 0);
    FoldIsPositional(groups, 65536);
    Powers();
    PositionalBound(groups, 16);
  }

  lemma {:induction false} GroupedTokensAreNonEmpty(tokens: seq<string>)
    requires Groups(tokens).Some?
    ensures forall i :: 0 <= i < |tokens| ==> tokens[i] != ""
  {
    if tokens != [] && '.' !in tokens[0] {
      GroupedTokensAreNonEmpty(tokens[1..]);
      assert forall i :: 1 <= i < |tokens| ==> tokens[i] == tokens[1..][i - 1];
    }
  }

  lemma {:induction false} PartsOfSubset(s: string, c: char, d: char)
    requires d !in s
    ensures forall i :: 0 <= i < |Split(s, c)| ==> d !in Split(s, c)[i]
  {
    if s != "" {
      PartsOfSubset(s[1..], c, d);
    }
  }

  /** A run that has groups is the join of its tokens. */
  lemma RunIsJoin(part: string) returns (tokens: seq<string>)
    requires GroupsOf(part).Some? && '%' !in part
    ensures Tokens(tokens) && part == Join(tokens, ':') && (part != "" ==> tokens != [])
  {
    if part == "" {
      tokens := [];
    } else {
      tokens := Split(part, ':');
      JoinSplit(part, ':');
      GroupedTokensAreNonEmpty(tokens);
      PartsOfSubset(part, ':', '%');
    }
  }

  /** Whatever parses as IPv6 is a text of that shape, up to its zone. */
  lemma ParsedV6IsText(s: string) returns (t: V6Text)
    requires ParseV6(s).Some?
    ensures IsText(t) && s[..IndexOfChar(s, '%')] == TextOf(t) && GroupsIn(t).Some?
    ensures ParseV6(s).value < Pow2(128)
  {
    var n := IndexOfChar(s, '%');
    assert '%' !in s[..n];
    t := AssembledIsText(s[..n]);
    HalvesOfText(t);
    assert s == TextOf(t) + s[n..];
    V6TextIsPositional(t, s[n..]);
  }

  lemma AssembledIsText(ip: string) returns (t: V6Text)
    requires Assemble(SplitPairs(ip)).Some? && '%' !in ip
    ensures IsText(t) && ip == TextOf(t)
  {
    var halves := SplitPairs(ip);
    if |halves| == 1 {
      var tokens := RunIsJoin(ip);
      t := Full(tokens);
    } else {
      var i := FirstPair(ip, 0);
      OneHalf(ip[i + 2..]);
      assert halves == [ip[..i], ip[i + 2..]];
      var head := RunIsJoin(ip[..i]);
      var tail := RunIsJoin(ip[i + 2..]);
      t := Compressed(head, tail);
      assert ip == ip[..i] + "::" + ip[i + 2..];
    }
  }
}
