/** What `parseIp` returns for address literals: trimming, the collapse of IPv4-mapped addresses,
    and how far the IPv6 texts it takes are those of section 2.2 of RFC 4291. */
module IpLiterals {
  import opened Wrappers
  import opened Bits
  import opened Text
  import opened IpFilter
  import opened IpFilterTheorems

  // ----- Trimming -----

  predicate AllSpace(s: string) {
    forall i :: 0 <= i < |s| ==> IsSpace(s[i])
  }

  /** A text that `trim` leaves alone, and that is not empty. */
  predicate Trimmed(s: string) {
    s != "" && !IsSpace(s[0]) && !IsSpace(s[|s| - 1])
  }

  function Trim(s: string): string {
    TrimRight(TrimLeft(s))
  }

  lemma {:induction false} TrimLeftStrips(pad: string, s: string)
    requires AllSpace(pad) && s != "" && !IsSpace(s[0])
    ensures TrimLeft(pad + s) == s
  {
    if pad == "" {
      assert pad + s == s;
    } else {
      assert (pad + s)[1..] == pad[1..] + s;
      TrimLeftStrips(pad[1..], s);
    }
  }

  lemma {:induction false} TrimRightStrips(s: string, pad: string)
    requires AllSpace(pad) && s != "" && !IsSpace(s[|s| - 1])
    ensures TrimRight(s + pad) == s
  {
    if pad == "" {
      assert s + pad == s;
    } else {
      var all := s + pad;
      assert all[..|all| - 1] == s + pad[..|pad| - 1];
      TrimRightStrips(s, pad[..|pad| - 1]);
    }
  }

  /** Trimming removes exactly the white space around a text. */
  lemma TrimStrips(before: string, s: string, after: string)
    requires AllSpace(before) && Trimmed(s) && AllSpace(after)
    ensures Trim(before + s + after) == s
  {
    hide IsSpace;
    assert before + s + after == before + (s + after);
    TrimLeftStrips(before, s + after);
    TrimRightStrips(s, after);
  }

  // ----- IPv4 literals -----

  ghost predicate IsQuad(parts: seq<string>) {
    |parts| == 4 && Octets(parts).Some?
  }

  lemma {:induction false} OctetCharacters(parts: seq<string>)
    requires Octets(parts).Some?
    ensures forall i :: 0 <= i < |parts| ==> 1 <= |parts[i]| && AllDigits(parts[i])
    ensures var s := Join(parts, '.'); forall i :: 0 <= i < |s| ==> IsDigit(s[i]) || s[i] == '.'
    ensures parts != [] ==> var s := Join(parts, '.'); s != "" && IsDigit(s[0]) && IsDigit(s[|s| - 1])
  {
    if parts != [] {
      OctetCharacters(parts[1..]);
      assert forall i :: 1 <= i < |parts| ==> parts[i] == parts[1..][i - 1];
    }
  }

  lemma QuadCharacters(parts: seq<string>)
    requires IsQuad(parts)
    ensures forall i :: 0 <= i < 4 ==> '.' !in parts[i]
    ensures var s := Join(parts, '.');
            s != "" && IsDigit(s[0]) && IsDigit(s[|s| - 1]) && '.' in s && ':' !in s && '%' !in s
  {
    OctetCharacters(parts);
    var s := Join(parts, '.');
    assert s[|parts[0]|] == '.';
  }

  lemma NoColonParses(s: string, ip: string)
    requires Trim(s) == ip && ip != "" && ':' !in ip
    ensures ParseIp(s) == if ParseV4(ip).None? then None else Some(Ip(V4, ParseV4(ip).value))
  {
    hide ParseV4, TrimLeft, TrimRight;
  }

  /** A dotted quad, whatever white space stands around it, is the IPv4 address of its positional value. */
  lemma QuadLiteral(before: string, parts: seq<string>, after: string)
    requires IsQuad(parts) && AllSpace(before) && AllSpace(after)
    ensures ParseIp(before + Join(parts, '.') + after) == Some(Ip(V4, Positional(Octets(parts).value, 256)))
  {
    hide ParseIp, ParseV4, Positional, Octets, Join, Trim, Trimmed, AllSpace;
    var quad := Join(parts, '.');
    QuadCharacters(parts);
    QuadIsPositional(parts);
    DigitsAreNoSpace(quad);
    TrimStrips(before, quad, after);
    NoColonParses(before + quad + after, quad);
  }

  lemma DigitsAreNoSpace(s: string)
    requires s != "" && IsDigit(s[0]) && IsDigit(s[|s| - 1])
    ensures Trimmed(s)
  {
  }

  // ----- IPv6 literals -----

  /** The address of a 128-bit value: IPv4-mapped values, whose upper 96 bits are 0xffff, collapse. */
  function Collapsed(p: nat): Ip {
    if p / 0x1_0000_0000 == 0xffff then Ip(V4, p % 0x1_0000_0000) else Ip(V6, p)
  }

  lemma CollapseIs(p: nat)
    ensures Shr(p, 32) == p / 0x1_0000_0000 && And(p, 0xffffffff) == p % 0x1_0000_0000
  {
    Powers();
    AndLow(p, 32);
  }

  lemma ColonParses(s: string, ip: string)
    requires Trim(s) == ip && ip != "" && ':' in ip
    ensures ParseIp(s) == if ParseV6(ip).None? then None else Some(Collapsed(ParseV6(ip).value))
  {
    hide ParseV6, And, Shr, TrimLeft, TrimRight;
    if ParseV6(ip).Some? {
      CollapseIs(ParseV6(ip).value);
    }
  }

  /** Every IPv6 text, in any of the parser's shapes, with or without a zone and with any white
      space around it: it is the address of its positional value, collapsed if it is mapped, and
      no address when its groups are not well-formed. */
  lemma V6Literal(before: string, t: V6Text, zone: string, after: string)
    requires IsText(t) && (zone == "" || zone[0] == '%') && ':' in TextOf(t)
    requires AllSpace(before) && Trimmed(TextOf(t) + zone) && AllSpace(after)
    ensures ParseIp(before + (TextOf(t) + zone) + after)
         == if GroupsIn(t).None? then None else Some(Collapsed(Positional(GroupsIn(t).value, 65536)))
  {
    hide ParseV6, ParseIp, Positional, GroupsIn, TextOf, Trim, Trimmed;
    var text := TextOf(t) + zone;
    V6TextIsPositional(t, zone);
    TrimStrips(before, text, after);
    assert text[IndexOfChar(TextOf(t), ':')] == ':';
    ColonParses(before + text + after, text);
  }

  lemma NotEmpty(s: string)
    requires ParseIp(s).Some?
    ensures Trim(s) != ""
  {
    hide TrimLeft, TrimRight;
  }

  /** Conversely, whatever `parseIp` takes is one of the two, and its value is that. */
  lemma ParsedV6Literal(s: string) returns (t: V6Text)
    requires ParseIp(s).Some? && ':' in Trim(s)
    ensures IsText(t) && Trim(s)[..IndexOfChar(Trim(s), '%')] == TextOf(t) && GroupsIn(t).Some?
    ensures ParseIp(s) == Some(Collapsed(Positional(GroupsIn(t).value, 65536)))
  {
    hide ParseIp, ParseV6, Positional, GroupsIn, TextOf, Trim, IsText, Collapsed;
    var ip := Trim(s);
    ColonParses(s, ip);
    t := ParsedV6IsText(ip);
    var n := IndexOfChar(ip, '%');
    assert ip == TextOf(t) + ip[n..];
    V6TextIsPositional(t, ip[n..]);
  }

  lemma ParsedQuadLiteral(s: string) returns (parts: seq<string>)
    requires ParseIp(s).Some? && ':' !in Trim(s)
    ensures IsQuad(parts) && Trim(s) == Join(parts, '.')
    ensures ParseIp(s) == Some(Ip(V4, Positional(Octets(parts).value, 256)))
  {
    hide ParseIp, ParseV4, Positional, Octets, Join, Trim;
    NotEmpty(s);
    NoColonParses(s, Trim(s));
    parts := ParsedV4IsQuad(Trim(s));
    QuadIsPositional(parts);
  }

  lemma ParsedIpFits(s: string)
    requires ParseIp(s).Some?
    ensures ParseIp(s).value.value < Pow2(BitsOf(ParseIp(s).value.version))
  {
    hide ParseV6, ParseV4, And, Shr;
    var ip := Trim(s);
    Powers();
    if ':' in ip {
      ColonParses(s, ip);
      var t := ParsedV6IsText(ip);
    } else {
      var parts := ParsedV4IsQuad(ip);
    }
  }

  // ----- Which addresses are mapped -----

  lemma {:induction false} ZeroIsAllZeros(digits: seq<nat>, base: nat)
    requires base > 0
    ensures Positional(digits, base) == 0 <==> forall i :: 0 <= i < |digits| ==> digits[i] == 0
  {
    if digits != [] {
      var (front, last) := (digits[..|digits| - 1], digits[|digits| - 1]);
      ZeroIsAllZeros(front, base);
      ProductIsZero(Positional(front, base), base, last);
      assert forall i :: 0 <= i < |front| ==> front[i] == digits[i];
    }
  }

  lemma ProductIsZero(a: nat, base: nat, d: nat)
    requires base > 0
    ensures a * base + d == 0 <==> a == 0 && d == 0
  {
    if a > 0 {
      MulMonotone(1, a, base);
    }
  }

  lemma LastTwo(g: seq<nat>)
    requires |g| == 8
    ensures Positional(g, 65536) == (Positional(g[..6], 65536) * 65536 + g[6]) * 65536 + g[7]
    ensures Positional(g[..6], 65536) == Positional(g[..5], 65536) * 65536 + g[5]
  {
    assert g[..7][..6] == g[..6] && g[..6][..5] == g[..5];
  }

  /** The first five groups are zero and the sixth is ffff. */
  predicate MappedGroups(g: seq<nat>)
    requires |g| == 8
  {
    g[5] == 0xffff && forall i :: 0 <= i < 5 ==> g[i] == 0
  }

  lemma MappedValueIs(g: seq<nat>)
    requires |g| == 8 && forall i :: 0 <= i < 8 ==> g[i] < 65536
    ensures var p := Positional(g, 65536);
            && (p / 0x1_0000_0000 == 0xffff <==> MappedGroups(g))
            && p % 0x1_0000_0000 == g[6] * 65536 + g[7]
  {
    hide Positional;
    LastTwo(g);
    ZeroIsAllZeros(g[..5], 65536);
    assert forall i :: 0 <= i < 5 ==> g[..5][i] == g[i];
  }

  /** Every spelling of an IPv4-mapped address, and no other IPv6 text, is the IPv4 address of its
      last 32 bits. */
  lemma MappedCollapses(before: string, t: V6Text, zone: string, after: string)
    requires IsText(t) && (zone == "" || zone[0] == '%') && ':' in TextOf(t) && GroupsIn(t).Some?
    requires AllSpace(before) && Trimmed(TextOf(t) + zone) && AllSpace(after)
    ensures |GroupsIn(t).value| == 8
    ensures var (g, r) := (GroupsIn(t).value, ParseIp(before + (TextOf(t) + zone) + after));
            if MappedGroups(g) then r == Some(Ip(V4, g[6] * 65536 + g[7])) else r == Some(Ip(V6, Positional(g, 65536)))
  {
    hide ParseIp, Positional, TextOf, GroupsIn, Trimmed, MappedGroups;
    V6Literal(before, t, zone, after);
    GroupsInAreSmall(t);
    MappedValueIs(GroupsIn(t).value);
  }

  lemma NumeralSnoc(s: string, c: char, radix: nat)
    requires AllHex(s) && IsHexDigit(c)
    ensures AllHex(s + [c]) && Numeral(s + [c], radix) == Numeral(s, radix) * radix + HexDigit(c)
  {
    assert (s + [c])[..|s|] == s;
  }

  lemma Ffff()
    ensures AllHex("ffff") && Numeral("ffff", 16) == 0xffff
  {
    NumeralSnoc("", 'f', 16);
    NumeralSnoc("f", 'f', 16);
    NumeralSnoc("ff", 'f', 16);
    NumeralSnoc("fff", 'f', 16);
    assert "" + ['f'] == "f" && "f" + ['f'] == "ff" && "ff" + ['f'] == "fff" && "fff" + ['f'] == "ffff";
  }

  lemma GroupsOfMappedQuad(quad: string, v: nat)
    requires ParseV4(quad) == Some(v) && '.' in quad
    ensures GroupsIn(Compressed([], ["ffff", quad])) == Some([0, 0, 0, 0, 0, 0xffff, Shr(v, 16), And(v, 0xffff)])
  {
    var tokens := ["ffff", quad];
    assert tokens[1..] == [quad];
    assert Groups([quad]) == Some([Shr(v, 16), And(v, 0xffff)]);
    Ffff();
    assert Groups(tokens) == Some([0xffff] + [Shr(v, 16), And(v, 0xffff)]);
    var g := [0xffff] + [Shr(v, 16), And(v, 0xffff)];
    assert [] + Zeros(5) + g == [0, 0, 0, 0, 0, 0xffff, Shr(v, 16), And(v, 0xffff)];
  }

  lemma JoinTwo(a: string, b: string)
    ensures Join([a, b], ':') == a + ":" + b
  {
    assert [a, b][1..] == [b];
  }

  lemma JoinNone(tokens: seq<string>)
    requires tokens == []
    ensures Join(tokens, ':') == ""
  {
  }

  lemma MappedText(quad: string)
    ensures TextOf(Compressed([], ["ffff", quad])) == "::ffff:" + quad
  {
    hide Join;
    JoinNone([]);
    JoinTwo("ffff", quad);
  }

  /** The usual spelling of one: "::ffff:" before a dotted quad is the same address as the quad. */
  lemma MappedQuad(before: string, parts: seq<string>, after: string)
    requires IsQuad(parts) && AllSpace(before) && AllSpace(after)
    ensures ParseIp(before + ("::ffff:" + Join(parts, '.')) + after) == ParseIp(before + Join(parts, '.') + after)
  {
    hide ParseIp, ParseV4, Positional, Octets, Join, AllSpace;
    var quad := Join(parts, '.');
    QuadCharacters(parts);
    QuadIsPositional(parts);
    QuadLiteral(before, parts, after);
    MappedIsTrimmed(quad);
    MappedOf(before, "::ffff:" + quad, quad, ParseV4(quad).value, after);
  }

  lemma MappedOf(before: string, text: string, quad: string, v: nat, after: string)
    requires text == "::ffff:" + quad && Trimmed(text) && ':' in text && AllSpace(before) && AllSpace(after)
    requires ParseV4(quad) == Some(v) && v < Pow2(32) && '.' in quad && quad != "" && ':' !in quad && '%' !in quad
    ensures ParseIp(before + text + after) == Some(Ip(V4, v))
  {
    hide ParseIp, ParseV4, Positional, And, Shr, Groups, GroupsIn, AllSpace, TextOf, Trimmed, Pow2;
    var t := Compressed([], ["ffff", quad]);
    GroupsOfMappedQuad(quad, v);
    QuadHalves(v);
    MappedText(quad);
    assert TextOf(t) + "" == text;
    MappedCollapses(before, t, "", after);
  }

  lemma MappedIsTrimmed(quad: string)
    requires quad != "" && IsDigit(quad[|quad| - 1])
    ensures Trimmed("::ffff:" + quad) && ':' in "::ffff:" + quad
  {
    var s := "::ffff:" + quad;
    assert s[0] == ':' && s[|s| - 1] == quad[|quad| - 1];
  }

  // ----- The forms of RFC 4291 -----

  predicate IsHexToken(token: string) {
    1 <= |token| <= 4 && AllHex(token)
  }

  predicate AllHexTokens(tokens: seq<string>) {
    forall i :: 0 <= i < |tokens| ==> IsHexToken(tokens[i])
  }

  /** Groups of one to four hexadecimal digits, the last of which a dotted quad may replace. */
  predicate EndsInQuad(tokens: seq<string>) {
    && tokens != [] && AllHexTokens(tokens[..|tokens| - 1])
    && var last := tokens[|tokens| - 1];
       '.' in last && ParseV4(last).Some?
  }

  /** How many 16-bit groups a run stands for. */
  function Units(tokens: seq<string>): nat {
    |tokens| + if EndsInQuad(tokens) then 1 else 0
  }

  /** Section 2.2 of RFC 4291: eight groups, or fewer with one "::" for the rest, and a dotted quad
      only in place of the last two groups of the address. */
  predicate IsRfcForm(t: V6Text) {
    match t
    case Full(tokens) => (AllHexTokens(tokens) || EndsInQuad(tokens)) && Units(tokens) == 8
    case Compressed(head, tail) =>
      AllHexTokens(head) && (AllHexTokens(tail) || EndsInQuad(tail)) && |head| + Units(tail) <= 7
  }

  lemma HexHasNoDot(token: string)
    requires AllHex(token)
    ensures '.' !in token
  {
    assert forall i :: 0 <= i < |token| ==> IsHexDigit(token[i]);
  }

  /** A run has groups exactly when it is such tokens, and then as many. */
  lemma {:induction false} GroupsAreUnits(tokens: seq<string>)
    ensures Groups(tokens).Some? <==> AllHexTokens(tokens) || EndsInQuad(tokens)
    ensures Groups(tokens).Some? ==> |Groups(tokens).value| == Units(tokens)
  {
    hide ParseV4, AllHex, And, Shr;
    if tokens != [] {
      var rest := tokens[1..];
      GroupsAreUnits(rest);
      if rest != [] {
        assert tokens[..|tokens| - 1][1..] == rest[..|rest| - 1];
        FirstOfTokens(tokens[0], rest);
        FirstOfTokens(tokens[0], rest[..|rest| - 1]);
        assert [tokens[0]] + rest == tokens && [tokens[0]] + rest[..|rest| - 1] == tokens[..|tokens| - 1];
      }
      if IsHexToken(tokens[0]) {
        HexHasNoDot(tokens[0]);
      }
    }
  }

  lemma FirstOfTokens(first: string, rest: seq<string>)
    ensures AllHexTokens([first] + rest) <==> IsHexToken(first) && AllHexTokens(rest)
  {
    var all := [first] + rest;
    if AllHexTokens(all) {
      assert IsHexToken(all[0]);
      forall i | 0 <= i < |rest| ensures IsHexToken(rest[i]) {
        assert IsHexToken(all[i + 1]);
      }
    } else if IsHexToken(first) {
      var i :| 0 <= i < |all| && !IsHexToken(all[i]);
      assert !IsHexToken(rest[i - 1]);
    }
  }

  predicate NoDots(tokens: seq<string>) {
    forall i :: 0 <= i < |tokens| ==> '.' !in tokens[i]
  }

  lemma DotsTell(tokens: seq<string>)
    ensures AllHexTokens(tokens) ==> NoDots(tokens) && !EndsInQuad(tokens)
    ensures EndsInQuad(tokens) ==> !NoDots(tokens)
  {
    forall i | 0 <= i < |tokens| && IsHexToken(tokens[i]) ensures '.' !in tokens[i] {
      HexHasNoDot(tokens[i]);
    }
    if EndsInQuad(tokens) {
      var last := |tokens| - 1;
      assert '.' in tokens[last];
    }
  }

  /** Conformance to section 2.2 of RFC 4291. Every text of the RFC's forms is taken; and a text
      that is taken has one of those forms if and only if no dotted quad stands before a "::",
      which the parser checks per run and not for the whole address. */
  lemma Rfc4291Exactly(t: V6Text, zone: string)
    requires IsText(t) && (zone == "" || zone[0] == '%')
    ensures IsRfcForm(t) ==> ParseV6(TextOf(t) + zone).Some?
    ensures ParseV6(TextOf(t) + zone).Some? ==> (IsRfcForm(t) <==> t.Full? || NoDots(t.head))
  {
    hide ParseV6, EndsInQuad, AllHexTokens, NoDots, Groups;
    V6TextIsPositional(t, zone);
    match t {
      case Full(tokens) =>
        GroupsAreUnits(tokens);
      case Compressed(head, tail) =>
        GroupsAreUnits(head);
        GroupsAreUnits(tail);
        DotsTell(head);
    }
  }

  /** The text decides its shape, so having one of the forms is a property of the text. */
  lemma ShapeIsUnique(t: V6Text, u: V6Text)
    requires IsText(t) && IsText(u) && TextOf(t) == TextOf(u)
    ensures t == u
  {
    hide Join, SplitPairs;
    PairsOf(t);
    PairsOf(u);
    match t {
      case Full(tokens) => RunIsUnique(tokens, u.tokens);
      case Compressed(head, tail) =>
        RunIsUnique(head, u.head);
        RunIsUnique(tail, u.tail);
    }
  }

  lemma PairsOf(t: V6Text)
    requires IsText(t)
    ensures SplitPairs(TextOf(t))
         == match t
            case Full(tokens) => [Join(tokens, ':')]
            case Compressed(head, tail) => [Join(head, ':'), Join(tail, ':')]
  {
    hide Join, SplitPairs, NoPair;
    match t {
      case Full(tokens) =>
        JoinHasNoPair(tokens);
        OneHalf(TextOf(t));
      case Compressed(head, tail) =>
        JoinHasNoPair(head);
        JoinHasNoPair(tail);
        TwoHalves(Join(head, ':'), Join(tail, ':'));
    }
  }

  lemma RunIsUnique(a: seq<string>, b: seq<string>)
    requires Tokens(a) && Tokens(b) && Join(a, ':') == Join(b, ':')
    ensures a == b
  {
    JoinHasNoPair(a);
    JoinHasNoPair(b);
    if a != [] && b != [] {
      SplitJoin(a, ':');
      SplitJoin(b, ':');
    }
  }

  /** The texts taken against the RFC: a run of groups that ends in a dotted quad, "::", and any
      run that fits, "1.2.3.4::" and "1.2.3.4::5" among them. */
  lemma QuadBeforeCompressionIsTaken(head: seq<string>, tail: seq<string>)
    requires Tokens(head) && Tokens(tail) && EndsInQuad(head)
    requires (AllHexTokens(tail) || EndsInQuad(tail)) && Units(head) + Units(tail) <= 7
    ensures ParseV6(TextOf(Compressed(head, tail))).Some? && !IsRfcForm(Compressed(head, tail))
  {
    hide ParseV6, EndsInQuad, AllHexTokens, TextOf;
    var t := Compressed(head, tail);
    GroupsAreUnits(head);
    GroupsAreUnits(tail);
    DotsTell(head);
    V6TextIsPositional(t, "");
    assert TextOf(t) + "" == TextOf(t);
  }
}
