/** plugins/ip-filter/src/cidr.ts: address literals as integers, and CIDR membership. */
module IpFilter {
  import opened Wrappers
  import opened Bits
  import opened Text

  datatype Version = V4 | V6

  datatype Ip = Ip(version: Version, value: nat)

  datatype Cidr = Cidr(version: Version, base: nat, prefix: nat)

  function BitsOf(v: Version): nat {
    if v == V4 then 32 else 128
  }

  predicate IsDigit(c: char) {
    '0' <= c <= '9'
  }

  predicate IsHexDigit(c: char) {
    IsDigit(c) || 'a' <= c <= 'f' || 'A' <= c <= 'F'
  }

  function HexDigit(c: char): (d: nat)
    requires IsHexDigit(c)
    ensures d < 16
  {
    if IsDigit(c) then c as int - '0' as int
    else if 'a' <= c <= 'f' then c as int - 'a' as int + 10
    else c as int - 'A' as int + 10
  }

  predicate AllDigits(s: string) {
    forall i :: 0 <= i < |s| ==> IsDigit(s[i])
  }

  predicate AllHex(s: string) {
    forall i :: 0 <= i < |s| ==> IsHexDigit(s[i])
  }

  /** The digits of `s` read in `radix`. */
  function Numeral(s: string, radix: nat): nat
    requires AllHex(s)
  {
    if s == "" then 0 else Numeral(s[..|s| - 1], radix) * radix + HexDigit(s[|s| - 1])
  }

  /** One part of a dotted quad: one to three digits, at most 255. */
  function Octet(part: string): (n: Option<nat>)
    ensures n.Some? ==> n.value < 256
  {
    if 1 <= |part| <= 3 && AllDigits(part) && Numeral(part, 10) <= 255 then Some(Numeral(part, 10)) else None
  }

  function FoldOctets(parts: seq<string>, value: nat): Option<nat> {
    if parts == [] then Some(value)
    else if Octet(parts[0]).None? then None
    else FoldOctets(parts[1..], Or(Shl(value, 8), Octet(parts[0]).value))
  }

  function ParseV4(input: string): Option<nat> {
    var parts := Split(input, '.');
    if |parts| != 4 then None else FoldOctets(parts, 0)
  }

  /** One to four hexadecimal digits. */
  function HexGroup(token: string): Option<nat> {
    if 1 <= |token| <= 4 && AllHex(token) then Some(Numeral(token, 16)) else None
  }

  /** The groups of one colon-separated run; a dotted quad is allowed as its last token only. */
  function Groups(tokens: seq<string>): Option<seq<nat>> {
    if tokens == [] then Some([])
    else if '.' in tokens[0] then
      var v4 := ParseV4(tokens[0]);
      if |tokens| != 1 || v4.None? then None
      else Some([Shr(v4.value, 16), And(v4.value, 0xffff)])
    else
      var (first, rest) := (HexGroup(tokens[0]), Groups(tokens[1..]));
      if first.None? || rest.None? then None else Some([first.value] + rest.value)
  }

  function GroupsOf(part: string): Option<seq<nat>> {
    if part == "" then Some([]) else Groups(Split(part, ':'))
  }

  function Zeros(n: nat): seq<nat> {
    seq(n, _ => 0)
  }

  /** The eight groups of the halves around "::". */
  function Assemble(halves: seq<string>): Option<seq<nat>>
    requires |halves| >= 1
  {
    if |halves| > 2 then None
    else
      var head := GroupsOf(halves[0]);
      if head.None? then None
      else if |halves| == 2 then
        var tail := GroupsOf(halves[1]);
        if tail.None? || |head.value| + |tail.value| > 7 then None
        else Some(head.value + Zeros(8 - |head.value| - |tail.value|) + tail.value)
      else if |head.value| != 8 then None
      else head
  }

  function FoldGroups(groups: seq<nat>, value: nat): nat {
    if groups == [] then value else FoldGroups(groups[1..], Or(Shl(value, 16), groups[0]))
  }

  /** The place of the first `c`, or |s|. */
  function IndexOfChar(s: string, c: char): (i: nat)
    ensures i <= |s|
    ensures i < |s| ==> s[i] == c
    ensures forall j :: 0 <= j < i ==> s[j] != c
  {
    if s == "" || s[0] == c then 0 else 1 + IndexOfChar(s[1..], c)
  }

  function ParseV6(input: string): Option<nat> {
    var groups := Assemble(SplitPairs(input[..IndexOfChar(input, '%')]));
    if groups.None? then None else Some(FoldGroups(groups.value, 0))
  }

  // ----- The loops, as the code runs them -----

  method DoParseV4(input: string) returns (r: Option<nat>)
    ensures r == ParseV4(input)
  {
    var parts := Split(input, '.');
    if |parts| != 4 {
      return None;
    }
    var value: nat := 0;
    for i := 0 to |parts|
      invariant FoldOctets(parts[i..], value) == FoldOctets(parts, 0)
    {
      var part := parts[i];
      assert parts[i..][0] == part && parts[i..][1..] == parts[i + 1..];
      if !(1 <= |part| <= 3 && AllDigits(part)) {
        return None;
      }
      var n := Numeral(part, 10);
      if n > 255 {
        return None;
      }
      value := Or(Shl(value, 8), n);
    }
    return Some(value);
  }

  method DoGroupsOf(part: string) returns (r: Option<seq<nat>>)
    ensures r == GroupsOf(part)
  {
    if part == "" {
      return Some([]);
    }
    var tokens := Split(part, ':');
    var out: seq<nat> := [];
    PrependAssociates([], [], Groups(tokens));
    for i := 0 to |tokens|
      invariant Groups(tokens) == Prepend(out, Groups(tokens[i..]))
    {
      var token := tokens[i];
      assert tokens[i..][0] == token && tokens[i..][1..] == tokens[i + 1..];
      if '.' in token {
        if i != |tokens| - 1 {
          return None;
        }
        var v4 := DoParseV4(token);
        if v4.None? {
          return None;
        }
        var pair := [Shr(v4.value, 16), And(v4.value, 0xffff)];
        assert tokens[i + 1..] == [] && pair + [] == pair;
        assert Groups(tokens[i..]) == Prepend(pair, Groups(tokens[i + 1..]));
        PrependAssociates(out, pair, Groups(tokens[i + 1..]));
        out := out + pair;
      } else {
        if !(1 <= |token| <= 4 && AllHex(token)) {
          return None;
        }
        assert Groups(tokens[i..]) == Prepend([Numeral(token, 16)], Groups(tokens[i + 1..]));
        PrependAssociates(out, [Numeral(token, 16)], Groups(tokens[i + 1..]));
        out := out + [Numeral(token, 16)];
      }
    }
    assert tokens[|tokens|..] == [] && out + [] == out;
    return Some(out);
  }

  function Prepend(front: seq<nat>, rest: Option<seq<nat>>): Option<seq<nat>> {
    if rest.None? then None else Some(front + rest.value)
  }

  lemma PrependAssociates(a: seq<nat>, b: seq<nat>, rest: Option<seq<nat>>)
    ensures Prepend(a, Prepend(b, rest)) == Prepend(a + b, rest)
    ensures Prepend([], rest) == rest
  {
    if rest.Some? {
      assert a + (b + rest.value) == a + b + rest.value && [] + rest.value == rest.value;
    }
  }

  method DoParseV6(input: string) returns (r: Option<nat>)
    ensures r == ParseV6(input)
  {
    var zone := IndexOfChar(input, '%');
    var ip := if zone == |input| then input else input[..zone];
    assert ip == input[..zone];
    var halves := SplitPairs(ip);
    if |halves| > 2 {
      return None;
    }
    var head := DoGroupsOf(halves[0]);
    if head.None? {
      return None;
    }
    var groups: seq<nat>;
    if |halves| == 2 {
      var tail := DoGroupsOf(halves[1]);
      if tail.None? {
        return None;
      }
      var missing := 8 - |head.value| - |tail.value|;
      if missing < 1 {
        return None;
      }
      groups := head.value + Zeros(missing) + tail.value;
    } else {
      groups := head.value;
    }
    if |groups| != 8 {
      return None;
    }
    var value: nat := 0;
    for i := 0 to |groups|
      invariant FoldGroups(groups[i..], value) == FoldGroups(groups, 0)
    {
      assert groups[i..][0] == groups[i] && groups[i..][1..] == groups[i + 1..];
      value := Or(Shl(value, 16), groups[i]);
    }
    return Some(value);
  }

  // ----- Literals -----

  /** The characters `String.trim` removes. */
  predicate IsSpace(c: char) {
    var n := c as int;
    n in {0x09, 0x0a, 0x0b, 0x0c, 0x0d, 0x20, 0xa0, 0x1680, 0x2028, 0x2029, 0x202f, 0x205f, 0x3000, 0xfeff}
    || 0x2000 <= n <= 0x200a
  }

  function TrimLeft(s: string): string {
    if s != "" && IsSpace(s[0]) then TrimLeft(s[1..]) else s
  }

  function TrimRight(s: string): string {
    if s != "" && IsSpace(s[|s| - 1]) then TrimRight(s[..|s| - 1]) else s
  }

  /** An address literal; an IPv4-mapped IPv6 address collapses to IPv4. */
  function ParseIp(input: string): Option<Ip> {
    var ip := TrimRight(TrimLeft(input));
    if ip == "" then None
    else if ':' in ip then
      var v6 := ParseV6(ip);
      if v6.None? then None
      else if Shr(v6.value, 32) == 0xffff then Some(Ip(V4, And(v6.value, 0xffffffff)))
      else Some(Ip(V6, v6.value))
    else
      var v4 := ParseV4(ip);
      if v4.None? then None else Some(Ip(V4, v4.value))
  }

  function MaskFor(prefix: nat, bits: nat): nat
    requires prefix <= bits
  {
    if prefix == 0 then 0 else Shl(Shl(1, prefix) - 1, bits - prefix)
  }

  /** `"ip"` or `"ip/prefix"`; a bare address is a single host. */
  function ParseCidr(input: string): Option<Cidr> {
    var slash := IndexOfChar(input, '/');
    var parsed := ParseIp(input[..slash]);
    if parsed.None? then None
    else
      var bits := BitsOf(parsed.value.version);
      if slash == |input| then
        Some(Cidr(parsed.value.version, And(parsed.value.value, MaskFor(bits, bits)), bits))
      else
        var text := input[slash + 1..];
        if text == "" || !AllDigits(text) || Numeral(text, 10) > bits then None
        else
          var prefix := Numeral(text, 10);
          Some(Cidr(parsed.value.version, And(parsed.value.value, MaskFor(prefix, bits)), prefix))
  }

  predicate InCidr(ip: Ip, cidr: Cidr)
    requires cidr.prefix <= BitsOf(cidr.version)
  {
    && ip.version == cidr.version
    && (cidr.prefix == 0 || And(ip.value, MaskFor(cidr.prefix, BitsOf(cidr.version))) == cidr.base)
  }
}
