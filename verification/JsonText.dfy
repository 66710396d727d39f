/** JSON values, the text `JSON.stringify` writes for them, and a reader for that text: the grammar
    of RFC 8259 without white space. */
module JsonText {
  import opened Wrappers
  import Text

  datatype Json =
    | Null
    | Boolean(b: bool)
    | Number(n: real)
    | String(s: string)
    | Array(items: seq<Json>)
    | Object(members: seq<Member>)

  datatype Member = Member(key: string, value: Json)

  /** How numbers are written and read; `double` says which reals a number can hold. */
  datatype Numerals = Numerals(double: real -> bool, write: real -> string, read: string -> Option<real>)

  predicate IsNumeralChar(c: char) {
    '0' <= c <= '9' || c in "-+.eE"
  }

  predicate IsNumeral(t: string) {
    t != "" && forall i :: 0 <= i < |t| ==> IsNumeralChar(t[i])
  }

  /** Every double is written as a numeral that reads back as itself. */
  ghost predicate Lawful(num: Numerals) {
    forall x :: num.double(x) ==> IsNumeral(num.write(x)) && num.read(num.write(x)) == Some(x)
  }

  /** All numbers in a value are doubles. */
  predicate Doubles(num: Numerals, v: Json) {
    match v
    case Number(n) => num.double(n)
    case Array(items) => forall i :: 0 <= i < |items| ==> Doubles(num, items[i])
    case Object(members) => forall i :: 0 <= i < |members| ==> Doubles(num, members[i].value)
    case _ => true
  }

  // ----- Writing -----

  function HexDigit(d: nat): char
    requires d < 16
  {
    if d < 10 then ('0' as int + d) as char else ('a' as int + d - 10) as char
  }

  function EscapeChar(c: char): string {
    var n := c as int;
    if c == '"' then "\\\""
    else if c == '\\' then "\\\\"
    else if n == 8 then "\\b"
    else if n == 9 then "\\t"
    else if n == 10 then "\\n"
    else if n == 12 then "\\f"
    else if n == 13 then "\\r"
    else if n < 32 then "\\u00" + [HexDigit(n / 16), HexDigit(n % 16)]
    else [c]
  }

  function Escaped(s: string): string {
    if s == "" then "" else EscapeChar(s[0]) + Escaped(s[1..])
  }

  function Quote(s: string): string {
    "\"" + Escaped(s) + "\""
  }

  function ArrayText(texts: seq<string>): string {
    "[" + Text.Join(texts, ',') + "]"
  }

  function ObjectText(pairs: seq<string>): string {
    "{" + Text.Join(pairs, ',') + "}"
  }

  function PairText(key: string, text: string): string {
    Quote(key) + ":" + text
  }

  function Stringify(num: Numerals, v: Json): string {
    match v
    case Null => "null"
    case Boolean(b) => if b then "true" else "false"
    case Number(n) => num.write(n)
    case String(s) => Quote(s)
    case Array(items) =>
      ArrayText(seq(|items|, i requires 0 <= i < |items| => Stringify(num, items[i])))
    case Object(members) =>
      ObjectText(seq(|members|, i requires 0 <= i < |members| =>
        PairText(members[i].key, Stringify(num, members[i].value))))
  }

  // ----- Reading -----

  /** What a reader took from the front of a text, and what follows it. */
  datatype Parsed<+T> = Got(value: T, rest: string) | Fail

  function HexValue(c: char): Option<nat> {
    if '0' <= c <= '9' then Some(c as int - '0' as int)
    else if 'a' <= c <= 'f' then Some(c as int - 'a' as int + 10)
    else if 'A' <= c <= 'F' then Some(c as int - 'A' as int + 10)
    else None
  }

  /** A \u escape; one that is half of a surrogate pair is not read. */
  function ReadHex(s: string): (r: Parsed<char>)
    ensures r.Got? ==> |r.rest| < |s|
  {
    if |s| < 4 then Fail
    else
      var (a, b, c, d) := (HexValue(s[0]), HexValue(s[1]), HexValue(s[2]), HexValue(s[3]));
      if a.None? || b.None? || c.None? || d.None? then Fail
      else
        var n := ((a.value * 16 + b.value) * 16 + c.value) * 16 + d.value;
        if 0 <= n < 0xD800 || 0xE000 <= n < 0x1_0000 then Got(n as char, s[4..]) else Fail
  }

  function ReadChar(s: string): (r: Parsed<char>)
    ensures r.Got? ==> |r.rest| < |s|
  {
    if s == "" || s[0] as int < 32 then Fail
    else if s[0] != '\\' then Got(s[0], s[1..])
    else if |s| == 1 then Fail
    else
      match s[1]
      case '"' => Got('"', s[2..])
      case '\\' => Got('\\', s[2..])
      case '/' => Got('/', s[2..])
      case 'b' => Got(8 as char, s[2..])
      case 't' => Got(9 as char, s[2..])
      case 'n' => Got(10 as char, s[2..])
      case 'f' => Got(12 as char, s[2..])
      case 'r' => Got(13 as char, s[2..])
      case 'u' => ReadHex(s[2..])
      case _ => Fail
  }

  /** The rest of a string after its opening quote. */
  function ReadChars(s: string): (r: Parsed<string>)
    ensures r.Got? ==> |r.rest| < |s|
    decreases |s|
  {
    if s == "" then Fail
    else if s[0] == '"' then Got("", s[1..])
    else
      match ReadChar(s)
      case Fail => Fail
      case Got(c, rest) =>
        match ReadChars(rest)
        case Fail => Fail
        case Got(t, rest') => Got([c] + t, rest')
  }

  function NumeralLength(s: string): (n: nat)
    ensures n <= |s|
    ensures forall i :: 0 <= i < n ==> IsNumeralChar(s[i])
    ensures n < |s| ==> !IsNumeralChar(s[n])
  {
    if s == "" || !IsNumeralChar(s[0]) then 0 else 1 + NumeralLength(s[1..])
  }

  function ReadNumber(num: Numerals, s: string): (r: Parsed<Json>)
    ensures r.Got? ==> |r.rest| < |s|
  {
    var n := NumeralLength(s);
    if n == 0 then Fail
    else
      match num.read(s[..n])
      case None => Fail
      case Some(x) => Got(Number(x), s[n..])
  }

  predicate StartsWith(s: string, word: string) {
    |word| <= |s| && s[..|word|] == word
  }

  function ReadValue(num: Numerals, s: string): (r: Parsed<Json>)
    ensures r.Got? ==> |r.rest| < |s|
    decreases |s|, 0
  {
    if s == "" then Fail
    else if s[0] == '"' then
      match ReadChars(s[1..])
      case Fail => Fail
      case Got(t, rest) => Got(String(t), rest)
    else if s[0] == '[' then
      if |s| > 1 && s[1] == ']' then Got(Array([]), s[2..])
      else
        match ReadItems(num, s[1..])
        case Fail => Fail
        case Got(items, rest) => Got(Array(items), rest)
    else if s[0] == '{' then
      if |s| > 1 && s[1] == '}' then Got(Object([]), s[2..])
      else
        match ReadMembers(num, s[1..])
        case Fail => Fail
        case Got(members, rest) => Got(Object(members), rest)
    else if StartsWith(s, "null") then Got(Null, s[4..])
    else if StartsWith(s, "true") then Got(Boolean(true), s[4..])
    else if StartsWith(s, "false") then Got(Boolean(false), s[5..])
    else ReadNumber(num, s)
  }

  /** One or more values with commas between them, and the closing bracket. */
  function ReadItems(num: Numerals, s: string): (r: Parsed<seq<Json>>)
    ensures r.Got? ==> |r.rest| < |s|
    decreases |s|, 1
  {
    match ReadValue(num, s)
    case Fail => Fail
    case Got(v, rest) =>
      if rest != "" && rest[0] == ']' then Got([v], rest[1..])
      else if rest != "" && rest[0] == ',' then
        match ReadItems(num, rest[1..])
        case Fail => Fail
        case Got(more, rest') => Got([v] + more, rest')
      else Fail
  }

  /** A key, a colon and a value. */
  function ReadMember(num: Numerals, s: string): (r: Parsed<Member>)
    ensures r.Got? ==> |r.rest| < |s|
    decreases |s|, 0
  {
    if s == "" || s[0] != '"' then Fail
    else
      match ReadChars(s[1..])
      case Fail => Fail
      case Got(key, rest) =>
        if rest == "" || rest[0] != ':' then Fail
        else
          match ReadValue(num, rest[1..])
          case Fail => Fail
          case Got(v, rest') => Got(Member(key, v), rest')
  }

  function ReadMembers(num: Numerals, s: string): (r: Parsed<seq<Member>>)
    ensures r.Got? ==> |r.rest| < |s|
    decreases |s|, 1
  {
    match ReadMember(num, s)
    case Fail => Fail
    case Got(m, rest) =>
      if rest != "" && rest[0] == '}' then Got([m], rest[1..])
      else if rest != "" && rest[0] == ',' then
        match ReadMembers(num, rest[1..])
        case Fail => Fail
        case Got(more, rest') => Got([m] + more, rest')
      else Fail
  }

  /** The value a whole text denotes. */
  function Read(num: Numerals, s: string): Option<Json> {
    match ReadValue(num, s)
    case Fail => None
    case Got(v, rest) => if rest == "" then Some(v) else None
  }

  // ----- Strings read back -----

  lemma CharReadsBack(c: char, rest: string)
    ensures ReadChar(EscapeChar(c) + rest) == Got(c, rest)
    ensures EscapeChar(c) != "" && EscapeChar(c)[0] != '"'
  {
    var (s, n) := (EscapeChar(c) + rest, c as int);
    if n < 32 && n !in {8, 9, 10, 12, 13} {
      assert s[2..][0] == '0' && s[2..][1] == '0';
      assert s[2..][2] == HexDigit(n / 16) && s[2..][3] == HexDigit(n % 16);
      assert s[2..][4..] == rest;
    } else if |EscapeChar(c)| == 2 {
      assert s[2..] == rest;
    } else {
      assert s[1..] == rest;
    }
  }

  lemma {:induction false} CharsReadBack(s: string, rest: string)
    ensures ReadChars(Escaped(s) + "\"" + rest) == Got(s, rest)
  {
    hide ReadChar, EscapeChar;
    var text := Escaped(s) + "\"" + rest;
    if s == "" {
      assert text == "\"" + rest;
    } else {
      var more := Escaped(s[1..]) + "\"" + rest;
      assert text == EscapeChar(s[0]) + more;
      CharReadsBack(s[0], more);
      CharsReadBack(s[1..], rest);
      assert [s[0]] + s[1..] == s;
    }
  }

  // ----- What a text denotes -----

  /** What may follow a value: nothing, or a character no numeral goes on with. */
  predicate Ends(rest: string) {
    rest == "" || !IsNumeralChar(rest[0])
  }

  /** With `rest` after it, `text` is read as `v`, or not read at all when there is none. */
  ghost predicate ReadsAs(num: Numerals, text: string, v: Option<Json>, rest: string) {
    ReadValue(num, text + rest) == if v.Some? then Got(v.value, rest) else Fail
  }

  /** `text` is read as `v` wherever it stands, and is not taken for the end of a list. */
  ghost predicate Denotes(num: Numerals, text: string, v: Option<Json>) {
    && text != "" && text[0] != ']' && text[0] != '}'
    && forall rest :: Ends(rest) ==> ReadsAs(num, text, v, rest)
  }

  predicate AllSome(vs: seq<Option<Json>>) {
    forall i :: 0 <= i < |vs| ==> vs[i].Some?
  }

  function Values(vs: seq<Option<Json>>): seq<Json>
    requires AllSome(vs)
  {
    seq(|vs|, i requires 0 <= i < |vs| => vs[i].value)
  }

  function ArrayOf(vs: seq<Option<Json>>): Option<Json> {
    if AllSome(vs) then Some(Array(Values(vs))) else None
  }

  /** An object under construction: each value is there, or could not be denoted. */
  datatype Slot = Slot(key: string, value: Option<Json>)

  predicate AllFilled(slots: seq<Slot>) {
    forall i :: 0 <= i < |slots| ==> slots[i].value.Some?
  }

  function Members(slots: seq<Slot>): seq<Member>
    requires AllFilled(slots)
  {
    seq(|slots|, i requires 0 <= i < |slots| => Member(slots[i].key, slots[i].value.value))
  }

  function ObjectOf(slots: seq<Slot>): Option<Json> {
    if AllFilled(slots) then Some(Object(Members(slots))) else None
  }

  lemma Denoted(num: Numerals, text: string, v: Option<Json>, rest: string)
    requires Denotes(num, text, v) && Ends(rest)
    ensures ReadValue(num, text + rest) == if v.Some? then Got(v.value, rest) else Fail
  {
    assert ReadsAs(num, text, v, rest);
  }

  ghost predicate AllDenote(num: Numerals, texts: seq<string>, vs: seq<Option<Json>>) {
    |texts| == |vs| && forall i :: 0 <= i < |texts| ==> Denotes(num, texts[i], vs[i])
  }

  /** The last of a list before its bracket, and any other. */
  lemma LastItem(num: Numerals, text: string, v: Option<Json>, rest: string)
    requires Denotes(num, text, v)
    ensures ReadItems(num, text + "]" + rest) == if v.Some? then Got([v.value], rest) else Fail
  {
    Denoted(num, text, v, "]" + rest);
    assert text + "]" + rest == text + ("]" + rest) && ("]" + rest)[1..] == rest;
  }

  lemma MoreItems(num: Numerals, text: string, v: Option<Json>, more: string)
    requires Denotes(num, text, v)
    ensures ReadItems(num, text + "," + more)
         == if v.None? || ReadItems(num, more).Fail? then Fail
            else Got([v.value] + ReadItems(num, more).value, ReadItems(num, more).rest)
  {
    Denoted(num, text, v, "," + more);
    assert text + "," + more == text + ("," + more) && ("," + more)[1..] == more;
  }

  lemma JoinMore(texts: seq<string>, bracket: string, rest: string)
    requires |texts| > 1
    ensures Text.Join(texts, ',') + bracket + rest == texts[0] + "," + (Text.Join(texts[1..], ',') + bracket + rest)
  {
    JoinCons(texts);
    hide Text.Join;
    Regroup(texts[0] + ",", Text.Join(texts[1..], ','), bracket, rest);
  }

  lemma JoinCons(texts: seq<string>)
    requires |texts| > 1
    ensures Text.Join(texts, ',') == texts[0] + "," + Text.Join(texts[1..], ',')
  {
  }

  lemma Regroup(a: string, b: string, c: string, d: string)
    ensures a + b + c + d == a + (b + c + d)
  {
  }

  lemma AllSomeCons(vs: seq<Option<Json>>)
    requires vs != []
    ensures AllSome(vs) <==> vs[0].Some? && AllSome(vs[1..])
    ensures AllSome(vs) ==> Values(vs) == [vs[0].value] + Values(vs[1..])
  {
    assert forall i :: 1 <= i < |vs| ==> vs[i] == vs[1..][i - 1];
  }

  lemma {:induction false} ItemsRead(num: Numerals, texts: seq<string>, vs: seq<Option<Json>>, rest: string)
    requires texts != [] && AllDenote(num, texts, vs)
    ensures ReadItems(num, Text.Join(texts, ',') + "]" + rest) == if AllSome(vs) then Got(Values(vs), rest) else Fail
    decreases |texts|
  {
    AllSomeCons(vs);
    if |texts| == 1 {
      LastItem(num, texts[0], vs[0], rest);
      assert AllSome(vs) ==> Values(vs) == [vs[0].value];
    } else {
      ItemsRead(num, texts[1..], vs[1..], rest);
      JoinMore(texts, "]", rest);
      MoreItems(num, texts[0], vs[0], Text.Join(texts[1..], ',') + "]" + rest);
    }
  }

  lemma PairSplits(key: string, text: string, rest: string)
    ensures var s := PairText(key, text) + rest;
            s[0] == '"' && ReadChars(s[1..]) == Got(key, ":" + (text + rest))
    ensures (":" + (text + rest))[1..] == text + rest
  {
    var (s, after) := (PairText(key, text) + rest, ":" + (text + rest));
    assert s[1..] == Escaped(key) + "\"" + after;
    CharsReadBack(key, after);
  }

  lemma MemberRead(num: Numerals, key: string, text: string, v: Option<Json>, rest: string)
    requires Denotes(num, text, v) && Ends(rest)
    ensures ReadMember(num, PairText(key, text) + rest) == if v.Some? then Got(Member(key, v.value), rest) else Fail
  {
    Denoted(num, text, v, rest);
    PairSplits(key, text, rest);
  }

  ghost predicate PairsDenote(num: Numerals, pairs: seq<string>, texts: seq<string>, slots: seq<Slot>) {
    && |pairs| == |texts| == |slots|
    && (forall i :: 0 <= i < |pairs| ==> pairs[i] == PairText(slots[i].key, texts[i]))
    && (forall i :: 0 <= i < |texts| ==> Denotes(num, texts[i], slots[i].value))
  }

  lemma LastMember(num: Numerals, key: string, text: string, v: Option<Json>, rest: string)
    requires Denotes(num, text, v)
    ensures ReadMembers(num, PairText(key, text) + "}" + rest)
         == if v.Some? then Got([Member(key, v.value)], rest) else Fail
  {
    MemberRead(num, key, text, v, "}" + rest);
    assert PairText(key, text) + "}" + rest == PairText(key, text) + ("}" + rest) && ("}" + rest)[1..] == rest;
  }

  lemma MoreMembers(num: Numerals, key: string, text: string, v: Option<Json>, more: string)
    requires Denotes(num, text, v)
    ensures ReadMembers(num, PairText(key, text) + "," + more)
         == if v.None? || ReadMembers(num, more).Fail? then Fail
            else Got([Member(key, v.value)] + ReadMembers(num, more).value, ReadMembers(num, more).rest)
  {
    MemberRead(num, key, text, v, "," + more);
    assert PairText(key, text) + "," + more == PairText(key, text) + ("," + more) && ("," + more)[1..] == more;
  }

  lemma AllFilledCons(slots: seq<Slot>)
    requires slots != []
    ensures AllFilled(slots) <==> slots[0].value.Some? && AllFilled(slots[1..])
    ensures AllFilled(slots) ==> Members(slots) == [Member(slots[0].key, slots[0].value.value)] + Members(slots[1..])
  {
    assert forall i :: 1 <= i < |slots| ==> slots[i] == slots[1..][i - 1];
  }

  lemma {:induction false} MembersRead(num: Numerals, pairs: seq<string>, texts: seq<string>, slots: seq<Slot>,
                                       rest: string)
    requires pairs != [] && PairsDenote(num, pairs, texts, slots)
    ensures ReadMembers(num, Text.Join(pairs, ',') + "}" + rest)
         == if AllFilled(slots) then Got(Members(slots), rest) else Fail
    decreases |pairs|
  {
    AllFilledCons(slots);
    if |pairs| == 1 {
      LastMember(num, slots[0].key, texts[0], slots[0].value, rest);
      assert AllFilled(slots) ==> Members(slots) == [Member(slots[0].key, slots[0].value.value)];
    } else {
      MembersRead(num, pairs[1..], texts[1..], slots[1..], rest);
      JoinMore(pairs, "}", rest);
      MoreMembers(num, slots[0].key, texts[0], slots[0].value, Text.Join(pairs[1..], ',') + "}" + rest);
    }
  }

  // ----- Arrays, objects and whole values -----

  lemma ArrayDenotes(num: Numerals, texts: seq<string>, vs: seq<Option<Json>>)
    requires AllDenote(num, texts, vs)
    ensures Denotes(num, ArrayText(texts), ArrayOf(vs))
  {
    forall rest | Ends(rest) ensures ReadsAs(num, ArrayText(texts), ArrayOf(vs), rest) {
      var s := ArrayText(texts) + rest;
      var inner := Text.Join(texts, ',') + "]" + rest;
      assert s[1..] == inner;
      if texts == [] {
        assert inner == "]" + rest && s[2..] == rest && Values(vs) == [];
      } else {
        assert inner[0] == texts[0][0];
        ItemsRead(num, texts, vs, rest);
      }
    }
  }

  /** The text of an object after its opening brace. */
  lemma ObjectInner(pairs: seq<string>, rest: string)
    ensures var (s, inner) := (ObjectText(pairs) + rest, Text.Join(pairs, ',') + "}" + rest);
            && s[0] == '{' && s[1..] == inner && (pairs == [] ==> inner == "}" + rest && s[2..] == rest)
  {
    var (s, inner) := (ObjectText(pairs) + rest, Text.Join(pairs, ',') + "}" + rest);
    assert s[1..] == inner;
  }

  lemma PairsStart(pairs: seq<string>, key: string, text: string, rest: string)
    requires pairs != [] && pairs[0] == PairText(key, text)
    ensures (Text.Join(pairs, ',') + "}" + rest)[0] == '"'
  {
    hide Escaped;
  }

  lemma ObjectDenotes(num: Numerals, pairs: seq<string>, texts: seq<string>, slots: seq<Slot>)
    requires PairsDenote(num, pairs, texts, slots)
    ensures Denotes(num, ObjectText(pairs), ObjectOf(slots))
  {
    forall rest | Ends(rest) ensures ReadsAs(num, ObjectText(pairs), ObjectOf(slots), rest) {
      hide ObjectText, PairText, Denotes, ReadMembers, Ends;
      ObjectInner(pairs, rest);
      if pairs == [] {
        assert Members(slots) == [];
      } else {
        PairsStart(pairs, slots[0].key, texts[0], rest);
        MembersRead(num, pairs, texts, slots, rest);
      }
    }
  }

  lemma StringDenotes(num: Numerals, t: string)
    ensures Denotes(num, Quote(t), Some(String(t)))
  {
    hide Escaped, ReadChars;
    forall rest | Ends(rest) ensures ReadsAs(num, Quote(t), Some(String(t)), rest) {
      assert (Quote(t) + rest)[1..] == Escaped(t) + "\"" + rest;
      CharsReadBack(t, rest);
    }
  }

  lemma {:induction false} NumeralEnds(t: string, rest: string)
    requires Ends(rest) && forall i :: 0 <= i < |t| ==> IsNumeralChar(t[i])
    ensures NumeralLength(t + rest) == |t|
  {
    if t == "" {
      assert t + rest == rest;
    } else {
      NumeralEnds(t[1..], rest);
      assert (t + rest)[1..] == t[1..] + rest;
    }
  }

  lemma NumberDenotes(num: Numerals, x: real)
    requires Lawful(num) && num.double(x)
    ensures Denotes(num, num.write(x), Some(Number(x)))
  {
    hide NumeralLength, ReadChars, ReadItems, ReadMembers;
    var t := num.write(x);
    assert IsNumeral(t) && num.read(t) == Some(x);
    assert IsNumeralChar(t[0]);
    forall rest | Ends(rest) ensures ReadsAs(num, t, Some(Number(x)), rest) {
      NumeralEnds(t, rest);
      assert (t + rest)[..|t|] == t && (t + rest)[|t|..] == rest;
      assert (t + rest)[0] == t[0];
    }
  }

  lemma WordsDenote(num: Numerals)
    ensures Denotes(num, "null", Some(Null))
    ensures Denotes(num, "true", Some(Boolean(true))) && Denotes(num, "false", Some(Boolean(false)))
  {
    forall rest | Ends(rest)
      ensures ReadsAs(num, "null", Some(Null), rest)
      ensures ReadsAs(num, "true", Some(Boolean(true)), rest) && ReadsAs(num, "false", Some(Boolean(false)), rest)
    {
      assert ("null" + rest)[4..] == rest && ("true" + rest)[4..] == rest && ("false" + rest)[5..] == rest;
      assert ("null" + rest)[..4] == "null" && ("true" + rest)[..4] == "true" && ("false" + rest)[..5] == "false";
    }
  }

  /** What `JSON.stringify` writes for a value is read back as that value. */
  lemma {:induction false} StringifyDenotes(num: Numerals, v: Json)
    requires Lawful(num) && Doubles(num, v)
    ensures Denotes(num, Stringify(num, v), Some(v))
  {
    match v {
      case Null => WordsDenote(num);
      case Boolean(_) => WordsDenote(num);
      case Number(x) => NumberDenotes(num, x);
      case String(t) => StringDenotes(num, t);
      case Array(items) =>
        var texts := seq(|items|, i requires 0 <= i < |items| => Stringify(num, items[i]));
        var vs := seq(|items|, i requires 0 <= i < |items| => Some(items[i]));
        forall i | 0 <= i < |items| ensures Denotes(num, texts[i], vs[i]) {
          StringifyDenotes(num, items[i]);
        }
        ArrayDenotes(num, texts, vs);
        assert Values(vs) == items;
      case Object(members) =>
        var texts := seq(|members|, i requires 0 <= i < |members| => Stringify(num, members[i].value));
        var pairs := seq(|members|, i requires 0 <= i < |members| =>
          PairText(members[i].key, Stringify(num, members[i].value)));
        var slots := seq(|members|, i requires 0 <= i < |members| => Slot(members[i].key, Some(members[i].value)));
        forall i | 0 <= i < |members| ensures Denotes(num, texts[i], slots[i].value) {
          StringifyDenotes(num, members[i].value);
        }
        ObjectDenotes(num, pairs, texts, slots);
        assert Members(slots) == members;
    }
  }

  lemma ReadWhole(num: Numerals, text: string, v: Option<Json>)
    requires Denotes(num, text, v)
    ensures Read(num, text) == v
  {
    Denoted(num, text, v, "");
    assert text + "" == text;
  }

  /** JSON round trip. */
  lemma JsonRoundTrip(num: Numerals, v: Json)
    requires Lawful(num) && Doubles(num, v)
    ensures Read(num, Stringify(num, v)) == Some(v)
  {
    StringifyDenotes(num, v);
    ReadWhole(num, Stringify(num, v), Some(v));
  }

  // ----- Numerals exist -----

  function WriteWhole(x: real): string {
    if x < 0.0 then "-" + Text.Decimal(if -x.Floor >= 0 then -x.Floor else 0)
    else Text.Decimal(if x.Floor >= 0 then x.Floor else 0)
  }

  function ReadWholeNumber(t: string): Option<real> {
    if t != "" && t[0] == '-' then
      if forall i :: 1 <= i < |t| ==> '0' <= t[i] <= '9' then Some(-(Text.DecimalValue(t[1..]) as real)) else None
    else if forall i :: 0 <= i < |t| ==> '0' <= t[i] <= '9' then Some(Text.DecimalValue(t) as real)
    else None
  }

  function WholeNumerals(): Numerals {
    Numerals((x: real) => x == x.Floor as real, WriteWhole, ReadWholeNumber)
  }

  lemma WholeRoundTrip(x: real)
    requires x == x.Floor as real
    ensures IsNumeral(WriteWhole(x)) && ReadWholeNumber(WriteWhole(x)) == Some(x)
  {
    hide Text.Decimal, Text.DecimalValue;
    var n: nat := if x < 0.0 then -x.Floor else x.Floor;
    var digits := Text.Decimal(n);
    Text.DecimalRoundTrip(n);
    if x < 0.0 {
      var t := "-" + digits;
      assert t[1..] == digits;
      assert forall i :: 1 <= i < |t| ==> t[i] == digits[i - 1];
    } else {
      assert forall i :: 0 <= i < |digits| ==> digits[i] != '-';
    }
  }

  /** The law on numerals can be met: whole numbers in decimal meet it. */
  lemma LawfulNumeralsExist()
    ensures Lawful(WholeNumerals()) && WholeNumerals().double(0.0)
  {
    var num := WholeNumerals();
    forall x | num.double(x) ensures IsNumeral(num.write(x)) && num.read(num.write(x)) == Some(x) {
      WholeRoundTrip(x);
    }
  }
}
