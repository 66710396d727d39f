/** Which errors `validate` of ts/http/schema.ts reports, said without the order of its checks: each
    names a real fault of the value at the path where it is, and every such fault is named. */
module JsonErrors {
  import opened JsonText
  import opened JsonSchema
  import opened Text
  import opened Wrappers

  /** `p` is how `schema` words a failed keyword: its one text, its text for the keyword, or the
      standard message. */
  ghost predicate Words(schema: Schema, word: Keyword, path: string, fault: Fault, p: Problem) {
    match schema.messages
    case NoMessages => p == Standard(path, fault)
    case OneMessage(text) => p == Custom(text)
    case PerKeyword(texts, _) => p == if word in texts then Custom(texts[word]) else Standard(path, fault)
  }

  ghost predicate WordsRequired(schema: Schema, key: string, path: string, p: Problem) {
    var standard := Standard(path + "." + key, IsRequired);
    match schema.messages
    case NoMessages => p == standard
    case OneMessage(text) => p == Custom(text)
    case PerKeyword(_, NoRequired) => p == standard
    case PerKeyword(_, OneRequired(text)) => p == Custom(text)
    case PerKeyword(_, PerKey(texts)) => p == if key in texts then Custom(texts[key]) else standard
  }

  /** `v` is a listed value that is equal by `===`, which an array or an object never is. */
  ghost predicate OneOf(allowed: seq<Json>, v: Json) {
    v in allowed && !v.Array? && !v.Object?
  }

  /** Neither null, nor the type null, nor a value that is not listed settles the matter. */
  ghost predicate GetsToType(schema: Schema, v: Json) {
    && !(v.Null? && schema.nullable) && schema.kind != Some(NullKind)
    && (schema.allowed.Some? ==> OneOf(schema.allowed.value, v))
  }

  ghost predicate NullFault(schema: Schema, v: Json, path: string, p: Problem) {
    schema.kind == Some(NullKind) && !v.Null? && Words(schema, TypeWord, path, MustBe(NullKind), p)
  }

  ghost predicate EnumFault(schema: Schema, v: Json, path: string, p: Problem) {
    && !(v.Null? && schema.nullable) && schema.kind != Some(NullKind)
    && schema.allowed.Some? && !OneOf(schema.allowed.value, v)
    && Words(schema, EnumWord, path, MustBeOneOf(schema.allowed.value), p)
  }

  ghost predicate TypeFault(schema: Schema, v: Json, path: string, p: Problem) {
    && schema.kind.Some?
    && match schema.kind.value
       case ObjectKind => !v.Object? && Words(schema, TypeWord, path, MustBe(ObjectKind), p)
       case ArrayKind => !v.Array? && Words(schema, TypeWord, path, MustBe(ArrayKind), p)
       case StringKind => !v.String? && Words(schema, TypeWord, path, MustBe(StringKind), p)
       case BooleanKind => !v.Boolean? && Words(schema, TypeWord, path, MustBe(BooleanKind), p)
       case NumberKind => !v.Number? && Words(schema, TypeWord, path, MustBe(NumberKind), p)
       case IntegerKind =>
         || (!v.Number? && Words(schema, TypeWord, path, MustBe(NumberKind), p))
         || (v.Number? && !IsInteger(v.n) && Words(schema, TypeWord, path, MustBe(IntegerKind), p))
       case NullKind => false
  }

  ghost predicate NumberFault(schema: Schema, x: real, path: string, p: Problem) {
    || (schema.minimum.Some? && x < schema.minimum.value
        && Words(schema, MinimumWord, path, MustNotBeBelow(schema.minimum.value), p))
    || (schema.maximum.Some? && x > schema.maximum.value
        && Words(schema, MaximumWord, path, MustNotBeAbove(schema.maximum.value), p))
  }

  /** A string longer than its cap (`maxLength`, or 4096) fails its pattern untried. */
  ghost predicate StringFault(re: Regexes, schema: Schema, s: string, path: string, p: Problem) {
    var length := Utf16Length(s) as real;
    || (schema.minLength.Some? && length < schema.minLength.value
        && Words(schema, MinLengthWord, path, MustHaveAtLeast(schema.minLength.value), p))
    || (schema.maxLength.Some? && length > schema.maxLength.value
        && Words(schema, MaxLengthWord, path, MustHaveAtMost(schema.maxLength.value), p))
    || (schema.pattern != ""
        && (length > (if schema.maxLength.Some? then schema.maxLength.value else 4096.0)
            || !re.compile(schema.pattern)(s))
        && Words(schema, PatternWord, path, MustMatch(schema.pattern), p))
    || (schema.format.Some? && !re.formats(schema.format.value)(s)
        && Words(schema, FormatWord, path, MustBeValid(schema.format.value), p))
  }

  /** A required property that is missing, or one that is there and not allowed. */
  ghost predicate MemberFault(schema: Schema, members: seq<Member>, path: string, p: Problem) {
    || (exists i :: 0 <= i < |schema.required| && !Has(members, schema.required[i])
                    && WordsRequired(schema, schema.required[i], path, p))
    || (schema.closed
        && exists i :: 0 <= i < |members| && Undeclared(schema.properties, members[i].key)
                       && Words(schema, AdditionalWord, path + "." + members[i].key, IsNotAllowed, p))
  }

  ghost predicate Undeclared(properties: seq<Property>, key: string) {
    forall i :: 0 <= i < |properties| ==> properties[i].key != key
  }

  /** `p` names a fault of `v`, or of a declared property or an item in it under its own path. */
  ghost predicate Names(re: Regexes, schema: Schema, v: Json, path: string, p: Problem)
    decreases schema, 1
  {
    || NullFault(schema, v, path, p)
    || EnumFault(schema, v, path, p)
    || (GetsToType(schema, v)
        && (|| TypeFault(schema, v, path, p)
            || (v.Number? && schema.kind in {Some(NumberKind), Some(IntegerKind)} && NumberFault(schema, v.n, path, p))
            || (v.String? && schema.kind == Some(StringKind) && StringFault(re, schema, v.s, path, p))
            || (v.Object? && schema.kind == Some(ObjectKind)
                && (MemberFault(schema, v.members, path, p) || InProperty(re, schema, v.members, path, p)))
            || (v.Array? && schema.kind == Some(ArrayKind) && InItem(re, schema, v.items, path, p))))
  }

  ghost predicate InProperty(re: Regexes, schema: Schema, members: seq<Member>, path: string, p: Problem)
    decreases schema, 0
  {
    exists i :: 0 <= i < |schema.properties| && Has(members, schema.properties[i].key)
                && Names(re, schema.properties[i].schema, Get(members, schema.properties[i].key),
                         path + "." + schema.properties[i].key, p)
  }

  ghost predicate InItem(re: Regexes, schema: Schema, items: seq<Json>, path: string, p: Problem)
    decreases schema, 0
  {
    schema.items.Some?
    && exists i :: 0 <= i < |items| && Names(re, schema.items.value, items[i], path + "[" + Decimal(i) + "]", p)
  }

  // ----- The lists hold exactly these -----

  lemma Worded(schema: Schema, word: Keyword, path: string, fault: Fault, p: Problem)
    ensures p == MessageFor(schema, word, path, fault) <==> Words(schema, word, path, fault, p)
  {
  }

  lemma {:induction false} RequiredAre(schema: Schema, members: seq<Member>, path: string, n: nat, p: Problem)
    requires n <= |schema.required|
    ensures p in RequiredErrors(schema, members, path, n)
       <==> exists i :: 0 <= i < n && !Has(members, schema.required[i])
                        && WordsRequired(schema, schema.required[i], path, p)
  {
    hide Find;
    if n > 0 {
      RequiredAre(schema, members, path, n - 1, p);
    }
  }

  lemma {:induction false} ExtrasAre(schema: Schema, members: seq<Member>, path: string, n: nat, p: Problem)
    requires n <= |members|
    ensures p in ExtraErrors(schema, members, path, n)
       <==> exists i :: 0 <= i < n && Undeclared(schema.properties, members[i].key)
                        && Words(schema, AdditionalWord, path + "." + members[i].key, IsNotAllowed, p)
  {
    if n > 0 {
      assert Declared(schema.properties, members[n - 1].key) <==> !Undeclared(schema.properties, members[n - 1].key);
      hide Declared, Undeclared;
      ExtrasAre(schema, members, path, n - 1, p);
      Worded(schema, AdditionalWord, path + "." + members[n - 1].key, IsNotAllowed, p);
    }
  }

  lemma {:induction false} PropertiesAre(re: Regexes, schema: Schema, members: seq<Member>, path: string, n: nat,
                                         p: Problem)
    requires n <= |schema.properties|
    ensures p in PropertyErrors(re, schema, members, path, n)
       <==> exists i :: 0 <= i < n && Has(members, schema.properties[i].key)
                        && Names(re, schema.properties[i].schema, Get(members, schema.properties[i].key),
                                 path + "." + schema.properties[i].key, p)
    decreases schema, 0, n
  {
    hide Find, Errors, Names;
    if n > 0 {
      var q := schema.properties[n - 1];
      PropertiesAre(re, schema, members, path, n - 1, p);
      if Has(members, q.key) {
        ErrorsAreExact(re, q.schema, Get(members, q.key), path + "." + q.key, p);
      }
    }
  }

  lemma {:induction false} ItemsAre(re: Regexes, schema: Schema, items: seq<Json>, path: string, n: nat, p: Problem)
    requires schema.items.Some? && n <= |items|
    ensures p in ItemErrors(re, schema, items, path, n)
       <==> exists i :: 0 <= i < n && Names(re, schema.items.value, items[i], path + "[" + Decimal(i) + "]", p)
    decreases schema, 0, n
  {
    hide Errors, Names, Decimal;
    if n > 0 {
      ItemsAre(re, schema, items, path, n - 1, p);
      ErrorsAreExact(re, schema.items.value, items[n - 1], path + "[" + Decimal(n - 1) + "]", p);
    }
  }

  lemma ObjectIs(re: Regexes, schema: Schema, v: Json, path: string, p: Problem)
    requires v.Object?
    ensures p in ObjectErrors(re, schema, v, path)
       <==> MemberFault(schema, v.members, path, p) || InProperty(re, schema, v.members, path, p)
    decreases schema, 1
  {
    hide Find, Names, Words, WordsRequired, RequiredErrors, PropertyErrors, ExtraErrors, Undeclared;
    RequiredAre(schema, v.members, path, |schema.required|, p);
    PropertiesAre(re, schema, v.members, path, |schema.properties|, p);
    ExtrasAre(schema, v.members, path, |v.members|, p);
  }

  lemma StringIs(re: Regexes, schema: Schema, s: string, path: string, p: Problem)
    ensures p in StringErrors(re, schema, String(s), path) <==> StringFault(re, schema, s, path, p)
  {
    hide Words, MessageFor, Utf16Length;
    if schema.minLength.Some? {
      Worded(schema, MinLengthWord, path, MustHaveAtLeast(schema.minLength.value), p);
    }
    if schema.maxLength.Some? {
      Worded(schema, MaxLengthWord, path, MustHaveAtMost(schema.maxLength.value), p);
    }
    Worded(schema, PatternWord, path, MustMatch(schema.pattern), p);
    if schema.format.Some? {
      Worded(schema, FormatWord, path, MustBeValid(schema.format.value), p);
    }
  }

  lemma NumberIs(schema: Schema, v: Json, path: string, p: Problem)
    requires schema.kind in {Some(NumberKind), Some(IntegerKind)}
    ensures p in NumberErrors(schema, v, path)
       <==> TypeFault(schema, v, path, p) || (v.Number? && NumberFault(schema, v.n, path, p))
  {
    hide Words, MessageFor;
    Worded(schema, TypeWord, path, MustBe(NumberKind), p);
    Worded(schema, TypeWord, path, MustBe(IntegerKind), p);
    if schema.minimum.Some? {
      Worded(schema, MinimumWord, path, MustNotBeBelow(schema.minimum.value), p);
    }
    if schema.maximum.Some? {
      Worded(schema, MaximumWord, path, MustNotBeAbove(schema.maximum.value), p);
    }
  }

  /** The errors of a value are exactly the problems that name a fault in it: none is invented, none
      is missing, and each stands under the path of the value it is about. */
  lemma {:induction false} ErrorsAreExact(re: Regexes, schema: Schema, v: Json, path: string, p: Problem)
    ensures p in Errors(re, schema, v, path) <==> Names(re, schema, v, path, p)
    decreases schema, 2
  {
    hide Words, MessageFor, MemberFault, InProperty, InItem, StringFault, NumberFault, StringErrors, NumberErrors;
    if schema.kind.Some? {
      Worded(schema, TypeWord, path, MustBe(schema.kind.value), p);
    }
    if schema.allowed.Some? {
      ListedIs(schema.allowed.value, v);
      Worded(schema, EnumWord, path, MustBeOneOf(schema.allowed.value), p);
    }
    match schema.kind {
      case Some(ObjectKind) =>
        if v.Object? {
          ObjectIs(re, schema, v, path, p);
        }
      case Some(ArrayKind) => ArrayIs(re, schema, v, path, p);
      case Some(StringKind) => StringKindIs(re, schema, v, path, p);
      case Some(NumberKind) => NumberIs(schema, v, path, p);
      case Some(IntegerKind) => NumberIs(schema, v, path, p);
      case _ =>
    }
  }

  lemma ListedIs(allowed: seq<Json>, v: Json)
    ensures Listed(allowed, v) <==> OneOf(allowed, v)
  {
  }

  /** A string's length is in UTF-16 units: one for a character below 2^16 and two for another. */
  lemma {:induction false} LengthIsUtf16(a: string, b: string, c: char)
    ensures Utf16Length(a + b) == Utf16Length(a) + Utf16Length(b)
    ensures Utf16Length([c]) == if c as int < 0x1_0000 then 1 else 2
  {
    assert [c][1..] == "";
    if a == "" {
      assert a + b == b;
    } else {
      assert (a + b)[1..] == a[1..] + b;
      LengthIsUtf16(a[1..], b, c);
    }
  }

  /** An integer is a number that is some whole number, and no number between two of them. */
  lemma IntegersAreWhole(x: real, k: int)
    ensures x == k as real ==> IsInteger(x)
    ensures k as real < x < k as real + 1.0 ==> !IsInteger(x)
  {
    var f := x.Floor;
    if k as real < x < k as real + 1.0 {
      assert f < k + 1 && k < f + 1;
    }
  }

  lemma StringKindIs(re: Regexes, schema: Schema, v: Json, path: string, p: Problem)
    ensures p in StringErrors(re, schema, v, path)
       <==> (!v.String? && Words(schema, TypeWord, path, MustBe(StringKind), p))
            || (v.String? && StringFault(re, schema, v.s, path, p))
  {
    if v.String? {
      StringIs(re, schema, v.s, path, p);
    } else {
      Worded(schema, TypeWord, path, MustBe(StringKind), p);
    }
  }

  lemma ArrayIs(re: Regexes, schema: Schema, v: Json, path: string, p: Problem)
    ensures p in ArrayErrors(re, schema, v, path)
       <==> (!v.Array? && Words(schema, TypeWord, path, MustBe(ArrayKind), p))
            || (v.Array? && InItem(re, schema, v.items, path, p))
    decreases schema, 1
  {
    hide Words, MessageFor, Names, ItemErrors;
    Worded(schema, TypeWord, path, MustBe(ArrayKind), p);
    if v.Array? && schema.items.Some? {
      ItemsAre(re, schema, v.items, path, |v.items|, p);
    }
  }
}
