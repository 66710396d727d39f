/** ts/http/schema.ts, validation: every check pushes onto one list of errors, with the messages a
    schema may override. */
module JsonSchema {
  import opened JsonText
  import opened Text
  import opened Wrappers

  datatype Kind = ObjectKind | ArrayKind | StringKind | NumberKind | IntegerKind | BooleanKind | NullKind

  datatype Format = Email | Uuid | DateTime | Uri

  datatype Keyword =
    | TypeWord | EnumWord | MinLengthWord | MaxLengthWord | PatternWord | FormatWord
    | MinimumWord | MaximumWord | AdditionalWord

  datatype RequiredMessages = NoRequired | OneRequired(text: string) | PerKey(texts: map<string, string>)

  datatype Messages =
    | NoMessages
    | OneMessage(text: string)
    | PerKeyword(texts: map<Keyword, string>, required: RequiredMessages)

  datatype Property = Property(key: string, schema: Schema)

  /** `allowed` is the schema's `enum`; `closed` says that `additionalProperties` is false; an
      empty pattern is no pattern. */
  datatype Schema = Schema(
    kind: Option<Kind>,
    properties: seq<Property>,
    required: seq<string>,
    items: Option<Schema>,
    allowed: Option<seq<Json>>,
    nullable: bool,
    closed: bool,
    minimum: Option<real>,
    maximum: Option<real>,
    minLength: Option<real>,
    maxLength: Option<real>,
    pattern: string,
    format: Option<Format>,
    messages: Messages
  )

  type Regex = string -> bool

  datatype Regexes = Regexes(compile: string -> Regex, formats: Format -> Regex)

  const PATTERN_INPUT_CAP := 4096.0
  const PATTERN_CACHE_MAX := 1024

  // ----- Messages -----

  datatype Fault =
    | MustBe(kind: Kind)
    | MustBeOneOf(allowed: seq<Json>)
    | MustHaveAtLeast(characters: real)
    | MustHaveAtMost(characters: real)
    | MustMatch(pattern: string)
    | MustBeValid(format: Format)
    | MustNotBeBelow(bound: real)
    | MustNotBeAbove(bound: real)
    | IsRequired
    | IsNotAllowed

  /** One error: the schema's own text, or the standard message for a path and a fault. */
  datatype Problem = Custom(text: string) | Standard(path: string, fault: Fault)

  function MessageFor(schema: Schema, word: Keyword, path: string, fault: Fault): Problem {
    match schema.messages
    case OneMessage(text) => Custom(text)
    case PerKeyword(texts, _) => if word in texts then Custom(texts[word]) else Standard(path, fault)
    case NoMessages => Standard(path, fault)
  }

  function RequiredMessage(schema: Schema, key: string, path: string): Problem {
    var standard := Standard(path + "." + key, IsRequired);
    match schema.messages
    case OneMessage(text) => Custom(text)
    case PerKeyword(_, OneRequired(text)) => Custom(text)
    case PerKeyword(_, PerKey(texts)) => if key in texts then Custom(texts[key]) else standard
    case _ => standard
  }

  // ----- Values -----

  /** The place of the first member with `key`, or |members|. */
  function Find(members: seq<Member>, key: string): (i: nat)
    ensures i <= |members|
    ensures i < |members| ==> members[i].key == key
    ensures forall j :: 0 <= j < i ==> members[j].key != key
  {
    if members == [] || members[0].key == key then 0 else 1 + Find(members[1..], key)
  }

  /** `Object.hasOwn`. */
  predicate Has(members: seq<Member>, key: string) {
    Find(members, key) < |members|
  }

  function Get(members: seq<Member>, key: string): Json
    requires Has(members, key)
  {
    members[Find(members, key)].value
  }

  predicate Declared(properties: seq<Property>, key: string) {
    exists i :: 0 <= i < |properties| && properties[i].key == key
  }

  /** `===` between a listed value and a value that is not that same object. */
  predicate StrictlyEqual(a: Json, b: Json) {
    !a.Array? && !a.Object? && a == b
  }

  predicate Listed(allowed: seq<Json>, v: Json) {
    exists i :: 0 <= i < |allowed| && StrictlyEqual(allowed[i], v)
  }

  /** `value.length`, in UTF-16 units. */
  function Utf16Length(s: string): nat {
    if s == "" then 0 else (if s[0] as int >= 0x1_0000 then 2 else 1) + Utf16Length(s[1..])
  }

  predicate Below(x: real, bound: Option<real>) {
    bound.Some? && x < bound.value
  }

  predicate Above(x: real, bound: Option<real>) {
    bound.Some? && x > bound.value
  }

  /** Whether a string fails the pattern: unmatched, or too long to be tried. */
  predicate FailsPattern(re: Regexes, schema: Schema, s: string) {
    && schema.pattern != ""
    && (Utf16Length(s) as real > (if schema.maxLength.Some? then schema.maxLength.value else PATTERN_INPUT_CAP)
        || !re.compile(schema.pattern)(s))
  }

  // ----- The errors of a value -----

  function Errors(re: Regexes, schema: Schema, v: Json, path: string): seq<Problem>
    decreases schema, 2
  {
    if v.Null? && (schema.nullable || schema.kind == Some(NullKind)) then []
    else if !v.Null? && schema.kind == Some(NullKind) then [MessageFor(schema, TypeWord, path, MustBe(NullKind))]
    else if schema.allowed.Some? && !Listed(schema.allowed.value, v) then
      [MessageFor(schema, EnumWord, path, MustBeOneOf(schema.allowed.value))]
    else
      match schema.kind
      case Some(ObjectKind) => ObjectErrors(re, schema, v, path)
      case Some(ArrayKind) => ArrayErrors(re, schema, v, path)
      case Some(StringKind) => StringErrors(re, schema, v, path)
      case Some(BooleanKind) =>
        if !v.Boolean? then [MessageFor(schema, TypeWord, path, MustBe(BooleanKind))] else []
      case Some(NumberKind) => NumberErrors(schema, v, path)
      case Some(IntegerKind) => NumberErrors(schema, v, path)
      case _ => []
  }

  function ObjectErrors(re: Regexes, schema: Schema, v: Json, path: string): seq<Problem>
    decreases schema, 1
  {
    if !v.Object? then [MessageFor(schema, TypeWord, path, MustBe(ObjectKind))]
    else
      RequiredErrors(schema, v.members, path, |schema.required|)
      + PropertyErrors(re, schema, v.members, path, |schema.properties|)
      + (if schema.closed then ExtraErrors(schema, v.members, path, |v.members|) else [])
  }

  function ArrayErrors(re: Regexes, schema: Schema, v: Json, path: string): seq<Problem>
    decreases schema, 1
  {
    if !v.Array? then [MessageFor(schema, TypeWord, path, MustBe(ArrayKind))]
    else if schema.items.None? then []
    else ItemErrors(re, schema, v.items, path, |v.items|)
  }

  // Each of these is what the first `n` steps of a loop push.

  function RequiredErrors(schema: Schema, members: seq<Member>, path: string, n: nat): seq<Problem>
    requires n <= |schema.required|
  {
    if n == 0 then []
    else
      var key := schema.required[n - 1];
      RequiredErrors(schema, members, path, n - 1)
      + When(!Has(members, key), RequiredMessage(schema, key, path))
  }

  function PropertyErrors(re: Regexes, schema: Schema, members: seq<Member>, path: string, n: nat): seq<Problem>
    requires n <= |schema.properties|
    decreases schema, 0, n
  {
    if n == 0 then []
    else
      var p := schema.properties[n - 1];
      PropertyErrors(re, schema, members, path, n - 1)
      + (if Has(members, p.key) then Errors(re, p.schema, Get(members, p.key), path + "." + p.key) else [])
  }

  function ExtraErrors(schema: Schema, members: seq<Member>, path: string, n: nat): seq<Problem>
    requires n <= |members|
  {
    if n == 0 then []
    else
      var key := members[n - 1].key;
      ExtraErrors(schema, members, path, n - 1)
      + When(!Declared(schema.properties, key), MessageFor(schema, AdditionalWord, path + "." + key, IsNotAllowed))
  }

  function ItemErrors(re: Regexes, schema: Schema, items: seq<Json>, path: string, n: nat): seq<Problem>
    requires schema.items.Some? && n <= |items|
    decreases schema, 0, n
  {
    if n == 0 then []
    else
      ItemErrors(re, schema, items, path, n - 1)
      + Errors(re, schema.items.value, items[n - 1], path + "[" + Decimal(n - 1) + "]")
  }

  function When(failed: bool, problem: Problem): seq<Problem> {
    if failed then [problem] else []
  }

  function StringErrors(re: Regexes, schema: Schema, v: Json, path: string): seq<Problem> {
    if !v.String? then [MessageFor(schema, TypeWord, path, MustBe(StringKind))]
    else
      LengthErrors(schema, Utf16Length(v.s) as real, path)
      + When(FailsPattern(re, schema, v.s), MessageFor(schema, PatternWord, path, MustMatch(schema.pattern)))
      + FormatErrors(re, schema, v.s, path)
  }

  function FormatErrors(re: Regexes, schema: Schema, s: string, path: string): seq<Problem> {
    if schema.format.Some? && !re.formats(schema.format.value)(s)
    then [MessageFor(schema, FormatWord, path, MustBeValid(schema.format.value))] else []
  }

  function LengthErrors(schema: Schema, n: real, path: string): seq<Problem> {
    (if Below(n, schema.minLength)
     then [MessageFor(schema, MinLengthWord, path, MustHaveAtLeast(schema.minLength.value))] else [])
    + (if Above(n, schema.maxLength)
       then [MessageFor(schema, MaxLengthWord, path, MustHaveAtMost(schema.maxLength.value))] else [])
  }

  predicate IsInteger(x: real) {
    x == x.Floor as real
  }

  function NumberErrors(schema: Schema, v: Json, path: string): seq<Problem> {
    if !v.Number? then [MessageFor(schema, TypeWord, path, MustBe(NumberKind))]
    else
      When(schema.kind == Some(IntegerKind) && !IsInteger(v.n), MessageFor(schema, TypeWord, path, MustBe(IntegerKind)))
      + (if Below(v.n, schema.minimum)
         then [MessageFor(schema, MinimumWord, path, MustNotBeBelow(schema.minimum.value))] else [])
      + (if Above(v.n, schema.maximum)
         then [MessageFor(schema, MaximumWord, path, MustNotBeAbove(schema.maximum.value))] else [])
  }

  // ----- The checks, step by step -----

  /** The list all checks of one validation push onto. */
  class ErrorList {
    var items: seq<Problem>

    constructor ()
      ensures items == []
    {
      items := [];
    }

    method Push(p: Problem)
      modifies this
      ensures items == old(items) + [p]
    {
      items := items + [p];
    }
  }

  /** The compiled patterns kept between validations. */
  class PatternCache {
    const re: Regexes
    var compiled: map<string, Regex>

    ghost predicate Valid()
      reads this
    {
      |compiled| <= PATTERN_CACHE_MAX && forall p :: p in compiled ==> compiled[p] == re.compile(p)
    }

    constructor (re: Regexes)
      ensures Valid() && this.re == re
    {
      this.re, compiled := re, map[];
    }

    /** `compilePattern`. */
    method Compile(pattern: string) returns (r: Regex)
      requires Valid()
      modifies this
      ensures Valid() && r == re.compile(pattern)
      ensures forall p :: p in old(compiled) ==> p in compiled
    {
      if pattern in compiled {
        return compiled[pattern];
      }
      r := re.compile(pattern);
      if |compiled| < PATTERN_CACHE_MAX {
        compiled := compiled[pattern := r];
      }
    }
  }

  method Check(schema: Schema, v: Json, path: string, errors: ErrorList, cache: PatternCache)
    requires cache.Valid()
    modifies errors, cache
    ensures cache.Valid()
    ensures errors.items == old(errors.items) + Errors(cache.re, schema, v, path)
    decreases schema, 2
  {
    if v.Null? {
      if schema.nullable || schema.kind == Some(NullKind) {
        return;
      }
    } else if schema.kind == Some(NullKind) {
      errors.Push(MessageFor(schema, TypeWord, path, MustBe(NullKind)));
      return;
    }
    if schema.allowed.Some? && !Listed(schema.allowed.value, v) {
      errors.Push(MessageFor(schema, EnumWord, path, MustBeOneOf(schema.allowed.value)));
      return;
    }
    match schema.kind {
      case Some(ObjectKind) => CheckObject(schema, v, path, errors, cache);
      case Some(ArrayKind) => CheckArray(schema, v, path, errors, cache);
      case Some(StringKind) => CheckString(schema, v, path, errors, cache);
      case Some(NumberKind) => CheckNumber(schema, v, path, errors);
      case Some(IntegerKind) => CheckNumber(schema, v, path, errors);
      case Some(BooleanKind) =>
        if !v.Boolean? {
          errors.Push(MessageFor(schema, TypeWord, path, MustBe(BooleanKind)));
        }
      case _ =>
    }
  }

  lemma Assoc(a: seq<Problem>, b: seq<Problem>, c: seq<Problem>)
    ensures a + b + c == a + (b + c)
  {
  }

  method CheckObject(schema: Schema, v: Json, path: string, errors: ErrorList, cache: PatternCache)
    requires cache.Valid()
    modifies errors, cache
    ensures cache.Valid()
    ensures errors.items == old(errors.items) + ObjectErrors(cache.re, schema, v, path)
    decreases schema, 1
  {
    if !v.Object? {
      errors.Push(MessageFor(schema, TypeWord, path, MustBe(ObjectKind)));
      return;
    }
    ghost var (before, required) := (errors.items, RequiredErrors(schema, v.members, path, |schema.required|));
    ghost var properties := PropertyErrors(cache.re, schema, v.members, path, |schema.properties|);
    CheckRequired(schema, v.members, path, errors);
    assert errors.items == before + required;
    CheckProperties(schema, v.members, path, errors, cache);
    assert errors.items == before + required + properties;
    Assoc(before, required, properties);
    if schema.closed {
      ghost var extras := ExtraErrors(schema, v.members, path, |v.members|);
      CheckExtras(schema, v.members, path, errors);
      Assoc(before, required + properties, extras);
    }
  }

  /** What the declared property at `i` adds. */
  lemma PropertyStep(re: Regexes, schema: Schema, members: seq<Member>, path: string, i: nat, before: seq<Problem>)
    requires i <= |schema.properties|
    ensures before + PropertyErrors(re, schema, members, path, 0) == before
    ensures i < |schema.properties| ==>
              var p := schema.properties[i];
              before + PropertyErrors(re, schema, members, path, i + 1)
              == if Has(members, p.key)
                 then before + PropertyErrors(re, schema, members, path, i)
                      + Errors(re, p.schema, Get(members, p.key), path + "." + p.key)
                 else before + PropertyErrors(re, schema, members, path, i)
  {
    hide Errors, Find;
    if i < |schema.properties| {
      var p := schema.properties[i];
      if Has(members, p.key) {
        Assoc(before, PropertyErrors(re, schema, members, path, i),
              Errors(re, p.schema, Get(members, p.key), path + "." + p.key));
      }
    }
  }

  method CheckProperties(schema: Schema, members: seq<Member>, path: string, errors: ErrorList, cache: PatternCache)
    requires cache.Valid()
    modifies errors, cache
    ensures cache.Valid()
    ensures errors.items == old(errors.items) + PropertyErrors(cache.re, schema, members, path, |schema.properties|)
    decreases schema, 0
  {
    hide Errors, Find, PropertyErrors;
    PropertyStep(cache.re, schema, members, path, 0, errors.items);
    for i := 0 to |schema.properties|
      invariant cache.Valid()
      invariant errors.items == old(errors.items) + PropertyErrors(cache.re, schema, members, path, i)
    {
      var p := schema.properties[i];
      PropertyStep(cache.re, schema, members, path, i, old(errors.items));
      if Has(members, p.key) {
        Check(p.schema, Get(members, p.key), path + "." + p.key, errors, cache);
      }
    }
  }

  method CheckRequired(schema: Schema, members: seq<Member>, path: string, errors: ErrorList)
    modifies errors
    ensures errors.items == old(errors.items) + RequiredErrors(schema, members, path, |schema.required|)
  {
    for i := 0 to |schema.required|
      invariant errors.items == old(errors.items) + RequiredErrors(schema, members, path, i)
    {
      if !Has(members, schema.required[i]) {
        errors.Push(RequiredMessage(schema, schema.required[i], path));
      }
    }
  }

  method CheckExtras(schema: Schema, members: seq<Member>, path: string, errors: ErrorList)
    modifies errors
    ensures errors.items == old(errors.items) + ExtraErrors(schema, members, path, |members|)
  {
    for i := 0 to |members|
      invariant errors.items == old(errors.items) + ExtraErrors(schema, members, path, i)
    {
      if !Declared(schema.properties, members[i].key) {
        errors.Push(MessageFor(schema, AdditionalWord, path + "." + members[i].key, IsNotAllowed));
      }
    }
  }

  method CheckArray(schema: Schema, v: Json, path: string, errors: ErrorList, cache: PatternCache)
    requires cache.Valid()
    modifies errors, cache
    ensures cache.Valid()
    ensures errors.items == old(errors.items) + ArrayErrors(cache.re, schema, v, path)
    decreases schema, 1
  {
    if !v.Array? {
      errors.Push(MessageFor(schema, TypeWord, path, MustBe(ArrayKind)));
      return;
    }
    if schema.items.Some? {
      CheckItems(schema, v.items, path, errors, cache);
    }
  }

  method CheckItems(schema: Schema, items: seq<Json>, path: string, errors: ErrorList, cache: PatternCache)
    requires schema.items.Some? && cache.Valid()
    modifies errors, cache
    ensures cache.Valid()
    ensures errors.items == old(errors.items) + ItemErrors(cache.re, schema, items, path, |items|)
    decreases schema, 0
  {
    for i := 0 to |items|
      invariant cache.Valid()
      invariant errors.items == old(errors.items) + ItemErrors(cache.re, schema, items, path, i)
    {
      ghost var found := Errors(cache.re, schema.items.value, items[i], path + "[" + Decimal(i) + "]");
      Assoc(old(errors.items), ItemErrors(cache.re, schema, items, path, i), found);
      Check(schema.items.value, items[i], path + "[" + Decimal(i) + "]", errors, cache);
    }
  }

  method CheckString(schema: Schema, v: Json, path: string, errors: ErrorList, cache: PatternCache)
    requires cache.Valid()
    modifies errors, cache
    ensures cache.Valid()
    ensures errors.items == old(errors.items) + StringErrors(cache.re, schema, v, path)
  {
    if !v.String? {
      errors.Push(MessageFor(schema, TypeWord, path, MustBe(StringKind)));
      return;
    }
    ghost var (before, lengths) := (errors.items, LengthErrors(schema, Utf16Length(v.s) as real, path));
    ghost var pattern :=
      When(FailsPattern(cache.re, schema, v.s), MessageFor(schema, PatternWord, path, MustMatch(schema.pattern)));
    ghost var format := FormatErrors(cache.re, schema, v.s, path);
    CheckLength(schema, Utf16Length(v.s) as real, path, errors);
    assert errors.items == before + lengths;
    CheckPattern(schema, v.s, path, errors, cache);
    assert errors.items == before + lengths + pattern;
    Assoc(before, lengths, pattern);
    Assoc(before, lengths + pattern, format);
    if schema.format.Some? && !cache.re.formats(schema.format.value)(v.s) {
      errors.Push(MessageFor(schema, FormatWord, path, MustBeValid(schema.format.value)));
    }
  }

  method CheckPattern(schema: Schema, s: string, path: string, errors: ErrorList, cache: PatternCache)
    requires cache.Valid()
    modifies errors, cache
    ensures cache.Valid()
    ensures errors.items == old(errors.items)
      + When(FailsPattern(cache.re, schema, s), MessageFor(schema, PatternWord, path, MustMatch(schema.pattern)))
  {
    if schema.pattern != "" {
      var problem := MessageFor(schema, PatternWord, path, MustMatch(schema.pattern));
      if Utf16Length(s) as real > (if schema.maxLength.Some? then schema.maxLength.value else PATTERN_INPUT_CAP) {
        errors.Push(problem);
      } else {
        var regex := cache.Compile(schema.pattern);
        if !regex(s) {
          errors.Push(problem);
        }
      }
    }
  }

  method CheckLength(schema: Schema, n: real, path: string, errors: ErrorList)
    modifies errors
    ensures errors.items == old(errors.items) + LengthErrors(schema, n, path)
  {
    if Below(n, schema.minLength) {
      errors.Push(MessageFor(schema, MinLengthWord, path, MustHaveAtLeast(schema.minLength.value)));
    }
    if Above(n, schema.maxLength) {
      errors.Push(MessageFor(schema, MaxLengthWord, path, MustHaveAtMost(schema.maxLength.value)));
    }
  }

  method CheckNumber(schema: Schema, v: Json, path: string, errors: ErrorList)
    modifies errors
    ensures errors.items == old(errors.items) + NumberErrors(schema, v, path)
  {
    if !v.Number? {
      errors.Push(MessageFor(schema, TypeWord, path, MustBe(NumberKind)));
      return;
    }
    if schema.kind == Some(IntegerKind) && !IsInteger(v.n) {
      errors.Push(MessageFor(schema, TypeWord, path, MustBe(IntegerKind)));
    }
    if Below(v.n, schema.minimum) {
      errors.Push(MessageFor(schema, MinimumWord, path, MustNotBeBelow(schema.minimum.value)));
    }
    if Above(v.n, schema.maximum) {
      errors.Push(MessageFor(schema, MaximumWord, path, MustNotBeAbove(schema.maximum.value)));
    }
  }

  method Validate(schema: Schema, v: Json, path: string, cache: PatternCache) returns (problems: seq<Problem>)
    requires cache.Valid()
    modifies cache
    ensures cache.Valid()
    ensures problems == Errors(cache.re, schema, v, if path == "" then "value" else path)
    ensures problems == [] <==> Conforms(cache.re, schema, v)
  {
    var errors := new ErrorList();
    Check(schema, v, if path == "" then "value" else path, errors, cache);
    NoErrorsMeansConforming(cache.re, schema, v, if path == "" then "value" else path);
    return errors.items;
  }

  // ----- What validity means -----

  /** What a schema accepts, said without paths, messages or order. */
  ghost predicate Conforms(re: Regexes, schema: Schema, v: Json)
    decreases schema, 1
  {
    || (v.Null? && (schema.nullable || schema.kind == Some(NullKind)))
    || ((schema.allowed.Some? ==> Listed(schema.allowed.value, v))
        && match schema.kind
           case None => true
           case Some(NullKind) => false
           case Some(BooleanKind) => v.Boolean?
           case Some(NumberKind) => v.Number? && InRange(schema, v.n)
           case Some(IntegerKind) => v.Number? && IsInteger(v.n) && InRange(schema, v.n)
           case Some(StringKind) => v.String? && StringConforms(re, schema, v.s)
           case Some(ArrayKind) => v.Array? && ItemsConform(re, schema, v.items)
           case Some(ObjectKind) => v.Object? && MembersConform(re, schema, v.members))
  }

  ghost predicate ItemsConform(re: Regexes, schema: Schema, items: seq<Json>)
    decreases schema, 0
  {
    schema.items.Some? ==> forall i :: 0 <= i < |items| ==> Conforms(re, schema.items.value, items[i])
  }

  ghost predicate MembersConform(re: Regexes, schema: Schema, members: seq<Member>)
    decreases schema, 0
  {
    && (forall i :: 0 <= i < |schema.required| ==> Has(members, schema.required[i]))
    && (forall i :: 0 <= i < |schema.properties| && Has(members, schema.properties[i].key)
          ==> Conforms(re, schema.properties[i].schema, Get(members, schema.properties[i].key)))
    && (schema.closed ==> forall i :: 0 <= i < |members| ==> Declared(schema.properties, members[i].key))
  }

  predicate InRange(schema: Schema, x: real) {
    !Below(x, schema.minimum) && !Above(x, schema.maximum)
  }

  predicate StringConforms(re: Regexes, schema: Schema, s: string) {
    && !Below(Utf16Length(s) as real, schema.minLength)
    && !Above(Utf16Length(s) as real, schema.maxLength)
    && !FailsPattern(re, schema, s)
    && (schema.format.Some? ==> re.formats(schema.format.value)(s))
  }

  lemma {:induction false} RequiredOk(schema: Schema, members: seq<Member>, path: string, n: nat)
    requires n <= |schema.required|
    ensures RequiredErrors(schema, members, path, n) == []
       <==> forall j :: 0 <= j < n ==> Has(members, schema.required[j])
  {
    hide Find, RequiredMessage, Has;
    if n > 0 {
      RequiredOk(schema, members, path, n - 1);
    }
  }

  lemma {:induction false} ExtrasOk(schema: Schema, members: seq<Member>, path: string, n: nat)
    requires n <= |members|
    ensures ExtraErrors(schema, members, path, n) == []
       <==> forall j :: 0 <= j < n ==> Declared(schema.properties, members[j].key)
  {
    hide Declared, MessageFor;
    if n > 0 {
      ExtrasOk(schema, members, path, n - 1);
    }
  }

  lemma {:induction false} PropertiesOk(re: Regexes, schema: Schema, members: seq<Member>, path: string, n: nat)
    requires n <= |schema.properties|
    ensures PropertyErrors(re, schema, members, path, n) == []
       <==> forall j :: 0 <= j < n && Has(members, schema.properties[j].key)
              ==> Conforms(re, schema.properties[j].schema, Get(members, schema.properties[j].key))
    decreases schema, 0, n
  {
    hide Find, Errors, Conforms;
    if n > 0 {
      var p := schema.properties[n - 1];
      PropertiesOk(re, schema, members, path, n - 1);
      if Has(members, p.key) {
        NoErrorsMeansConforming(re, p.schema, Get(members, p.key), path + "." + p.key);
      }
    }
  }

  lemma {:induction false} ItemsOk(re: Regexes, schema: Schema, items: seq<Json>, path: string, n: nat)
    requires schema.items.Some? && n <= |items|
    ensures ItemErrors(re, schema, items, path, n) == []
       <==> forall j :: 0 <= j < n ==> Conforms(re, schema.items.value, items[j])
    decreases schema, 0, n
  {
    hide Errors, Conforms;
    if n > 0 {
      ItemsOk(re, schema, items, path, n - 1);
      NoErrorsMeansConforming(re, schema.items.value, items[n - 1], path + "[" + Decimal(n - 1) + "]");
    }
  }

  lemma ObjectOk(re: Regexes, schema: Schema, v: Json, path: string)
    ensures ObjectErrors(re, schema, v, path) == [] <==> v.Object? && MembersConform(re, schema, v.members)
    decreases schema, 1
  {
    if v.Object? {
      RequiredOk(schema, v.members, path, |schema.required|);
      PropertiesOk(re, schema, v.members, path, |schema.properties|);
      ExtrasOk(schema, v.members, path, |v.members|);
    }
  }

  lemma ArrayOk(re: Regexes, schema: Schema, v: Json, path: string)
    ensures ArrayErrors(re, schema, v, path) == [] <==> v.Array? && ItemsConform(re, schema, v.items)
    decreases schema, 1
  {
    if v.Array? && schema.items.Some? {
      ItemsOk(re, schema, v.items, path, |v.items|);
    }
  }

  /** The error list is empty exactly for the values the schema accepts: no custom message, path
      or earlier error hides or invents one. */
  lemma {:induction false} NoErrorsMeansConforming(re: Regexes, schema: Schema, v: Json, path: string)
    ensures Errors(re, schema, v, path) == [] <==> Conforms(re, schema, v)
    decreases schema, 2
  {
    if schema.kind == Some(ObjectKind) {
      ObjectOk(re, schema, v, path);
    } else if schema.kind == Some(ArrayKind) {
      ArrayOk(re, schema, v, path);
    }
  }
}
