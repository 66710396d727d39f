/** ts/http/schema.ts, serialization: a value is written as its schema declares it, and what is not
    declared is left out. */
module JsonSerialize {
  import opened JsonSchema
  import opened JsonText
  import opened Text
  import opened Wrappers

  /** What `obj[key]` can yield: a JSON value, or a function found through the prototype. */
  datatype Value = Plain(json: Json) | Function(source: string)

  /** `inherited` is what every plain object inherits under a name, by its source text;
      `arrayMember` is what an array has under a name; `coerce` is `String` of an array or object. */
  datatype Engine = Engine(
    num: Numerals,
    inherited: string -> Option<string>,
    arrayMember: (seq<Json>, string) -> Option<Value>,
    coerce: Json -> string
  )

  predicate AllDoubles(num: Numerals, items: seq<Json>) {
    forall i :: 0 <= i < |items| ==> Doubles(num, items[i])
  }

  ghost predicate LawfulEngine(en: Engine) {
    && Lawful(en.num)
    && forall items, key :: AllDoubles(en.num, items) && en.arrayMember(items, key).Some? ==>
                              Holds(en, en.arrayMember(items, key).value)
  }

  predicate Holds(en: Engine, v: Value) {
    v.Plain? ==> Doubles(en.num, v.json)
  }

  /** `obj[key]`, and `None` for `undefined`: own properties first, then the prototype's. */
  function Lookup(en: Engine, obj: Json, key: string): Option<Value> {
    match obj
    case Object(members) =>
      if Has(members, key) then Some(Plain(Get(members, key)))
      else if en.inherited(key).Some? then Some(Function(en.inherited(key).value))
      else None
    case Array(items) => en.arrayMember(items, key)
    case _ => None
  }

  predicate IsObject(v: Value) {
    v.Plain? && (v.json.Object? || v.json.Array?)
  }

  /** `String(value)`. */
  function ToText(en: Engine, v: Value): string {
    match v
    case Function(source) => source
    case Plain(Null) => "null"
    case Plain(Boolean(b)) => if b then "true" else "false"
    case Plain(Number(n)) => en.num.write(n)
    case Plain(String(s)) => s
    case Plain(json) => en.coerce(json)
  }

  predicate Truthy(v: Value) {
    match v
    case Plain(Null) => false
    case Plain(Boolean(b)) => b
    case Plain(Number(n)) => n != 0.0
    case Plain(String(s)) => s != ""
    case _ => true
  }

  // ----- The text -----

  function Serialize(en: Engine, schema: Schema, v: Value): string
    decreases schema, 1
  {
    if v == Plain(Null) then "null"
    else
      match schema.kind
      case Some(ObjectKind) =>
        if !IsObject(v) then "null" else ObjectText(Pairs(en, schema, v.json, |schema.properties|))
      case Some(ArrayKind) =>
        if v.Function? || !v.json.Array? then "[]"
        else if schema.items.None? then Stringify(en.num, v.json)
        else ArrayText(Texts(en, schema, v.json.items))
      case Some(StringKind) => Quote(ToText(en, v))
      case Some(IntegerKind) => NumberText(en, v)
      case Some(NumberKind) => NumberText(en, v)
      case Some(BooleanKind) => if Truthy(v) then "true" else "false"
      case _ => if v.Plain? then Stringify(en.num, v.json) else "undefined"
  }

  function NumberText(en: Engine, v: Value): string {
    if v.Plain? && v.json.Number? then en.num.write(v.json.n) else "null"
  }

  function Texts(en: Engine, schema: Schema, items: seq<Json>): seq<string>
    requires schema.items.Some?
    decreases schema, 0
  {
    seq(|items|, i requires 0 <= i < |items| => Serialize(en, schema.items.value, Plain(items[i])))
  }

  /** What the first `n` declared properties add to an object's text. */
  function Pairs(en: Engine, schema: Schema, obj: Json, n: nat): seq<string>
    requires n <= |schema.properties|
    decreases schema, 0, n
  {
    if n == 0 then []
    else
      var p := schema.properties[n - 1];
      var found := Lookup(en, obj, p.key);
      var before := Pairs(en, schema, obj, n - 1);
      if found.None? then before else before + [PairText(p.key, Serialize(en, p.schema, found.value))]
  }

  lemma {:induction false} JoinSnoc(parts: seq<string>, x: string)
    ensures Join(parts + [x], ',') == if parts == [] then x else Join(parts, ',') + "," + x
  {
    if parts == [] {
      assert parts + [x] == [x];
    } else {
      JoinSnoc(parts[1..], x);
      assert (parts + [x])[1..] == parts[1..] + [x];
    }
  }

  lemma JoinNone(parts: seq<string>)
    requires parts == []
    ensures Join(parts, ',') == ""
  {
  }

  method DoSerialize(en: Engine, schema: Schema, v: Value) returns (text: string)
    ensures text == Serialize(en, schema, v)
    decreases schema, 1
  {
    if v == Plain(Null) {
      return "null";
    }
    match schema.kind {
      case Some(ObjectKind) =>
        if !IsObject(v) {
          return "null";
        }
        text := SerializeObject(en, schema, v.json);
      case Some(ArrayKind) =>
        if v.Function? || !v.json.Array? {
          return "[]";
        }
        text := SerializeArray(en, schema, v.json);
      case Some(StringKind) => text := Quote(ToText(en, v));
      case Some(IntegerKind) => text := NumberText(en, v);
      case Some(NumberKind) => text := NumberText(en, v);
      case Some(BooleanKind) => text := if Truthy(v) then "true" else "false";
      case _ => text := if v.Plain? then Stringify(en.num, v.json) else "undefined";
    }
  }

  method SerializeObject(en: Engine, schema: Schema, obj: Json) returns (out: string)
    ensures out == ObjectText(Pairs(en, schema, obj, |schema.properties|))
    decreases schema, 0
  {
    hide Lookup, PairText, Serialize, Join;
    var first := true;
    out := "{";
    JoinNone(Pairs(en, schema, obj, 0));
    for i := 0 to |schema.properties|
      invariant first == (Pairs(en, schema, obj, i) == [])
      invariant out == "{" + Join(Pairs(en, schema, obj, i), ',')
    {
      var p := schema.properties[i];
      var found := Lookup(en, obj, p.key);
      if found.Some? {
        var text := DoSerialize(en, p.schema, found.value);
        JoinSnoc(Pairs(en, schema, obj, i), PairText(p.key, text));
        if !first {
          out := out + ",";
        }
        out := out + PairText(p.key, text);
        first := false;
      }
    }
    out := out + "}";
  }

  /** Without an item schema the items are untyped. */
  method SerializeArray(en: Engine, schema: Schema, v: Json) returns (out: string)
    requires v.Array?
    ensures out == if schema.items.None? then Stringify(en.num, v) else ArrayText(Texts(en, schema, v.items))
    decreases schema, 0
  {
    var texts: seq<string> := [];
    for i := 0 to |v.items|
      invariant |texts| == i
      invariant forall j :: 0 <= j < i ==>
        texts[j] == if schema.items.None? then Stringify(en.num, v.items[j])
                    else Serialize(en, schema.items.value, Plain(v.items[j]))
    {
      var text;
      if schema.items.None? {
        text := Stringify(en.num, v.items[i]);
      } else {
        text := DoSerialize(en, schema.items.value, Plain(v.items[i]));
      }
      texts := texts + [text];
    }
    if schema.items.Some? {
      assert texts == Texts(en, schema, v.items);
    } else {
      assert texts == seq(|v.items|, i requires 0 <= i < |v.items| => Stringify(en.num, v.items[i]));
    }
    return ArrayText(texts);
  }

  // ----- The value the text denotes -----

  /** The value a serialized text denotes, and `None` when it is no JSON. */
  function Seen(en: Engine, schema: Schema, v: Value): Option<Json>
    decreases schema, 1
  {
    if v == Plain(Null) then Some(Null)
    else
      match schema.kind
      case Some(ObjectKind) =>
        if !IsObject(v) then Some(Null) else ObjectOf(Slots(en, schema, v.json, |schema.properties|))
      case Some(ArrayKind) =>
        if v.Function? || !v.json.Array? then Some(Array([]))
        else if schema.items.None? then Some(v.json)
        else ArrayOf(SeenItems(en, schema, v.json.items))
      case Some(StringKind) => Some(String(ToText(en, v)))
      case Some(IntegerKind) => SeenNumber(v)
      case Some(NumberKind) => SeenNumber(v)
      case Some(BooleanKind) => Some(Boolean(Truthy(v)))
      case _ => if v.Plain? then Some(v.json) else None
  }

  function SeenNumber(v: Value): Option<Json> {
    Some(if v.Plain? && v.json.Number? then v.json else Null)
  }

  function SeenItems(en: Engine, schema: Schema, items: seq<Json>): seq<Option<Json>>
    requires schema.items.Some?
    decreases schema, 0
  {
    seq(|items|, i requires 0 <= i < |items| => Seen(en, schema.items.value, Plain(items[i])))
  }

  function Slots(en: Engine, schema: Schema, obj: Json, n: nat): seq<Slot>
    requires n <= |schema.properties|
    decreases schema, 0, n
  {
    if n == 0 then []
    else
      var p := schema.properties[n - 1];
      var found := Lookup(en, obj, p.key);
      var before := Slots(en, schema, obj, n - 1);
      if found.None? then before else before + [Slot(p.key, Seen(en, p.schema, found.value))]
  }

  lemma UndefinedDenotesNothing(num: Numerals)
    ensures Denotes(num, "undefined", None)
  {
    forall rest | Ends(rest) ensures ReadsAs(num, "undefined", None, rest) {
      assert NumeralLength("undefined" + rest) == 0;
    }
  }

  lemma LookupHolds(en: Engine, obj: Json, key: string)
    requires LawfulEngine(en) && Doubles(en.num, obj)
    ensures Lookup(en, obj, key).Some? ==> Holds(en, Lookup(en, obj, key).value)
  {
    if obj.Array? {
      assert AllDoubles(en.num, obj.items);
    }
  }

  /** The text of an object's pairs, one by one. */
  ghost predicate Written(en: Engine, pairs: seq<string>, slots: seq<Slot>) {
    exists texts :: PairsDenote(en.num, pairs, texts, slots)
  }

  lemma WrittenSnoc(en: Engine, pairs: seq<string>, slots: seq<Slot>, key: string, text: string, v: Option<Json>)
    requires Written(en, pairs, slots) && Denotes(en.num, text, v)
    ensures Written(en, pairs + [PairText(key, text)], slots + [Slot(key, v)])
  {
    var texts :| PairsDenote(en.num, pairs, texts, slots);
    assert PairsDenote(en.num, pairs + [PairText(key, text)], texts + [text], slots + [Slot(key, v)]);
  }

  lemma NothingWritten(en: Engine, pairs: seq<string>, slots: seq<Slot>)
    requires pairs == [] && slots == []
    ensures Written(en, pairs, slots)
  {
    var texts: seq<string> := [];
    assert PairsDenote(en.num, pairs, texts, slots);
  }

  lemma {:induction false} PairsWritten(en: Engine, schema: Schema, obj: Json, n: nat)
    requires LawfulEngine(en) && Doubles(en.num, obj) && n <= |schema.properties|
    ensures Written(en, Pairs(en, schema, obj, n), Slots(en, schema, obj, n))
    decreases schema, 0, n
  {
    if n == 0 {
      NothingWritten(en, Pairs(en, schema, obj, n), Slots(en, schema, obj, n));
    } else {
      var p := schema.properties[n - 1];
      PairsWritten(en, schema, obj, n - 1);
      LookupHolds(en, obj, p.key);
      var found := Lookup(en, obj, p.key);
      if found.Some? {
        SerializeDenotes(en, p.schema, found.value);
        WrittenSnoc(en, Pairs(en, schema, obj, n - 1), Slots(en, schema, obj, n - 1),
                    p.key, Serialize(en, p.schema, found.value), Seen(en, p.schema, found.value));
      }
    }
  }

  lemma ObjectSerializes(en: Engine, schema: Schema, obj: Json)
    requires LawfulEngine(en) && Doubles(en.num, obj)
    ensures Denotes(en.num, ObjectText(Pairs(en, schema, obj, |schema.properties|)),
                    ObjectOf(Slots(en, schema, obj, |schema.properties|)))
    decreases schema, 1
  {
    var n := |schema.properties|;
    PairsWritten(en, schema, obj, n);
    var texts :| PairsDenote(en.num, Pairs(en, schema, obj, n), texts, Slots(en, schema, obj, n));
    ObjectDenotes(en.num, Pairs(en, schema, obj, n), texts, Slots(en, schema, obj, n));
  }

  lemma ArraySerializes(en: Engine, schema: Schema, items: seq<Json>)
    requires LawfulEngine(en) && AllDoubles(en.num, items) && schema.items.Some?
    ensures Denotes(en.num, ArrayText(Texts(en, schema, items)), ArrayOf(SeenItems(en, schema, items)))
    decreases schema, 1
  {
    var (texts, vs) := (Texts(en, schema, items), SeenItems(en, schema, items));
    forall i | 0 <= i < |items| ensures Denotes(en.num, texts[i], vs[i]) {
      SerializeDenotes(en, schema.items.value, Plain(items[i]));
    }
    ArrayDenotes(en.num, texts, vs);
  }

  /** `[]`, written for what should have been an array. */
  lemma EmptyArrayDenotes(num: Numerals, texts: seq<string>, vs: seq<Option<Json>>)
    requires texts == [] && vs == []
    ensures Denotes(num, "[]", Some(Array([])))
  {
    ArrayDenotes(num, texts, vs);
    assert ArrayText(texts) == "[]" && Values(vs) == [];
  }

  /** Whatever the schema and the value, the text denotes `Seen`, and is no JSON without one. */
  lemma {:induction false} SerializeDenotes(en: Engine, schema: Schema, v: Value)
    requires LawfulEngine(en) && Holds(en, v)
    ensures Denotes(en.num, Serialize(en, schema, v), Seen(en, schema, v))
    decreases schema, 2
  {
    WordsDenote(en.num);
    if v != Plain(Null) {
      match schema.kind {
        case Some(ObjectKind) =>
          if IsObject(v) {
            ObjectSerializes(en, schema, v.json);
          }
        case Some(ArrayKind) =>
          if v.Function? || !v.json.Array? {
            EmptyArrayDenotes(en.num, [], []);
          } else if schema.items.None? {
            StringifyDenotes(en.num, v.json);
          } else {
            ArraySerializes(en, schema, v.json.items);
          }
        case Some(StringKind) => StringDenotes(en.num, ToText(en, v));
        case Some(BooleanKind) =>
        case _ =>
          if v.Plain? {
            StringifyDenotes(en.num, v.json);
          } else {
            UndefinedDenotesNothing(en.num);
          }
      }
    }
  }

  // ----- Engines exist -----

  /** An engine whose objects inherit `constructor`, and whose arrays have a length. */
  function SmallEngine(): Engine {
    Engine(WholeNumerals(),
           (key: string) => if key == "constructor" then Some("function Object() { [native code] }") else None,
           (items: seq<Json>, key: string) => if key == "length" then Some(Plain(Number(|items| as real))) else None,
           (_: Json) => "[object Object]")
  }

  lemma LawfulEngineExists()
    ensures LawfulEngine(SmallEngine()) && SmallEngine().inherited("constructor").Some?
  {
    LawfulNumeralsExist();
  }
}
