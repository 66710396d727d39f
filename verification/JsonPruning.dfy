/** What ts/http/schema.ts promises of a value that is valid and then serialized: the text denotes
    the value pruned to declared properties, that is valid again, and serializing it changes nothing. */
module JsonPruning {
  import opened JsonSchema
  import opened JsonSerialize
  import opened JsonText
  import opened Wrappers

  /** The value without its undeclared properties, in the schema's order. */
  function Own(schema: Schema, v: Json): Json
    decreases schema, 1
  {
    if schema.kind == Some(ObjectKind) && v.Object? then Object(OwnMembers(schema, v.members, |schema.properties|))
    else if schema.kind == Some(ArrayKind) && v.Array? && schema.items.Some? then Array(OwnItems(schema, v.items))
    else v
  }

  function OwnItems(schema: Schema, items: seq<Json>): (r: seq<Json>)
    requires schema.items.Some?
    ensures |r| == |items|
    decreases schema, 0
  {
    seq(|items|, i requires 0 <= i < |items| => Own(schema.items.value, items[i]))
  }

  function OwnMembers(schema: Schema, members: seq<Member>, n: nat): seq<Member>
    requires n <= |schema.properties|
    decreases schema, 0, n
  {
    if n == 0 then []
    else
      var p := schema.properties[n - 1];
      var before := OwnMembers(schema, members, n - 1);
      if Has(members, p.key) then before + [Member(p.key, Own(p.schema, Get(members, p.key)))] else before
  }

  /** No declared property that is missing has the name of an inherited one, at any depth. */
  ghost predicate Clean(en: Engine, schema: Schema, v: Json)
    decreases schema, 1
  {
    && (schema.kind == Some(ObjectKind) && v.Object? ==>
          CleanUpTo(en, schema, v.members, |schema.properties|))
    && (schema.kind == Some(ArrayKind) && v.Array? && schema.items.Some? ==>
          forall i :: 0 <= i < |v.items| ==> Clean(en, schema.items.value, v.items[i]))
  }

  ghost predicate CleanUpTo(en: Engine, schema: Schema, members: seq<Member>, n: nat)
    requires n <= |schema.properties|
    decreases schema, 0, n
  {
    n == 0 || (CleanUpTo(en, schema, members, n - 1)
               && var p := schema.properties[n - 1];
                  if Has(members, p.key) then Clean(en, p.schema, Get(members, p.key)) else en.inherited(p.key).None?)
  }

  /** Property names are distinct, as the keys of a JavaScript object are. */
  ghost predicate DistinctNames(schema: Schema)
    decreases schema
  {
    && (forall i, j :: 0 <= i < j < |schema.properties| ==> schema.properties[i].key != schema.properties[j].key)
    && (forall i :: 0 <= i < |schema.properties| ==> DistinctNames(schema.properties[i].schema))
    && (schema.items.Some? ==> DistinctNames(schema.items.value))
  }

  /** Every property required of an object in the value is declared. */
  ghost predicate RequiredAreDeclared(schema: Schema, v: Json)
    decreases schema
  {
    && (schema.kind == Some(ObjectKind) && v.Object? ==>
          && (forall i :: 0 <= i < |schema.required| ==> Declared(schema.properties, schema.required[i]))
          && (forall i :: 0 <= i < |schema.properties| && Has(v.members, schema.properties[i].key)
                ==> RequiredAreDeclared(schema.properties[i].schema, Get(v.members, schema.properties[i].key))))
    && (schema.kind == Some(ArrayKind) && v.Array? && schema.items.Some? ==>
          forall i :: 0 <= i < |v.items| ==> RequiredAreDeclared(schema.items.value, v.items[i]))
  }

  /** A schema all of whose required properties are declared. */
  ghost predicate RequiredDeclared(schema: Schema)
    decreases schema
  {
    && (forall i :: 0 <= i < |schema.required| ==> Declared(schema.properties, schema.required[i]))
    && (forall i :: 0 <= i < |schema.properties| ==> RequiredDeclared(schema.properties[i].schema))
    && (schema.items.Some? ==> RequiredDeclared(schema.items.value))
  }

  lemma {:induction false} DeclaredForEveryValue(schema: Schema, v: Json)
    requires RequiredDeclared(schema)
    ensures RequiredAreDeclared(schema, v)
  {
    if schema.kind == Some(ObjectKind) && v.Object? {
      forall i | 0 <= i < |schema.properties| && Has(v.members, schema.properties[i].key)
        ensures RequiredAreDeclared(schema.properties[i].schema, Get(v.members, schema.properties[i].key))
      {
        DeclaredForEveryValue(schema.properties[i].schema, Get(v.members, schema.properties[i].key));
      }
    } else if schema.kind == Some(ArrayKind) && v.Array? && schema.items.Some? {
      forall i | 0 <= i < |v.items| ensures RequiredAreDeclared(schema.items.value, v.items[i]) {
        DeclaredForEveryValue(schema.items.value, v.items[i]);
      }
    }
  }

  // ----- Pruned members -----

  lemma FoundFirst(members: seq<Member>, key: string, i: nat)
    requires i < |members| && members[i].key == key && forall j :: 0 <= j < i ==> members[j].key != key
    ensures Find(members, key) == i
  {
  }

  lemma NotFound(members: seq<Member>, key: string)
    requires forall j :: 0 <= j < |members| ==> members[j].key != key
    ensures Find(members, key) == |members|
  {
  }

  lemma FindBefore(before: seq<Member>, m: Member, key: string)
    ensures Has(before, key) ==> Has(before + [m], key) && Get(before + [m], key) == Get(before, key)
    ensures !Has(before, key) && m.key == key ==> Has(before + [m], key) && Get(before + [m], key) == m.value
    ensures !Has(before, key) && m.key != key ==> !Has(before + [m], key)
  {
    var (all, i) := (before + [m], Find(before, key));
    assert forall j :: 0 <= j < |before| ==> all[j] == before[j];
    if i < |before| || m.key == key {
      FoundFirst(all, key, i);
    } else {
      NotFound(all, key);
    }
  }

  /** A name is in the pruned members exactly when it is declared and was there. */
  lemma {:induction false} OwnHas(schema: Schema, members: seq<Member>, n: nat, key: string)
    requires n <= |schema.properties|
    ensures Has(OwnMembers(schema, members, n), key)
       <==> Has(members, key) && exists i :: 0 <= i < n && schema.properties[i].key == key
  {
    if n > 0 {
      var p := schema.properties[n - 1];
      OwnHas(schema, members, n - 1, key);
      if Has(members, p.key) {
        FindBefore(OwnMembers(schema, members, n - 1), Member(p.key, Own(p.schema, Get(members, p.key))), key);
      }
    }
  }

  /** And under it is the pruned value that was there. */
  lemma {:induction false} OwnGet(schema: Schema, members: seq<Member>, n: nat, i: nat)
    requires DistinctNames(schema) && i < n <= |schema.properties| && Has(members, schema.properties[i].key)
    ensures var p := schema.properties[i];
            Has(OwnMembers(schema, members, n), p.key)
            && Get(OwnMembers(schema, members, n), p.key) == Own(p.schema, Get(members, p.key))
  {
    hide Own, Find;
    var (p, last) := (schema.properties[i], schema.properties[n - 1]);
    if Has(members, last.key) {
      FindBefore(OwnMembers(schema, members, n - 1), Member(last.key, Own(last.schema, Get(members, last.key))), p.key);
    }
    if i < n - 1 {
      OwnGet(schema, members, n - 1, i);
    } else {
      OwnHas(schema, members, n - 1, p.key);
    }
  }

  lemma OwnLookup(schema: Schema, members: seq<Member>, i: nat)
    requires DistinctNames(schema) && i < |schema.properties|
    ensures var (p, pruned) := (schema.properties[i], OwnMembers(schema, members, |schema.properties|));
            && (Has(pruned, p.key) <==> Has(members, p.key))
            && (Has(members, p.key) ==> Get(pruned, p.key) == Own(p.schema, Get(members, p.key)))
  {
    OwnHas(schema, members, |schema.properties|, schema.properties[i].key);
    if Has(members, schema.properties[i].key) {
      OwnGet(schema, members, |schema.properties|, i);
    }
  }

  lemma {:induction false} OwnDeclared(schema: Schema, members: seq<Member>, n: nat, j: nat)
    requires n <= |schema.properties| && j < |OwnMembers(schema, members, n)|
    ensures Declared(schema.properties, OwnMembers(schema, members, n)[j].key)
  {
    var p := schema.properties[n - 1];
    if Has(members, p.key) && j == |OwnMembers(schema, members, n - 1)| {
      assert OwnMembers(schema, members, n)[j].key == schema.properties[n - 1].key;
    } else {
      OwnDeclared(schema, members, n - 1, j);
    }
  }

  // ----- The pruned value is valid -----

  lemma ListedIsScalar(schema: Schema, v: Json)
    requires schema.allowed.Some? && Listed(schema.allowed.value, v)
    ensures Own(schema, v) == v
  {
  }

  lemma OwnObjectConforms(re: Regexes, schema: Schema, v: Json)
    requires DistinctNames(schema) && schema.kind == Some(ObjectKind)
    requires v.Object? && MembersConform(re, schema, v.members)
    ensures MembersConform(re, schema, OwnMembers(schema, v.members, |schema.properties|))
       <==> RequiredAreDeclared(schema, v)
    decreases schema, 0
  {
    var n := |schema.properties|;
    var pruned := OwnMembers(schema, v.members, n);
    forall i | 0 <= i < |schema.required|
      ensures Has(pruned, schema.required[i]) <==> Declared(schema.properties, schema.required[i])
    {
      OwnHas(schema, v.members, n, schema.required[i]);
    }
    forall i | 0 <= i < n
      ensures Has(pruned, schema.properties[i].key) <==> Has(v.members, schema.properties[i].key)
      ensures Has(v.members, schema.properties[i].key) ==>
                var p := schema.properties[i];
                Conforms(re, p.schema, Get(pruned, p.key)) <==> RequiredAreDeclared(p.schema, Get(v.members, p.key))
    {
      var p := schema.properties[i];
      OwnLookup(schema, v.members, i);
      if Has(v.members, p.key) {
        PrunedConforms(re, p.schema, Get(v.members, p.key));
      }
    }
    forall j | 0 <= j < |pruned| ensures Declared(schema.properties, pruned[j].key) {
      OwnDeclared(schema, v.members, n, j);
    }
  }

  /** The pruned value of a valid value is valid exactly when every required property is declared. */
  lemma {:induction false} PrunedConforms(re: Regexes, schema: Schema, v: Json)
    requires DistinctNames(schema) && Conforms(re, schema, v)
    ensures Conforms(re, schema, Own(schema, v)) <==> RequiredAreDeclared(schema, v)
    decreases schema, 1
  {
    if schema.allowed.Some? && Listed(schema.allowed.value, v) {
      ListedIsScalar(schema, v);
    } else if schema.kind == Some(ObjectKind) && v.Object? {
      OwnObjectConforms(re, schema, v);
    } else if schema.kind == Some(ArrayKind) && v.Array? && schema.items.Some? {
      var w := OwnItems(schema, v.items);
      forall i | 0 <= i < |v.items|
        ensures Conforms(re, schema.items.value, w[i]) <==> RequiredAreDeclared(schema.items.value, v.items[i])
      {
        PrunedConforms(re, schema.items.value, v.items[i]);
      }
    }
  }

  // ----- The text denotes the pruned value -----

  /** Every own declared property has a slot, and so has every inherited one that is missing. */
  lemma {:induction false} MoreSlots(en: Engine, schema: Schema, v: Json, n: nat)
    requires v.Object? && n <= |schema.properties|
    ensures |Slots(en, schema, v, n)| >= |OwnMembers(schema, v.members, n)|
  {
    if n > 0 {
      MoreSlots(en, schema, v, n - 1);
    }
  }

  /** Whether the first `n` properties are denoted exactly as pruned. */
  ghost predicate Agree(en: Engine, schema: Schema, v: Json, n: nat)
    requires v.Object? && n <= |schema.properties|
  {
    AllFilled(Slots(en, schema, v, n)) && Members(Slots(en, schema, v, n)) == OwnMembers(schema, v.members, n)
  }

  lemma SnocAgree(slots: seq<Slot>, s: Slot, members: seq<Member>, m: Member)
    ensures AllFilled(slots + [s]) <==> AllFilled(slots) && s.value.Some?
    ensures AllFilled(slots + [s]) ==> Members(slots + [s]) == Members(slots) + [Member(s.key, s.value.value)]
    ensures AllFilled(slots + [s]) && Members(slots + [s]) == members + [m]
       <==> AllFilled(slots) && s.value.Some? && Members(slots) == members && m == Member(s.key, s.value.value)
  {
    var all := slots + [s];
    assert all[|slots|] == s && forall i :: 0 <= i < |slots| ==> all[i] == slots[i];
    if AllFilled(all) {
      assert Members(all) == Members(slots) + [Member(s.key, s.value.value)];
      if Members(all) == members + [m] {
        assert |slots| == |members|;
        assert Members(slots) == Members(all)[..|slots|] == members;
        assert Members(all)[|slots|] == m;
      }
    }
  }

  lemma {:induction false} AgreeUpTo(en: Engine, re: Regexes, schema: Schema, v: Json, n: nat)
    requires v.Object? && MembersConform(re, schema, v.members) && n <= |schema.properties|
    ensures Agree(en, schema, v, n) <==> CleanUpTo(en, schema, v.members, n)
    decreases schema, 0, n
  {
    if n == 0 {
      assert Members(Slots(en, schema, v, n)) == [];
    } else {
      var p := schema.properties[n - 1];
      AgreeUpTo(en, re, schema, v, n - 1);
      var (slots, members) := (Slots(en, schema, v, n - 1), OwnMembers(schema, v.members, n - 1));
      if Has(v.members, p.key) {
        var x := Get(v.members, p.key);
        SeenIsOwn(en, re, p.schema, x);
        SnocAgree(slots, Slot(p.key, Seen(en, p.schema, Plain(x))), members, Member(p.key, Own(p.schema, x)));
      } else if en.inherited(p.key).Some? {
        MoreSlots(en, schema, v, n - 1);
        assert |Slots(en, schema, v, n)| == |slots| + 1 > |OwnMembers(schema, v.members, n)|;
      }
    }
  }

  /** For a valid value the text denotes the pruned value exactly when the value is clean. */
  lemma {:induction false} SeenIsOwn(en: Engine, re: Regexes, schema: Schema, v: Json)
    requires Conforms(re, schema, v)
    ensures Seen(en, schema, Plain(v)) == Some(Own(schema, v)) <==> Clean(en, schema, v)
    decreases schema, 1
  {
    if schema.kind == Some(ObjectKind) && v.Object? {
      var n := |schema.properties|;
      AgreeUpTo(en, re, schema, v, n);
      assert Seen(en, schema, Plain(v)) == ObjectOf(Slots(en, schema, v, n));
      assert Own(schema, v) == Object(OwnMembers(schema, v.members, n));
    } else if schema.kind == Some(ArrayKind) && v.Array? && schema.items.Some? {
      ItemsSeen(en, re, schema, v);
    }
  }

  lemma ItemsSeen(en: Engine, re: Regexes, schema: Schema, v: Json)
    requires schema.kind == Some(ArrayKind) && v.Array? && schema.items.Some? && ItemsConform(re, schema, v.items)
    ensures ArrayOf(SeenItems(en, schema, v.items)) == Some(Array(OwnItems(schema, v.items))) <==> Clean(en, schema, v)
    decreases schema, 0
  {
    var (seen, pruned) := (SeenItems(en, schema, v.items), OwnItems(schema, v.items));
    forall i | 0 <= i < |v.items| ensures seen[i] == Some(pruned[i]) <==> Clean(en, schema.items.value, v.items[i]) {
      SeenIsOwn(en, re, schema.items.value, v.items[i]);
    }
    AllEqual(seen, pruned);
  }

  lemma AllEqual(seen: seq<Option<Json>>, pruned: seq<Json>)
    requires |seen| == |pruned|
    ensures ArrayOf(seen) == Some(Array(pruned)) <==> forall i :: 0 <= i < |seen| ==> seen[i] == Some(pruned[i])
  {
    if AllSome(seen) {
      assert forall i :: 0 <= i < |seen| ==> Values(seen)[i] == seen[i].value;
      if forall i :: 0 <= i < |seen| ==> seen[i] == Some(pruned[i]) {
        assert Values(seen) == pruned;
      }
    }
  }

  // ----- Serializing the pruned value changes nothing -----

  /** A declared property of the pruned object is the pruned property, or the same inherited one. */
  lemma LookupAgain(en: Engine, schema: Schema, v: Json, i: nat)
    requires DistinctNames(schema) && schema.kind == Some(ObjectKind) && v.Object? && i < |schema.properties|
    ensures var p := schema.properties[i];
            if Has(v.members, p.key) then
              && Lookup(en, v, p.key) == Some(Plain(Get(v.members, p.key)))
              && Lookup(en, Own(schema, v), p.key) == Some(Plain(Own(p.schema, Get(v.members, p.key))))
            else Lookup(en, Own(schema, v), p.key) == Lookup(en, v, p.key)
  {
    OwnLookup(schema, v.members, i);
  }

  lemma {:induction false} PairsAgain(en: Engine, schema: Schema, v: Json, n: nat)
    requires DistinctNames(schema) && schema.kind == Some(ObjectKind) && v.Object? && n <= |schema.properties|
    ensures Pairs(en, schema, Own(schema, v), n) == Pairs(en, schema, v, n)
    decreases schema, 0, n
  {
    hide OwnMembers, Serialize, Lookup, Find;
    if n > 0 {
      var p := schema.properties[n - 1];
      PairsAgain(en, schema, v, n - 1);
      LookupAgain(en, schema, v, n - 1);
      if Has(v.members, p.key) {
        SerializesAgain(en, p.schema, Get(v.members, p.key));
      }
    }
  }

  /** Serializing the pruned value writes the same text, for every value and schema. */
  lemma {:induction false} SerializesAgain(en: Engine, schema: Schema, v: Json)
    requires DistinctNames(schema)
    ensures Serialize(en, schema, Plain(Own(schema, v))) == Serialize(en, schema, Plain(v))
    decreases schema, 1
  {
    if schema.kind == Some(ObjectKind) && v.Object? {
      PairsAgain(en, schema, v, |schema.properties|);
    } else if schema.kind == Some(ArrayKind) && v.Array? && schema.items.Some? {
      var pruned := OwnItems(schema, v.items);
      forall i | 0 <= i < |v.items|
        ensures Serialize(en, schema.items.value, Plain(pruned[i]))
             == Serialize(en, schema.items.value, Plain(v.items[i]))
      {
        SerializesAgain(en, schema.items.value, v.items[i]);
      }
      assert Texts(en, schema, pruned) == Texts(en, schema, v.items);
    }
  }

  // ----- The promise -----

  /** For every valid value: its text denotes the pruned value exactly when no missing property is
      inherited; the pruned value is valid exactly when every required property is declared; and
      serializing the pruned value gives the same text again. */
  lemma SerializationPreservesValidity(en: Engine, re: Regexes, schema: Schema, v: Json, text: string)
    requires LawfulEngine(en) && Doubles(en.num, v)
    requires DistinctNames(schema) && Conforms(re, schema, v)
    requires text == Serialize(en, schema, Plain(v))
    ensures Read(en.num, text) == Some(Own(schema, v)) <==> Clean(en, schema, v)
    ensures Conforms(re, schema, Own(schema, v)) <==> RequiredAreDeclared(schema, v)
    ensures Serialize(en, schema, Plain(Own(schema, v))) == text
  {
    SerializeDenotes(en, schema, Plain(v));
    ReadWhole(en.num, text, Seen(en, schema, Plain(v)));
    SeenIsOwn(en, re, schema, v);
    PrunedConforms(re, schema, v);
    SerializesAgain(en, schema, v);
  }

  /** A schema with one optional property. */
  predicate OneProperty(schema: Schema, key: string, sub: Schema) {
    && schema.kind == Some(ObjectKind) && schema.properties == [Property(key, sub)]
    && schema.required == [] && schema.allowed.None? && !schema.closed
  }

  /** When it does not hold: an optional number with an inherited name, `constructor` say, is
      written as null for an object that has no such property, and the text is not valid. */
  lemma InheritedNameBreaksValidity(en: Engine, re: Regexes, schema: Schema, key: string, sub: Schema, v: Json)
    requires LawfulEngine(en) && en.inherited(key).Some?
    requires OneProperty(schema, key, sub) && v == Object([])
    requires sub.kind == Some(NumberKind) && !sub.nullable
    ensures Conforms(re, schema, v)
    ensures Read(en.num, Serialize(en, schema, Plain(v))) == Some(Object([Member(key, Null)]))
    ensures !Conforms(re, schema, Object([Member(key, Null)]))
  {
    var w := Object([Member(key, Null)]);
    SerializeDenotes(en, schema, Plain(v));
    ReadWhole(en.num, Serialize(en, schema, Plain(v)), Seen(en, schema, Plain(v)));
    assert Slots(en, schema, v, 1) == [Slot(key, Some(Null))];
    assert Members([Slot(key, Some(Null))]) == w.members;
    FoundFirst(w.members, key, 0);
    assert !Conforms(re, sub, Null);
    assert schema.properties[0] == Property(key, sub);
  }

  /** And an untyped one is written as a word that is no JSON. */
  lemma InheritedNameBreaksJson(en: Engine, schema: Schema, key: string, sub: Schema, v: Json)
    requires LawfulEngine(en) && en.inherited(key).Some?
    requires OneProperty(schema, key, sub) && v == Object([]) && sub.kind.None?
    ensures Read(en.num, Serialize(en, schema, Plain(v))) == None
  {
    SerializeDenotes(en, schema, Plain(v));
    ReadWhole(en.num, Serialize(en, schema, Plain(v)), Seen(en, schema, Plain(v)));
    assert schema.properties[0] == Property(key, sub);
    assert Seen(en, sub, Function(en.inherited(key).value)) == None;
    var slots := Slots(en, schema, v, 1);
    assert |Slots(en, schema, v, 0)| == 0;
    assert |slots| == 1 && slots[0].value.None?;
  }
}
