/** What flattening keeps: no call a variant accepts is rejected by the flat schema, exactly when the
    schema kept for each property admits what every variant admits there. */
module FlattenMeaning {
  import opened Json
  import opened JsonSchema
  import opened StripMeta
  import opened Flatten
  import opened FlattenProse

  // ---------------------------------------------------------------- descriptions mean nothing

  lemma DescriptionIsAnnotation(a: Value, b: Value, i: Value, defs: Object, n: nat)
    requires SameButDescription(a, b)
    ensures Accepts(a, i, defs, n) == Accepts(b, i, defs, n)
  {
    if a != b {
      var m, m' := a.fields, b.fields;
      SameWithout(m, m');
      assert Field(m, "$ref") == Field(m', "$ref");
      match RefTarget(m, defs) {
        case Some(name) =>
          AcceptsByReference(m, name, i, defs, n);
          AcceptsByReference(m', name, i, defs, n);
          if n > 0 {
            SameNodeAllowsSame(m, Reading(defs, n - 1), m', Reading(defs, n - 1), i);
          }
        case None =>
          AcceptsByKeywords(m, i, defs, n);
          AcceptsByKeywords(m', i, defs, n);
          SameNodeAllowsSame(m, Reading(defs, n), m', Reading(defs, n), i);
      }
    }
  }

  lemma SameWithout(m: Object, m': Object)
    requires m - {"description"} == m' - {"description"}
    ensures forall k | k != "description" :: Field(m, k) == Field(m', k)
    ensures forall at :: SameNode(m, at, m', at)
  {
    forall k | k != "description"
      ensures Field(m, k) == Field(m', k)
    {
      assert k in m <==> k in m - {"description"};
      assert k in m' <==> k in m' - {"description"};
    }
    assert Field(m, "type") == Field(m', "type") && Field(m, "enum") == Field(m', "enum");
    assert Field(m, "const") == Field(m', "const") && Field(m, "required") == Field(m', "required");
    assert Field(m, "properties") == Field(m', "properties");
    assert Field(m, "additionalProperties") == Field(m', "additionalProperties");
    assert Field(m, "items") == Field(m', "items") && Field(m, "not") == Field(m', "not");
    assert Field(m, "allOf") == Field(m', "allOf") && Field(m, "anyOf") == Field(m', "anyOf");
    assert Field(m, "oneOf") == Field(m', "oneOf");
  }

  // ---------------------------------------------------------------- what the flat schema asks

  lemma FlatPropSchema(acc: Acc, render: Value -> string, p: string)
    ensures p in FlatProps(acc, render) <==> acc.tagKey == Some(p) || p in acc.props
    ensures acc.tagKey == Some(p) ==> SameButDescription(FlatProps(acc, render)[p], Obj(Discriminant(acc, render)))
    ensures acc.tagKey != Some(p) && p in acc.props ==> SameButDescription(FlatProps(acc, render)[p], acc.props[p])
  {
  }

  lemma DiscriminantAccepts(acc: Acc, render: Value -> string, value: Value, defs: Object, n: nat)
    ensures Accepts(Obj(Discriminant(acc, render)), value, defs, n) <==> value.Str? && Tags(acc.entries, value)
  {
    var d := Discriminant(acc, render);
    var values := d["enum"].items;
    assert |values| == |acc.entries| && forall k | 0 <= k < |values| :: values[k] == acc.entries[k].0;
    assert PlainAllows(d, value) <==> value.Str? && Tags(acc.entries, value) by {
      assert EnumAllows(d["enum"], value) <==> Tags(acc.entries, value);
    }
    AcceptsByKeywords(d, value, defs, n);
    OnlyPlain(d, value, defs, n);
  }

  /** A node with no subschemas asks what its plain keywords ask. */
  lemma OnlyPlain(m: Object, i: Value, defs: Object, n: nat)
    requires "properties" !in m && "allOf" !in m && "anyOf" !in m && "oneOf" !in m
    requires "additionalProperties" !in m && "items" !in m && "not" !in m
    ensures KeywordsAllow(m, i, defs, n) == PlainAllows(m, i)
  {
    assert PropertiesAllow(m, i, defs, n) && AdditionalAllows(m, i, defs, n);
    assert ItemsAllow(m, i, defs, n) && NotAllows(m, i, defs, n);
    assert AllOfAllows(m, i, defs, n) && AnyOfAllows(m, i, defs, n) && OneOfAllows(m, i, defs, n);
  }

  /** The root of a schema once its combinator is gone and its shape is about to be replaced. */
  function Rest(schema: Object, combinator: string): Object {
    schema - {combinator, "type", "properties", "required"}
  }

  /** Of an object the rest of the root allows, the flat schema asks the discriminator, if there is one,
      and that every flat property it has is accepted. */
  lemma FlatAccepts(schema: Object, combinator: string, acc: Acc, render: Value -> string,
                    i: Value, defs: Object, n: nat)
    requires combinator in {"oneOf", "anyOf", "allOf"}
    requires i.Obj? && RefTarget(schema, defs).None?
    requires KeywordsAllow(Rest(schema, combinator), i, defs, n)
    ensures var flat := Finish(schema - {combinator}, acc, render);
      Accepts(Obj(flat), i, defs, n) <==>
        (acc.tagKey.Some? ==> acc.tagKey.value in i.fields) &&
        forall p | p in FlatProps(acc, render) && p in i.fields ::
          Accepts(FlatProps(acc, render)[p], i.fields[p], defs, n)
  {
    var rest, flat := Rest(schema, combinator), Finish(schema - {combinator}, acc, render);
    assert forall k | k !in {"type", "properties", "required"} :: Field(flat, k) == Field(rest, k);
    assert Field(flat, "$ref") == Field(schema, "$ref") || "$ref" !in flat;
    AcceptsByKeywords(flat, i, defs, n);
    FlatSubschemas(rest, flat, i, defs, n);
    assert Declared(flat) == FlatProps(acc, render);
    FlatPlain(schema, combinator, acc, render, i);
  }

  lemma FlatPlain(schema: Object, combinator: string, acc: Acc, render: Value -> string, i: Value)
    requires combinator in {"oneOf", "anyOf", "allOf"} && i.Obj? && PlainAllows(Rest(schema, combinator), i)
    ensures PlainAllows(Finish(schema - {combinator}, acc, render), i) <==>
      (acc.tagKey.Some? ==> acc.tagKey.value in i.fields)
  {
    var rest, flat := Rest(schema, combinator), Finish(schema - {combinator}, acc, render);
    assert TypeAllows(flat["type"], i);
    assert Field(flat, "enum") == Field(rest, "enum") && Field(flat, "const") == Field(rest, "const");
    if acc.tagKey.Some? {
      assert flat["required"] == Arr([Str(acc.tagKey.value)]);
      assert flat["required"].items[0] == Str(acc.tagKey.value);
    } else {
      assert "required" !in flat;
    }
  }

  lemma FlatSubschemas(rest: Object, flat: Object, i: Value, defs: Object, n: nat)
    requires forall k | k !in {"type", "properties", "required"} :: Field(flat, k) == Field(rest, k)
    requires "properties" !in rest && KeywordsAllow(rest, i, defs, n)
    ensures AdditionalAllows(flat, i, defs, n) && ItemsAllow(flat, i, defs, n) && NotAllows(flat, i, defs, n)
    ensures AllOfAllows(flat, i, defs, n) && AnyOfAllows(flat, i, defs, n) && OneOfAllows(flat, i, defs, n)
  {
    assert Field(flat, "additionalProperties") == Field(rest, "additionalProperties");
    assert Field(flat, "items") == Field(rest, "items") && Field(flat, "not") == Field(rest, "not");
    assert Field(flat, "allOf") == Field(rest, "allOf") && Field(flat, "anyOf") == Field(rest, "anyOf");
    assert Field(flat, "oneOf") == Field(rest, "oneOf");
    var at := Reading(defs, n);
    SameAllOf(flat, at, rest, at, i);
    SameAnyOf(flat, at, rest, at, i);
    SameOneOf(flat, at, rest, at, i);
    assert ItemsAllow(flat, i, defs, n) == ItemsAllow(rest, i, defs, n);
    assert NotAllows(flat, i, defs, n) == NotAllows(rest, i, defs, n);
  }

  // ---------------------------------------------------------------- no accepted call is rejected

  /** What a variant admits as the value of a property. */
  predicate Admits(v: Object, p: string, value: Value, defs: Object, n: nat) {
    if p in Declared(v) then Accepts(Declared(v)[p], value, defs, n)
    else "additionalProperties" in v ==> Accepts(v["additionalProperties"], value, defs, n)
  }

  predicate RequiresName(v: Object, p: string) {
    "required" in v && v["required"].Arr? && Str(p) in v["required"].items
  }

  /** Variants that are schema nodes of their own. */
  predicate AreNodes(variants: seq<Value>, defs: Object) {
    forall j | 0 <= j < |variants| :: variants[j].Obj? && RefTarget(variants[j].fields, defs).None?
  }

  /** What the flat schema asks at a property, if anything: at the discriminator a string that some variant
      has for its `const`, elsewhere what the first schema declared asks. */
  ghost predicate FlatAdmits(variants: seq<Value>, p: string, value: Value, defs: Object, n: nat) {
    if TagKeyOf(variants) == Some(p) then value.Str? && HasValue(variants, p, value)
    else FirstDeclared(variants, p).Some? ==> Accepts(FirstDeclared(variants, p).value, value, defs, n)
  }

  /** Every variant requires the discriminator, if one is found, and what a variant admits at any property
      is what the flat schema asks there. */
  ghost predicate Keepable(variants: seq<Value>, defs: Object, n: nat)
    requires AreNodes(variants, defs)
  {
    && (TagKeyOf(variants).Some? ==>
          forall j | 0 <= j < |variants| :: RequiresName(variants[j].fields, TagKeyOf(variants).value))
    && (forall j, p, value | 0 <= j < |variants| && Admits(variants[j].fields, p, value, defs, n) ::
          FlatAdmits(variants, p, value, defs, n))
  }

  /** The code flattens these variants. */
  predicate FlattensNodes(schema: Object, combinator: string, defs: Object) {
    && CombinatorKey(schema) == Some(combinator) && schema[combinator].Arr?
    && AreNodes(schema[combinator].items, defs)
    && RefTarget(schema, defs).None?
  }

  lemma VariantAccepts(v: Object, i: Object, defs: Object, n: nat)
    requires RefTarget(v, defs).None? && Accepts(Obj(v), Obj(i), defs, n)
    ensures forall p | RequiresName(v, p) :: p in i
    ensures forall p | p in i :: Admits(v, p, i[p], defs, n)
  {
    AcceptsByKeywords(v, Obj(i), defs, n);
    if "required" in v {
      assert RequiredAllows(v["required"], Obj(i));
    }
  }

  lemma ListedExactly(variants: seq<Value>, render: Value -> string, t: string, value: Value)
    requires TagKeyOf(variants) == Some(t)
    ensures Tags(AddVariants(EMPTY, variants, render).entries, value) <==> HasValue(variants, t, value)
  {
    TagKeyIs(variants, render);
    EntriesExact(variants, t, render);
    FirstEntriesTag(variants, t, value);
  }

  /** A flat property accepts what `FlatAdmits` says, descriptions or not. */
  lemma FlatPropAccepts(variants: seq<Value>, render: Value -> string, p: string, value: Value, defs: Object, n: nat)
    ensures var flat := FlatProps(AddVariants(EMPTY, variants, render), render);
      && (p in flat <==> TagKeyOf(variants) == Some(p) || FirstDeclared(variants, p).Some?)
      && (p in flat ==> (Accepts(flat[p], value, defs, n) <==> FlatAdmits(variants, p, value, defs, n)))
  {
    var acc := AddVariants(EMPTY, variants, render);
    var flat := FlatProps(acc, render);
    TagKeyIs(variants, render);
    FlatPropSchema(acc, render, p);
    FirstWins(variants, render, p);
    if TagKeyOf(variants) == Some(p) {
      DescriptionIsAnnotation(flat[p], Obj(Discriminant(acc, render)), value, defs, n);
      DiscriminantAccepts(acc, render, value, defs, n);
      ListedExactly(variants, render, p, value);
    } else if p in acc.props {
      DescriptionIsAnnotation(flat[p], acc.props[p], value, defs, n);
      DescriptionIsAnnotation(acc.props[p], FirstDeclared(variants, p).value, value, defs, n);
    }
  }

  /** Every object some variant accepts, and the rest of the root allows, is accepted flat. */
  lemma FlattenOverApproximates(schema: Object, combinator: string, render: Value -> string,
                                j: nat, i: Object, defs: Object, n: nat)
    requires FlattensNodes(schema, combinator, defs) && j < |schema[combinator].items|
    requires Keepable(schema[combinator].items, defs, n)
    requires Accepts(schema[combinator].items[j], Obj(i), defs, n)
    requires KeywordsAllow(Rest(schema, combinator), Obj(i), defs, n)
    ensures Accepts(Obj(FlattenRoot(schema, render)), Obj(i), defs, n)
  {
    var variants := schema[combinator].items;
    var acc := AddVariants(EMPTY, variants, render);
    VariantAccepts(variants[j].fields, i, defs, n);
    TagKeyIs(variants, render);
    forall p | p in FlatProps(acc, render) && p in i
      ensures Accepts(FlatProps(acc, render)[p], i[p], defs, n)
    {
      FlatPropAccepts(variants, render, p, i[p], defs, n);
    }
    FlatAccepts(schema, combinator, acc, render, Obj(i), defs, n);
  }

  lemma SchemaAllowsRest(schema: Object, combinator: string, i: Value, defs: Object, n: nat)
    requires combinator in {"oneOf", "anyOf", "allOf"}
    requires "properties" in schema ==> "additionalProperties" !in schema
    requires KeywordsAllow(schema, i, defs, n)
    ensures KeywordsAllow(Rest(schema, combinator), i, defs, n)
  {
    var rest := Rest(schema, combinator);
    assert forall k | k in rest :: rest[k] == schema[k];
    assert PlainAllows(rest, i);
    assert PropertiesAllow(rest, i, defs, n) && AdditionalAllows(rest, i, defs, n);
    assert ItemsAllow(rest, i, defs, n) && NotAllows(rest, i, defs, n);
    var at := Reading(defs, n);
    if combinator != "allOf" {
      SameAllOf(rest, at, schema, at, i);
    }
    if combinator != "anyOf" {
      SameAnyOf(rest, at, schema, at, i);
    }
    if combinator != "oneOf" {
      SameOneOf(rest, at, schema, at, i);
    }
  }

  lemma SomeVariant(schema: Object, combinator: string, i: Value, defs: Object, n: nat) returns (j: nat)
    requires combinator in {"oneOf", "anyOf", "allOf"} && combinator in schema
    requires schema[combinator].Arr? && schema[combinator].items != []
    requires KeywordsAllow(schema, i, defs, n)
    ensures j < |schema[combinator].items| && Accepts(schema[combinator].items[j], i, defs, n)
  {
    if combinator == "oneOf" {
      assert OneOfAllows(schema, i, defs, n);
      j :| 0 <= j < |Branches(schema, "oneOf")| && OnlyAccepts(schema, j, i, defs, n);
    } else if combinator == "anyOf" {
      assert AnyOfAllows(schema, i, defs, n);
      j :| 0 <= j < |Branches(schema, "anyOf")| && Accepts(Branches(schema, "anyOf")[j], i, defs, n);
    } else {
      j := 0;
      assert Accepts(Branches(schema, "allOf")[0], i, defs, n);
    }
  }

  /** The same, from the schema as a whole: flattening rejects no object the schema accepted. */
  lemma FlattenRejectsNothing(schema: Object, combinator: string, render: Value -> string,
                              i: Object, defs: Object, n: nat)
    requires FlattensNodes(schema, combinator, defs) && schema[combinator].items != []
    requires Keepable(schema[combinator].items, defs, n)
    requires "properties" in schema ==> "additionalProperties" !in schema
    requires Accepts(Obj(schema), Obj(i), defs, n)
    ensures Accepts(Obj(FlattenRoot(schema, render)), Obj(i), defs, n)
  {
    AcceptsByKeywords(schema, Obj(i), defs, n);
    SchemaAllowsRest(schema, combinator, Obj(i), defs, n);
    var j := SomeVariant(schema, combinator, Obj(i), defs, n);
    FlattenOverApproximates(schema, combinator, render, j, i, defs, n);
  }

  /** The flat schema holds every instance to the discriminator, and to what it asks at each property. */
  lemma FlatHolds(schema: Object, combinator: string, render: Value -> string,
                  p: string, i: Object, defs: Object, n: nat)
    requires FlattensNodes(schema, combinator, defs) && KeywordsAllow(Rest(schema, combinator), Obj(i), defs, n)
    requires Accepts(Obj(FlattenRoot(schema, render)), Obj(i), defs, n)
    ensures var variants := schema[combinator].items;
      && (TagKeyOf(variants) == Some(p) ==> p in i)
      && (p in i ==> FlatAdmits(variants, p, i[p], defs, n))
  {
    var variants := schema[combinator].items;
    var acc := AddVariants(EMPTY, variants, render);
    TagKeyIs(variants, render);
    FlatAccepts(schema, combinator, acc, render, Obj(i), defs, n);
    if p in i {
      FlatPropAccepts(variants, render, p, i[p], defs, n);
    }
  }

  // ---------------------------------------------------------------- and exactly then

  /** A variant that only says which properties it has; properties then vary independently. */
  predicate IsPlainVariant(v: Object) {
    && "enum" !in v && "const" !in v && "not" !in v && "items" !in v
    && "oneOf" !in v && "anyOf" !in v && "allOf" !in v
  }

  lemma PlainVariantAccepts(v: Object, i: Value, defs: Object, n: nat)
    requires IsPlainVariant(v) && RefTarget(v, defs).None?
    ensures Accepts(Obj(v), i, defs, n) <==>
      PlainAllows(v, i) && PropertiesAllow(v, i, defs, n) && AdditionalAllows(v, i, defs, n)
  {
    AcceptsByKeywords(v, i, defs, n);
    assert ItemsAllow(v, i, defs, n) && NotAllows(v, i, defs, n);
    assert AllOfAllows(v, i, defs, n) && AnyOfAllows(v, i, defs, n) && OneOfAllows(v, i, defs, n);
  }

  lemma SameType(t: Value, i: Object, i': Object)
    ensures TypeAllows(t, Obj(i)) == TypeAllows(t, Obj(i'))
  {
    if t.Arr? {
      assert forall k | 0 <= k < |t.items| && t.items[k].Str? ::
        TypeNamed(t.items[k].s, Obj(i)) == TypeNamed(t.items[k].s, Obj(i'));
    }
  }

  /** In an instance of a plain variant, any value the variant admits can stand at a property. */
  lemma PropertyVaries(v: Object, i: Object, p: string, value: Value, defs: Object, n: nat)
    requires IsPlainVariant(v) && RefTarget(v, defs).None? && Accepts(Obj(v), Obj(i), defs, n)
    requires Admits(v, p, value, defs, n)
    ensures Accepts(Obj(v), Obj(i[p := value]), defs, n)
  {
    var i' := i[p := value];
    VariantAccepts(v, i, defs, n);
    PlainVariantAccepts(v, Obj(i), defs, n);
    assert PropertiesAllow(v, Obj(i'), defs, n) && AdditionalAllows(v, Obj(i'), defs, n);
    if "type" in v {
      SameType(v["type"], i, i');
    }
    if "required" in v {
      assert RequiredAllows(v["required"], Obj(i'));
    }
    PlainVariantAccepts(v, Obj(i'), defs, n);
  }

  /** And a property it does not require can be left out. */
  lemma PropertyDrops(v: Object, i: Object, p: string, defs: Object, n: nat)
    requires IsPlainVariant(v) && RefTarget(v, defs).None? && Accepts(Obj(v), Obj(i), defs, n)
    requires !RequiresName(v, p)
    ensures Accepts(Obj(v), Obj(i - {p}), defs, n)
  {
    var i' := i - {p};
    VariantAccepts(v, i, defs, n);
    PlainVariantAccepts(v, Obj(i), defs, n);
    assert PropertiesAllow(v, Obj(i'), defs, n) && AdditionalAllows(v, Obj(i'), defs, n);
    if "type" in v {
      SameType(v["type"], i, i');
    }
    if "required" in v && v["required"].Arr? {
      var names := v["required"].items;
      assert forall k | 0 <= k < |names| && names[k].Str? :: names[k] in names && names[k] != Str(p);
      assert RequiredAllows(v["required"], Obj(i'));
    }
    PlainVariantAccepts(v, Obj(i'), defs, n);
  }

  /** Some call is for this variant. */
  ghost predicate Inhabited(v: Value, defs: Object, n: nat) {
    exists i: Object :: Accepts(v, Obj(i), defs, n)
  }

  ghost predicate PlainAndInhabited(variants: seq<Value>, defs: Object, n: nat)
    requires AreNodes(variants, defs)
  {
    forall j | 0 <= j < |variants| :: IsPlainVariant(variants[j].fields) && Inhabited(variants[j], defs, n)
  }

  /** Every object a variant accepts is accepted flat. */
  ghost predicate KeepsEveryVariant(schema: Object, combinator: string, render: Value -> string, defs: Object, n: nat)
    requires combinator in schema && schema[combinator].Arr?
  {
    forall i: Object, j |
      0 <= j < |schema[combinator].items| && Accepts(schema[combinator].items[j], Obj(i), defs, n) ::
      Accepts(Obj(FlattenRoot(schema, render)), Obj(i), defs, n)
  }

  /** For plain variants, each good for some call, under a root that says nothing else: flattening keeps
      every variant's calls exactly when every variant requires the discriminator, if one is found, and
      admits at no property what the flat schema does not. */
  lemma FlattenExact(schema: Object, combinator: string, render: Value -> string, defs: Object, n: nat)
    requires FlattensNodes(schema, combinator, defs) && PlainAndInhabited(schema[combinator].items, defs, n)
    requires forall i :: KeywordsAllow(Rest(schema, combinator), i, defs, n)
    ensures KeepsEveryVariant(schema, combinator, render, defs, n) <==> Keepable(schema[combinator].items, defs, n)
  {
    var variants := schema[combinator].items;
    if Keepable(variants, defs, n) {
      forall i: Object, j | 0 <= j < |variants| && Accepts(variants[j], Obj(i), defs, n)
        ensures Accepts(Obj(FlattenRoot(schema, render)), Obj(i), defs, n)
      {
        FlattenOverApproximates(schema, combinator, render, j, i, defs, n);
      }
    }
    if KeepsEveryVariant(schema, combinator, render, defs, n) {
      forall j, p, value | 0 <= j < |variants| && Admits(variants[j].fields, p, value, defs, n)
        ensures FlatAdmits(variants, p, value, defs, n)
      {
        KeptAdmits(schema, combinator, render, j, p, value, defs, n);
      }
      if TagKeyOf(variants).Some? {
        forall j | 0 <= j < |variants|
          ensures RequiresName(variants[j].fields, TagKeyOf(variants).value)
        {
          KeptRequires(schema, combinator, render, j, defs, n);
        }
      }
    }
  }

  lemma KeptAdmits(schema: Object, combinator: string, render: Value -> string,
                   j: nat, p: string, value: Value, defs: Object, n: nat)
    requires FlattensNodes(schema, combinator, defs) && j < |schema[combinator].items|
    requires forall i :: KeywordsAllow(Rest(schema, combinator), i, defs, n)
    requires IsPlainVariant(schema[combinator].items[j].fields) && Inhabited(schema[combinator].items[j], defs, n)
    requires KeepsEveryVariant(schema, combinator, render, defs, n)
    requires Admits(schema[combinator].items[j].fields, p, value, defs, n)
    ensures FlatAdmits(schema[combinator].items, p, value, defs, n)
  {
    var v := schema[combinator].items[j];
    var i: Object :| Accepts(v, Obj(i), defs, n);
    PropertyVaries(v.fields, i, p, value, defs, n);
    FlatHolds(schema, combinator, render, p, i[p := value], defs, n);
  }

  lemma KeptRequires(schema: Object, combinator: string, render: Value -> string, j: nat, defs: Object, n: nat)
    requires FlattensNodes(schema, combinator, defs) && j < |schema[combinator].items|
    requires forall i :: KeywordsAllow(Rest(schema, combinator), i, defs, n)
    requires IsPlainVariant(schema[combinator].items[j].fields) && Inhabited(schema[combinator].items[j], defs, n)
    requires KeepsEveryVariant(schema, combinator, render, defs, n) && TagKeyOf(schema[combinator].items).Some?
    ensures RequiresName(schema[combinator].items[j].fields, TagKeyOf(schema[combinator].items).value)
  {
    var v, t := schema[combinator].items[j], TagKeyOf(schema[combinator].items).value;
    var i: Object :| Accepts(v, Obj(i), defs, n);
    if !RequiresName(v.fields, t) {
      PropertyDrops(v.fields, i, t, defs, n);
      FlatHolds(schema, combinator, render, t, i - {t}, defs, n);
    }
  }

  // ---------------------------------------------------------------- tagged unions

  /** A variant of a union discriminated on `t`: an object that requires `t` and pins it to a string. */
  predicate IsVariant(v: Value, t: string, defs: Object) {
    && v.Obj? && RefTarget(v.fields, defs).None?
    && Field(v.fields, "type") == Some(Str("object"))
    && ValueOf(v, t).Some? && ValueOf(v, t).value.Str? && RequiresName(v.fields, t)
  }

  /** Such a union, where `t` is the property the code takes for the discriminator. */
  predicate IsUnion(variants: seq<Value>, t: string, defs: Object) {
    && variants != []
    && (forall j | 0 <= j < |variants| :: IsVariant(variants[j], t, defs))
    && TagKeyOf(variants) == Some(t)
  }

  /** The code flattens the union `t` of `schema`. */
  predicate FlattensUnion(schema: Object, combinator: string, t: string, defs: Object) {
    FlattensNodes(schema, combinator, defs) && IsUnion(schema[combinator].items, t, defs)
  }

  lemma PinnedTo(v: Value, t: string, value: Value, defs: Object, n: nat)
    requires v.Obj? && ValueOf(v, t).Some? && Admits(v.fields, t, value, defs, n)
    ensures value == ValueOf(v, t).value
  {
    var tagged := Declared(v.fields)[t].fields;
    match RefTarget(tagged, defs) {
      case Some(name) => AcceptsByReference(tagged, name, value, defs, n);
      case None => AcceptsByKeywords(tagged, value, defs, n);
    }
    assert PlainAllows(tagged, value);
  }

  /** What a variant says of the discriminator is a `const`, or nothing at all. */
  predicate PinsOrLeavesOpen(v: Value, t: string)
    requires v.Obj?
  {
    ValueOf(v, t).Some? || (t !in Declared(v.fields) && "additionalProperties" !in v.fields)
  }

  /** The schemas kept for the other properties suit every variant. */
  ghost predicate SuitsElsewhere(variants: seq<Value>, t: string, defs: Object, n: nat)
    requires AreNodes(variants, defs)
  {
    forall j, p, value | 0 <= j < |variants| && p != t && Admits(variants[j].fields, p, value, defs, n) ::
      FlatAdmits(variants, p, value, defs, n)
  }

  /** Where a variant's word on the discriminator is a `const` or nothing, the condition is that every
      variant has one, a string, and requires it; and that the rest fits. */
  lemma KeepableExactly(variants: seq<Value>, t: string, defs: Object, n: nat)
    requires AreNodes(variants, defs) && PlainAndInhabited(variants, defs, n) && TagKeyOf(variants) == Some(t)
    requires forall j | 0 <= j < |variants| :: PinsOrLeavesOpen(variants[j], t)
    ensures Keepable(variants, defs, n) <==>
      (forall j | 0 <= j < |variants| ::
         ValueOf(variants[j], t).Some? && ValueOf(variants[j], t).value.Str? && RequiresName(variants[j].fields, t))
      && SuitsElsewhere(variants, t, defs, n)
  {
    if Keepable(variants, defs, n) {
      forall j | 0 <= j < |variants|
        ensures ValueOf(variants[j], t).Some? && ValueOf(variants[j], t).value.Str?
      {
        KeepablePins(variants, t, j, defs, n);
      }
    }
    forall j, value |
      0 <= j < |variants| && ValueOf(variants[j], t).Some? && Admits(variants[j].fields, t, value, defs, n)
      ensures value == ValueOf(variants[j], t).value
    {
      PinnedTo(variants[j], t, value, defs, n);
    }
  }

  lemma KeepablePins(variants: seq<Value>, t: string, j: nat, defs: Object, n: nat)
    requires AreNodes(variants, defs) && Keepable(variants, defs, n) && TagKeyOf(variants) == Some(t)
    requires j < |variants| && Inhabited(variants[j], defs, n) && PinsOrLeavesOpen(variants[j], t)
    ensures ValueOf(variants[j], t).Some? && ValueOf(variants[j], t).value.Str?
  {
    var v := variants[j];
    assert Admits(v.fields, t, Null, defs, n) ==> FlatAdmits(variants, t, Null, defs, n);
    var i: Object :| Accepts(v, Obj(i), defs, n);
    VariantAccepts(v.fields, i, defs, n);
    assert FlatAdmits(variants, t, i[t], defs, n);
    if ValueOf(v, t).Some? {
      PinnedTo(v, t, i[t], defs, n);
    }
  }

  /** Properties of the same name accept the same values, and a variant without a property some other
      variant has is closed to it. */
  ghost predicate SharedAndClosed(variants: seq<Value>, defs: Object, n: nat)
    requires AreNodes(variants, defs)
  {
    forall j, p | 0 <= j < |variants| && TagKeyOf(variants) != Some(p) && FirstDeclared(variants, p).Some? ::
      var v, at := variants[j].fields, Reading(defs, n);
      if p in Declared(v) then Same(Declared(v)[p], at, FirstDeclared(variants, p).value, at)
      else Field(v, "additionalProperties") == Some(Bool(false))
  }

  /** A tagged union of such variants loses no call. */
  lemma SharedAndClosedIsKeepable(variants: seq<Value>, t: string, defs: Object, n: nat)
    requires IsUnion(variants, t, defs) && SharedAndClosed(variants, defs, n)
    ensures Keepable(variants, defs, n)
  {
    forall j, p, value | 0 <= j < |variants| && Admits(variants[j].fields, p, value, defs, n)
      ensures FlatAdmits(variants, p, value, defs, n)
    {
      var v := variants[j].fields;
      if p == t {
        PinnedTo(variants[j], t, value, defs, n);
      } else if FirstDeclared(variants, p).Some? {
        assert p in Declared(v) ==>
          Accepts(Declared(v)[p], value, defs, n) == Accepts(FirstDeclared(variants, p).value, value, defs, n);
      }
    }
  }

  /** Without the second half it fails: a plain variant open to a property it does not declare accepts
      an instance that the flat schema, with the first schema declared for it, rejects. */
  lemma OpenVariantIsRejected(schema: Object, combinator: string, render: Value -> string,
                              j: nat, p: string, value: Value, defs: Object, n: nat)
    requires FlattensNodes(schema, combinator, defs) && j < |schema[combinator].items|
    requires forall i :: KeywordsAllow(Rest(schema, combinator), i, defs, n)
    requires IsPlainVariant(schema[combinator].items[j].fields) && Inhabited(schema[combinator].items[j], defs, n)
    requires p !in Declared(schema[combinator].items[j].fields)
    requires "additionalProperties" !in schema[combinator].items[j].fields
    requires !FlatAdmits(schema[combinator].items, p, value, defs, n)
    ensures exists i: Object :: Accepts(schema[combinator].items[j], Obj(i), defs, n)
                             && !Accepts(Obj(FlattenRoot(schema, render)), Obj(i), defs, n)
  {
    var v := schema[combinator].items[j];
    var i: Object :| Accepts(v, Obj(i), defs, n);
    PropertyVaries(v.fields, i, p, value, defs, n);
    var i' := i[p := value];
    if Accepts(Obj(FlattenRoot(schema, render)), Obj(i'), defs, n) {
      FlatHolds(schema, combinator, render, p, i', defs, n);
    }
  }

  // The smallest such schemas. In the first `a` carries a string `x`, and `b` says nothing of `x`; in the
  // second the tag is a number; in the third one variant has none.

  function Tagged(tag: Value, props: Object): Value {
    Obj(map[
      "type" := Str("object"),
      "properties" := Obj(props["k" := Obj(map["const" := tag])]),
      "required" := Arr([Str("k")])])
  }

  const WITH_X: Object := map["x" := Obj(map["type" := Str("string")])]

  const UNTAGGED: Object := map["type" := Str("object")]

  const OPEN_UNION: Object := map["oneOf" := Arr([Tagged(Str("a"), WITH_X), Tagged(Str("b"), map[])])]

  const NUMBERED: Object := map["oneOf" := Arr([Tagged(Num(1.0), map[])])]

  const PARTLY_TAGGED: Object := map["oneOf" := Arr([Tagged(Str("a"), map[]), Obj(UNTAGGED)])]

  lemma TaggedIsNode(tag: Value, props: Object, rest: Object)
    requires "const" !in rest
    requires props == map[] || props == map["x" := Obj(rest)]
    ensures var m := Tagged(tag, props).fields;
      && RefTarget(m, map[]).None? && IsPlainVariant(m)
      && RequiresName(m, "k") && ValueOf(Tagged(tag, props), "k") == Some(tag)
      && VariantProps(Tagged(tag, props)).Some?
      && TagKeyAfter(None, VariantProps(Tagged(tag, props)).value) == Some("k")
      && Declared(m) == props["k" := Obj(map["const" := tag])]
  {
    var m := Tagged(tag, props).fields;
    assert VariantProps(Tagged(tag, props)).value == Declared(m);
    assert m["required"].items[0] == Str("k");
    var consts := ConstNames(Declared(m));
    assert "k" in consts;
    assert forall p | p in consts :: p == "k" by {
      assert Get(Obj(rest), "const").None?;
    }
    assert IsLeast(LeastKey(consts), consts);
  }

  lemma TaggedAccepts(tag: Value, rest: Object, props: Object, i: Object)
    requires "const" !in rest && "$ref" !in rest
    requires props == map[] || props == map["x" := Obj(rest)]
    requires "k" in i && i["k"] == tag
    requires "x" in i && "x" in props ==> Accepts(Obj(rest), i["x"], map[], 0)
    ensures Accepts(Tagged(tag, props), Obj(i), map[], 0)
  {
    TaggedIsNode(tag, props, rest);
    var m, c: Object := Tagged(tag, props).fields, map["const" := tag];
    AcceptsByKeywords(c, i["k"], map[], 0);
    OnlyPlain(c, i["k"], map[], 0);
    assert Accepts(Declared(m)["k"], i["k"], map[], 0);
    assert PropertiesAllow(m, Obj(i), map[], 0) && AdditionalAllows(m, Obj(i), map[], 0);
    assert PlainAllows(m, Obj(i));
    PlainVariantAccepts(m, Obj(i), map[], 0);
  }

  /** A pair of variants of which the first is tagged has its tag for discriminator. */
  lemma PairFlattens(schema: Object, a: Value, b: Value)
    requires schema == map["oneOf" := Arr([a, b])] && a.Obj? && b.Obj?
    requires RefTarget(a.fields, map[]).None? && RefTarget(b.fields, map[]).None?
    requires VariantProps(a).Some? && TagKeyAfter(None, VariantProps(a).value) == Some("k")
    ensures FlattensNodes(schema, "oneOf", map[]) && TagKeyOf(schema["oneOf"].items) == Some("k")
  {
    var variants := [a, b];
    assert variants[..1] == [a] && [a][..0] == [];
    assert TagKeyOf([a]) == Some("k");
    assert RefTarget(schema, map[]).None?;
  }

  lemma OpenUnionFlattens()
    ensures FlattensUnion(OPEN_UNION, "oneOf", "k", map[])
    ensures FirstDeclared(OPEN_UNION["oneOf"].items, "x") == Some(Obj(map["type" := Str("string")]))
  {
    var text: Object := map["type" := Str("string")];
    var a, b := Tagged(Str("a"), WITH_X), Tagged(Str("b"), map[]);
    TaggedIsNode(Str("a"), WITH_X, text);
    TaggedIsNode(Str("b"), map[], text);
    PairFlattens(OPEN_UNION, a, b);
    FirstOfPair(a, b, text);
  }

  lemma NullIsNoText()
    ensures !Accepts(Obj(map["type" := Str("string")]), Null, map[], 0)
  {
    var text: Object := map["type" := Str("string")];
    AcceptsByKeywords(text, Null, map[], 0);
    assert !TypeAllows(text["type"], Null);
  }

  /** `{"k": "b", "x": null}` is a call to variant `b`, and the flat schema refuses it. */
  lemma OpenUnionExample(render: Value -> string)
    ensures FlattensUnion(OPEN_UNION, "oneOf", "k", map[])
    ensures var i: Object := map["k" := Str("b"), "x" := Null];
      && Accepts(Tagged(Str("b"), map[]), Obj(i), map[], 0)
      && !Accepts(Obj(FlattenRoot(OPEN_UNION, render)), Obj(i), map[], 0)
  {
    var i: Object := map["k" := Str("b"), "x" := Null];
    TaggedAccepts(Str("b"), map[], map[], i);
    OpenUnionFlattens();
    NullIsNoText();
    AbsentAllow(Rest(OPEN_UNION, "oneOf"), Obj(i), map[], 0);
    if Accepts(Obj(FlattenRoot(OPEN_UNION, render)), Obj(i), map[], 0) {
      FlatHolds(OPEN_UNION, "oneOf", render, "x", i, map[], 0);
    }
  }

  lemma FirstOfPair(a: Value, b: Value, text: Object)
    requires Declares(a, "x") == Some(Obj(text))
    ensures FirstDeclared([a, b], "x") == Some(Obj(text))
  {
    assert [a, b][..1] == [a] && [a][..0] == [];
    assert FirstDeclared([a], "x") == Some(Obj(text));
  }

  lemma NumberedFlattens()
    ensures FlattensNodes(NUMBERED, "oneOf", map[]) && TagKeyOf(NUMBERED["oneOf"].items) == Some("k")
  {
    var a := Tagged(Num(1.0), map[]);
    TaggedIsNode(Num(1.0), map[], map[]);
    assert [a][..0] == [] && TagKeyOf([a]) == Some("k");
  }

  /** `{"k": 1}` is a call to the only variant, and the flat schema, which wants a string, refuses it. */
  lemma NumberTagExample(render: Value -> string)
    ensures var i: Object := map["k" := Num(1.0)];
      && Accepts(Tagged(Num(1.0), map[]), Obj(i), map[], 0)
      && !Accepts(Obj(FlattenRoot(NUMBERED, render)), Obj(i), map[], 0)
  {
    var i: Object := map["k" := Num(1.0)];
    TaggedAccepts(Num(1.0), map[], map[], i);
    NumberedFlattens();
    AbsentAllow(Rest(NUMBERED, "oneOf"), Obj(i), map[], 0);
    if Accepts(Obj(FlattenRoot(NUMBERED, render)), Obj(i), map[], 0) {
      FlatHolds(NUMBERED, "oneOf", render, "k", i, map[], 0);
    }
  }

  /** `{}` is a call to the variant without a tag, and the flat schema, which wants one, refuses it. */
  lemma UntaggedVariantExample(render: Value -> string)
    ensures Accepts(PARTLY_TAGGED["oneOf"].items[1], Obj(map[]), map[], 0)
         && !Accepts(Obj(FlattenRoot(PARTLY_TAGGED, render)), Obj(map[]), map[], 0)
  {
    var a := Tagged(Str("a"), map[]);
    TaggedIsNode(Str("a"), map[], map[]);
    PairFlattens(PARTLY_TAGGED, a, Obj(UNTAGGED));
    AcceptsByKeywords(UNTAGGED, Obj(map[]), map[], 0);
    OnlyPlain(UNTAGGED, Obj(map[]), map[], 0);
    AbsentAllow(Rest(PARTLY_TAGGED, "oneOf"), Obj(map[]), map[], 0);
    if Accepts(Obj(FlattenRoot(PARTLY_TAGGED, render)), Obj(map[]), map[], 0) {
      FlatHolds(PARTLY_TAGGED, "oneOf", render, "k", map[], map[], 0);
    }
  }
}
