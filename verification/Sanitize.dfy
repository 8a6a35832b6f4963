/** The whole rewrite of one tool's schemas (`src/capability/sanitize.rs:634-664`): strip, inline,
    flatten, and patch in the `type` strict clients insist on. */
module Sanitize {
  import opened Json
  import opened JsonSchema
  import opened StripMeta
  import StripMeaning
  import opened InlineRefs
  import opened InlineMeaning
  import opened Flatten
  import opened FlattenMeaning

  function Rewrite(schema: Object, render: Value -> string): Object {
    FlattenRoot(InlineDefs(StripNode(schema)), render)
  }

  function PatchType(schema: Object): Object {
    if "type" in schema then schema
    else
      var typed := schema["type" := Str("object")];
      if "properties" in typed then typed else typed["properties" := Obj(map[])]
  }

  function SanitizeInput(schema: Object, render: Value -> string): Object {
    PatchType(Rewrite(schema, render))
  }

  class Tool {
    var inputSchema: Object
    var outputSchema: Option<Object>

    constructor (input: Object, output: Option<Object>)
      ensures inputSchema == input && outputSchema == output
    {
      inputSchema, outputSchema := input, output;
    }

    /** `sanitize_one`: rewrites both schemas, and says whether the input one had to be patched. */
    method SanitizeOne(render: Value -> string) returns (patchedType: bool)
      modifies this
      ensures inputSchema == SanitizeInput(old(inputSchema), render)
      ensures outputSchema == (match old(outputSchema) case Some(s) => Some(Rewrite(s, render)) case None => None)
      ensures patchedType <==> "type" !in Rewrite(old(inputSchema), render)
    {
      inputSchema := RewriteInPlace(inputSchema, render);
      patchedType := "type" !in inputSchema;
      if patchedType {
        inputSchema := inputSchema["type" := Str("object")];
        if "properties" !in inputSchema {
          inputSchema := inputSchema["properties" := Obj(map[])];
        }
      }
      if outputSchema.Some? {
        var output := RewriteInPlace(outputSchema.value, render);
        outputSchema := Some(output);
      }
    }
  }

  method RewriteInPlace(schema: Object, render: Value -> string) returns (r: Object)
    ensures r == Rewrite(schema, render)
  {
    r := SanitizeSchemaNode(schema);
    r := InlineDefsInPlace(r);
    r := FlattenTopLevelCombinator(r, render);
  }

  // ---------------------------------------------------------------- shape

  function Combinators(schema: Object): set<string> {
    schema.Keys * {"oneOf", "anyOf", "allOf"}
  }

  /** Of the combinators at the root, `oneOf` comes before `anyOf`, and that before `allOf`. */
  lemma FirstCombinatorExactly(schema: Object)
    ensures CombinatorKey(schema) ==
      if "oneOf" in schema then Some("oneOf")
      else if "anyOf" in schema then Some("anyOf")
      else if "allOf" in schema then Some("allOf") else None
  {
  }

  lemma FlattenRemovesFirst(schema: Object, render: Value -> string)
    ensures Combinators(FlattenRoot(schema, render)) ==
      Combinators(schema) - (if CombinatorKey(schema).Some? then {CombinatorKey(schema).value} else {})
  {
    if CombinatorKey(schema).Some? {
      var k := CombinatorKey(schema).value;
      var flat := FlattenRoot(schema, render);
      assert flat.Keys - {"type", "properties", "required"} == schema.Keys - {k, "type", "properties", "required"};
    }
  }

  /** Inlining touches no root key but `$defs`, and stripping none but the meta-fields. */
  lemma CombinatorsKept(schema: Object)
    ensures Combinators(InlineDefs(StripNode(schema))) == Combinators(schema)
  {
    StripNodeKeys(schema);
  }

  lemma PatchKeepsCombinators(schema: Object)
    ensures "type" in PatchType(schema) && Combinators(PatchType(schema)) == Combinators(schema)
  {
    assert PatchType(schema).Keys <= schema.Keys + {"type", "properties"};
  }

  lemma FirstOf(schema: Object)
    ensures CombinatorKey(schema).Some? <==> Combinators(schema) != {}
    ensures CombinatorKey(schema).Some? ==> CombinatorKey(schema).value in Combinators(schema)
  {
    assert "oneOf" in schema ==> "oneOf" in Combinators(schema);
    assert "anyOf" in schema ==> "anyOf" in Combinators(schema);
    assert "allOf" in schema ==> "allOf" in Combinators(schema);
    if CombinatorKey(schema).None? {
      assert Combinators(schema) == {};
    }
  }

  /** The advertised input schema always has a type, and no root combinator is left exactly when the
      tool declared at most one: only the first is flattened away. */
  lemma SanitizedShape(schema: Object, render: Value -> string)
    ensures "type" in SanitizeInput(schema, render)
    ensures Combinators(SanitizeInput(schema, render)) == {} <==> |Combinators(schema)| <= 1
  {
    var inlined := InlineDefs(StripNode(schema));
    CombinatorsKept(schema);
    FirstOf(inlined);
    FlattenRemovesFirst(inlined, render);
    PatchKeepsCombinators(Rewrite(schema, render));
    var before, after := Combinators(schema), Combinators(SanitizeInput(schema, render));
    if before != {} {
      assert after == before - {CombinatorKey(inlined).value};
      assert |after| == |before| - 1;
    }
  }

  /** The patch is for a rewritten schema without a `type`: it gets `object`, and no properties if it had no
      `properties` either. Nothing else is touched, and nothing at all if there is a `type`. */
  lemma PatchedExactly(schema: Object, render: Value -> string)
    ensures var rewritten, r := Rewrite(schema, render), SanitizeInput(schema, render);
      if "type" in rewritten then r == rewritten
      else
        r == rewritten["type" := Str("object")]["properties" :=
          if "properties" in rewritten then rewritten["properties"] else Obj(map[])]
  {
    var rewritten, r := Rewrite(schema, render), SanitizeInput(schema, render);
    if "type" !in rewritten && "properties" in rewritten {
      assert rewritten["type" := Str("object")]["properties" := rewritten["properties"]] == r;
    }
  }

  // ---------------------------------------------------------------- no call is lost

  /** The definitions of a schema; none when it has no `$defs` object. */
  function Defs(schema: Object): Object {
    if "$defs" in schema && schema["$defs"].Obj? then schema["$defs"].fields else map[]
  }

  /** What the definitions of a tool have to be for inlining to keep their meaning. */
  predicate Inlines(schema: Object) {
    var stripped := StripNode(schema);
    "$defs" in stripped && stripped["$defs"].Obj? ==>
      RootInlines(stripped - {"$defs"}, Defs(stripped))
  }

  lemma StripDefs(schema: Object)
    ensures Defs(StripNode(schema)) == StripNames(Defs(schema))
  {
    StripNodeKeys(schema);
    if "$defs" in schema {
      StripNodeField(schema, "$defs");
    }
  }

  /** Stripping and inlining, together: the same instances, with no definitions needed any more. */
  lemma InlinedMeansTheSame(schema: Object, i: Value, n: nat)
    requires Inlines(schema) && 64 <= n
    ensures Accepts(Obj(InlineDefs(StripNode(schema))), i, map[], 0) == Accepts(Obj(schema), i, Defs(schema), n)
  {
    StripDefs(schema);
    StripMeaning.StripNodeAccepts(schema, i, Defs(schema), n);
    var stripped := StripNode(schema);
    if "$defs" in stripped && stripped["$defs"].Obj? {
      InlineDefsKeepsMeaning(stripped, i, n);
    } else {
      NoDefsMeaning(Obj(stripped), i, n);
    }
  }

  lemma PatchKeepsCalls(schema: Object, args: Object)
    requires RefTarget(schema, map[]).None?
    ensures Accepts(Obj(PatchType(schema)), Obj(args), map[], 0) == Accepts(Obj(schema), Obj(args), map[], 0)
  {
    var patched, i := PatchType(schema), Obj(args);
    if "type" !in schema {
      assert TypeAllows(patched["type"], i);
      assert forall k | k != "type" && k != "properties" :: Field(patched, k) == Field(schema, k);
      assert Field(patched, "enum") == Field(schema, "enum") && Field(patched, "const") == Field(schema, "const");
      assert Field(patched, "required") == Field(schema, "required");
      assert PlainAllows(patched, i) == PlainAllows(schema, i);
      assert Declared(patched) == Declared(schema);
      PatchedSubschemas(schema, patched, i);
      AcceptsByKeywords(schema, i, map[], 0);
      AcceptsByKeywords(patched, i, map[], 0);
    }
  }

  lemma PatchedSubschemas(m: Object, m': Object, i: Value)
    requires forall k | k != "type" && k != "properties" :: Field(m', k) == Field(m, k)
    requires Declared(m') == Declared(m) && PlainAllows(m', i) == PlainAllows(m, i)
    ensures KeywordsAllow(m', i, map[], 0) == KeywordsAllow(m, i, map[], 0)
  {
    var at := Reading(map[], 0);
    assert Field(m', "additionalProperties") == Field(m, "additionalProperties");
    assert Field(m', "items") == Field(m, "items") && Field(m', "not") == Field(m, "not");
    assert Field(m', "allOf") == Field(m, "allOf") && Field(m', "anyOf") == Field(m, "anyOf");
    assert Field(m', "oneOf") == Field(m, "oneOf");
    SameAllOf(m', at, m, at, i);
    SameAnyOf(m', at, m, at, i);
    SameOneOf(m', at, m, at, i);
    assert AdditionalAllows(m', i, map[], 0) == AdditionalAllows(m, i, map[], 0);
  }

  lemma NothingRefersToNothing(m: Object)
    ensures RefTarget(m, map[]).None?
  {
  }

  lemma NothingToFlatten(schema: Object, render: Value -> string)
    requires Combinators(schema) == {}
    ensures FlattenRoot(schema, render) == schema
  {
    assert "oneOf" !in Combinators(schema) && "anyOf" !in Combinators(schema) && "allOf" !in Combinators(schema);
  }

  /** A tool with no root combinator is advertised with exactly the calls it declared. */
  lemma SanitizeIsExact(schema: Object, render: Value -> string, args: Object, n: nat)
    requires Inlines(schema) && 64 <= n
    requires Combinators(schema) == {}
    ensures Accepts(Obj(SanitizeInput(schema, render)), Obj(args), map[], 0)
         == Accepts(Obj(schema), Obj(args), Defs(schema), n)
  {
    CombinatorsKept(schema);
    NothingToFlatten(InlineDefs(StripNode(schema)), render);
    InlinedMeansTheSame(schema, Obj(args), n);
    NothingRefersToNothing(Rewrite(schema, render));
    PatchKeepsCalls(Rewrite(schema, render), args);
  }

  lemma InlinedRoot(schema: Object, k: string)
    requires k in {"properties", "additionalProperties"}
    ensures k in InlineDefs(StripNode(schema)) <==> k in schema
  {
    StripNodeKeys(schema);
  }

  lemma FlatIsTyped(schema: Object, combinator: string, render: Value -> string)
    requires CombinatorKey(schema) == Some(combinator) && schema[combinator].Arr?
    ensures PatchType(FlattenRoot(schema, render)) == FlattenRoot(schema, render)
  {
  }

  /** A tool with a root combinator whose variants are keepable is advertised with every call it declared:
      what the tool's own schema accepts, read with its definitions, the sanitized one accepts without. */
  lemma SanitizeKeepsEveryCall(schema: Object, render: Value -> string, combinator: string, args: Object, n: nat)
    requires Inlines(schema) && 64 <= n
    requires var inlined := InlineDefs(StripNode(schema));
      && FlattensNodes(inlined, combinator, map[]) && inlined[combinator].items != []
      && Keepable(inlined[combinator].items, map[], 0)
    requires "properties" in schema ==> "additionalProperties" !in schema
    requires Accepts(Obj(schema), Obj(args), Defs(schema), n)
    ensures Accepts(Obj(SanitizeInput(schema, render)), Obj(args), map[], 0)
  {
    var inlined := InlineDefs(StripNode(schema));
    InlinedMeansTheSame(schema, Obj(args), n);
    InlinedRoot(schema, "properties");
    InlinedRoot(schema, "additionalProperties");
    FlatIsTyped(inlined, combinator, render);
    FlattenRejectsNothing(inlined, combinator, render, args, map[], 0);
  }

  lemma UnionTakesObjects(schema: Object, combinator: string, t: string, i: Value)
    requires FlattensUnion(schema, combinator, t, map[])
    requires Accepts(Obj(schema), i, map[], 0)
    ensures i.Obj?
  {
    AcceptsByKeywords(schema, i, map[], 0);
    var j := SomeVariant(schema, combinator, i, map[], 0);
    var v := schema[combinator].items[j].fields;
    AcceptsByKeywords(v, i, map[], 0);
    assert TypeAllows(v["type"], i);
  }

  /** And with a tagged union, a call is all its schema ever accepts. */
  lemma SanitizeKeepsUnion(schema: Object, render: Value -> string, combinator: string, t: string, args: Value, n: nat)
    requires Inlines(schema) && 64 <= n
    requires var inlined := InlineDefs(StripNode(schema));
      FlattensUnion(inlined, combinator, t, map[]) && Keepable(inlined[combinator].items, map[], 0)
    requires "properties" in schema ==> "additionalProperties" !in schema
    requires Accepts(Obj(schema), args, Defs(schema), n)
    ensures args.Obj? && Accepts(Obj(SanitizeInput(schema, render)), args, map[], 0)
  {
    InlinedMeansTheSame(schema, args, n);
    UnionTakesObjects(InlineDefs(StripNode(schema)), combinator, t, args);
    SanitizeKeepsEveryCall(schema, render, combinator, args.fields, n);
  }
}
