/** What a schema means: the instances it accepts.

    The keywords are those of JSON Schema Core 2020-12 (sections 8.2.3.1, 10.2.1 and 10.3) and JSON
    Schema Validation 2020-12 (sections 6.1.1 to 6.1.3 and 6.5.3) that tool schemas are made of;
    every other keyword, `description` above all, is an annotation. A `$ref` to `#/$defs/<name>` is
    followed at most `n` times deep: an instance is accepted when it is at every large enough `n`. */
module JsonSchema {
  import opened Json

  const REF_PREFIX := "#/$defs/"

  /** The definition a node refers to, if its `$ref` is a string naming one. */
  function RefTarget(m: Object, defs: Object): Option<string> {
    if "$ref" in m && m["$ref"].Str? && NamesDef(m["$ref"].s, defs) then Some(m["$ref"].s[|REF_PREFIX|..])
    else None
  }

  predicate NamesDef(reference: string, defs: Object) {
    REF_PREFIX <= reference && reference[|REF_PREFIX|..] in defs
  }

  predicate TypeNamed(name: string, i: Value) {
    match i
    case Null => name == "null"
    case Bool(_) => name == "boolean"
    case Num(x) => name == "number" || (name == "integer" && x == x.Floor as real)
    case Str(_) => name == "string"
    case Arr(_) => name == "array"
    case Obj(_) => name == "object"
  }

  predicate TypeAllows(t: Value, i: Value) {
    match t
    case Str(name) => TypeNamed(name, i)
    case Arr(names) => exists k | 0 <= k < |names| :: names[k].Str? && TypeNamed(names[k].s, i)
    case _ => true
  }

  predicate EnumAllows(e: Value, i: Value) {
    e.Arr? ==> i in e.items
  }

  predicate RequiredAllows(r: Value, i: Value) {
    r.Arr? && i.Obj? ==> forall k | 0 <= k < |r.items| && r.items[k].Str? :: r.items[k].s in i.fields
  }

  /** The assertions that look at the instance alone. */
  predicate PlainAllows(m: Object, i: Value) {
    && ("type" in m ==> TypeAllows(m["type"], i))
    && ("enum" in m ==> EnumAllows(m["enum"], i))
    && ("const" in m ==> i == m["const"])
    && ("required" in m ==> RequiredAllows(m["required"], i))
  }

  /** The names `properties` declares, which `additionalProperties` then leaves alone. */
  function Declared(m: Object): Object {
    if "properties" in m && m["properties"].Obj? then m["properties"].fields else map[]
  }

  /** The subschemas of an array-valued keyword. */
  function Branches(m: Object, key: string): seq<Value> {
    if key in m && m[key].Arr? then m[key].items else []
  }

  predicate Accepts(s: Value, i: Value, defs: Object, n: nat)
    decreases n, s, 3
  {
    match s
    case Bool(b) => b
    case Obj(m) =>
      (match RefTarget(m, defs)
       case Some(name) => n > 0 && Accepts(defs[name], i, defs, n - 1) && KeywordsAllow(m, i, defs, n - 1)
       case None => KeywordsAllow(m, i, defs, n))
    case _ => true
  }

  predicate KeywordsAllow(m: Object, i: Value, defs: Object, n: nat)
    decreases n, Obj(m), 2
  {
    && PlainAllows(m, i)
    && PropertiesAllow(m, i, defs, n)
    && AdditionalAllows(m, i, defs, n)
    && ItemsAllow(m, i, defs, n)
    && NotAllows(m, i, defs, n)
    && AllOfAllows(m, i, defs, n)
    && AnyOfAllows(m, i, defs, n)
    && OneOfAllows(m, i, defs, n)
  }

  predicate PropertiesAllow(m: Object, i: Value, defs: Object, n: nat)
    decreases n, Obj(m), 0
  {
    i.Obj? ==> forall p | p in Declared(m) && p in i.fields :: Accepts(Declared(m)[p], i.fields[p], defs, n)
  }

  predicate AdditionalAllows(m: Object, i: Value, defs: Object, n: nat)
    decreases n, Obj(m), 0
  {
    "additionalProperties" in m && i.Obj? ==>
      forall p | p in i.fields && p !in Declared(m) :: Accepts(m["additionalProperties"], i.fields[p], defs, n)
  }

  predicate ItemsAllow(m: Object, i: Value, defs: Object, n: nat)
    decreases n, Obj(m), 0
  {
    "items" in m && i.Arr? ==> forall k | 0 <= k < |i.items| :: Accepts(m["items"], i.items[k], defs, n)
  }

  predicate NotAllows(m: Object, i: Value, defs: Object, n: nat)
    decreases n, Obj(m), 0
  {
    "not" in m ==> !Accepts(m["not"], i, defs, n)
  }

  predicate AllOfAllows(m: Object, i: Value, defs: Object, n: nat)
    decreases n, Obj(m), 0
  {
    forall k | 0 <= k < |Branches(m, "allOf")| :: Accepts(Branches(m, "allOf")[k], i, defs, n)
  }

  predicate AnyOfAllows(m: Object, i: Value, defs: Object, n: nat)
    decreases n, Obj(m), 0
  {
    "anyOf" in m && m["anyOf"].Arr? ==>
      exists k | 0 <= k < |Branches(m, "anyOf")| :: Accepts(Branches(m, "anyOf")[k], i, defs, n)
  }

  /** The `k`-th schema of `oneOf` accepts the instance, and no other does. */
  predicate OnlyAccepts(m: Object, k: nat, i: Value, defs: Object, n: nat)
    requires k < |Branches(m, "oneOf")|
    decreases n, Obj(m), 0
  {
    forall j | 0 <= j < |Branches(m, "oneOf")| :: Accepts(Branches(m, "oneOf")[j], i, defs, n) <==> j == k
  }

  predicate OneOfAllows(m: Object, i: Value, defs: Object, n: nat)
    decreases n, Obj(m), 1
  {
    "oneOf" in m && m["oneOf"].Arr? ==> exists k | 0 <= k < |Branches(m, "oneOf")| :: OnlyAccepts(m, k, i, defs, n)
  }

  lemma AcceptsByReference(m: Object, name: string, i: Value, defs: Object, n: nat)
    requires RefTarget(m, defs) == Some(name)
    ensures Accepts(Obj(m), i, defs, n) <==>
      n > 0 && Accepts(defs[name], i, defs, n - 1) && KeywordsAllow(m, i, defs, n - 1)
  {
  }

  lemma AcceptsByKeywords(m: Object, i: Value, defs: Object, n: nat)
    requires RefTarget(m, defs).None?
    ensures Accepts(Obj(m), i, defs, n) <==> KeywordsAllow(m, i, defs, n)
  {
  }

  // ---------------------------------------------------------------- same meaning

  /** A schema, with the definitions and depth it is read with. */
  datatype Reading = Reading(defs: Object, n: nat)

  ghost predicate Same(s: Value, at: Reading, s': Value, at': Reading) {
    forall i :: Accepts(s, i, at.defs, at.n) == Accepts(s', i, at'.defs, at'.n)
  }

  ghost predicate SameKeyword(key: string, m: Object, at: Reading, m': Object, at': Reading) {
    (key in m <==> key in m') && (key in m ==> Same(m[key], at, m'[key], at'))
  }

  ghost predicate SameBranches(key: string, m: Object, at: Reading, m': Object, at': Reading) {
    && ((key in m && m[key].Arr?) <==> (key in m' && m'[key].Arr?))
    && |Branches(m, key)| == |Branches(m', key)|
    && forall k | 0 <= k < |Branches(m, key)| :: Same(Branches(m, key)[k], at, Branches(m', key)[k], at')
  }

  /** Keyword by keyword, two nodes say the same. */
  ghost predicate SameNode(m: Object, at: Reading, m': Object, at': Reading) {
    && (forall i :: PlainAllows(m, i) == PlainAllows(m', i))
    && Declared(m).Keys == Declared(m').Keys
    && (forall p | p in Declared(m) :: Same(Declared(m)[p], at, Declared(m')[p], at'))
    && SameKeyword("additionalProperties", m, at, m', at')
    && SameKeyword("items", m, at, m', at')
    && SameKeyword("not", m, at, m', at')
    && SameBranches("allOf", m, at, m', at')
    && SameBranches("anyOf", m, at, m', at')
    && SameBranches("oneOf", m, at, m', at')
  }

  lemma SameSubschemas(m: Object, at: Reading, m': Object, at': Reading, i: Value)
    requires SameNode(m, at, m', at')
    ensures PropertiesAllow(m, i, at.defs, at.n) == PropertiesAllow(m', i, at'.defs, at'.n)
    ensures AdditionalAllows(m, i, at.defs, at.n) == AdditionalAllows(m', i, at'.defs, at'.n)
    ensures ItemsAllow(m, i, at.defs, at.n) == ItemsAllow(m', i, at'.defs, at'.n)
    ensures NotAllows(m, i, at.defs, at.n) == NotAllows(m', i, at'.defs, at'.n)
  {
  }

  lemma SameAllOf(m: Object, at: Reading, m': Object, at': Reading, i: Value)
    requires SameBranches("allOf", m, at, m', at')
    ensures AllOfAllows(m, i, at.defs, at.n) == AllOfAllows(m', i, at'.defs, at'.n)
  {
  }

  lemma SameAnyOf(m: Object, at: Reading, m': Object, at': Reading, i: Value)
    requires SameBranches("anyOf", m, at, m', at')
    ensures AnyOfAllows(m, i, at.defs, at.n) == AnyOfAllows(m', i, at'.defs, at'.n)
  {
  }

  lemma SameOneOf(m: Object, at: Reading, m': Object, at': Reading, i: Value)
    requires SameBranches("oneOf", m, at, m', at')
    ensures OneOfAllows(m, i, at.defs, at.n) == OneOfAllows(m', i, at'.defs, at'.n)
  {
    forall k | 0 <= k < |Branches(m, "oneOf")|
      ensures OnlyAccepts(m, k, i, at.defs, at.n) == OnlyAccepts(m', k, i, at'.defs, at'.n)
    {
      SameOnly(m, at, m', at', i, k);
    }
  }

  lemma SameOnly(m: Object, at: Reading, m': Object, at': Reading, i: Value, k: nat)
    requires SameBranches("oneOf", m, at, m', at') && k < |Branches(m, "oneOf")|
    ensures OnlyAccepts(m, k, i, at.defs, at.n) == OnlyAccepts(m', k, i, at'.defs, at'.n)
  {
  }

  lemma SameNodeAllowsSame(m: Object, at: Reading, m': Object, at': Reading, i: Value)
    requires SameNode(m, at, m', at')
    ensures KeywordsAllow(m, i, at.defs, at.n) == KeywordsAllow(m', i, at'.defs, at'.n)
  {
    SameSubschemas(m, at, m', at', i);
    SameAllOf(m, at, m', at', i);
    SameAnyOf(m, at, m', at', i);
    SameOneOf(m, at, m', at', i);
  }

  /** Keywords a node does not have ask nothing. */
  lemma AbsentAllow(m: Object, i: Value, defs: Object, n: nat)
    requires "type" !in m && "enum" !in m && "const" !in m && "required" !in m && "properties" !in m
    requires "allOf" !in m && "anyOf" !in m && "oneOf" !in m
    requires "additionalProperties" !in m && "items" !in m && "not" !in m
    ensures KeywordsAllow(m, i, defs, n)
  {
    assert PropertiesAllow(m, i, defs, n) && AdditionalAllows(m, i, defs, n);
    assert ItemsAllow(m, i, defs, n) && NotAllows(m, i, defs, n);
    assert AllOfAllows(m, i, defs, n) && AnyOfAllows(m, i, defs, n) && OneOfAllows(m, i, defs, n);
  }
}
