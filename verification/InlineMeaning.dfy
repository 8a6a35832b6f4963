/** Where inlining keeps a schema's meaning.

    Merging siblings into a definition replaces the conjunction the standard asks for (JSON Schema
    Core 2020-12, section 8.2.3.1): `Mergeable` says when the two agree. Under it, at every reference
    the unfolding meets, the inlined schema accepts exactly the instances the original accepted. */
module InlineMeaning {
  import opened Json
  import opened JsonSchema
  import opened StripMeta
  import opened InlineRefs

  const SCHEMA_KEYWORDS: set<string> := {"additionalProperties", "items", "not"}

  const BRANCH_KEYWORDS: set<string> := {"allOf", "anyOf", "oneOf"}

  const PLAIN_KEYWORDS: set<string> := {"type", "enum", "const", "required"}

  predicate Constrains(k: string) {
    k in SCHEMA_KEYWORDS || k in BRANCH_KEYWORDS || k in PLAIN_KEYWORDS || k == "properties"
  }

  /** The two nodes do not disagree under this key. */
  predicate Agree(k: string, d: Object, m: Object) {
    k in d && k in m ==> d[k] == m[k]
  }

  /** Merging the siblings `m` into the object `d` says what both say. */
  predicate MergeableNode(d: Object, m: Object) {
    && (forall k | k in SCHEMA_KEYWORDS + BRANCH_KEYWORDS :: Agree(k, d, m))
    && Agree("type", d, m) && Agree("enum", d, m) && Agree("const", d, m)
    && ("required" in d && "required" in m ==> (d["required"].Arr? <==> m["required"].Arr?))
    && ("properties" in d && "properties" in m ==> (d["properties"].Obj? <==> m["properties"].Obj?))
    && (forall p | p in Declared(d) && p in Declared(m) :: Declared(d)[p] == Declared(m)[p])
    && ("additionalProperties" in d ==> Declared(m).Keys <= Declared(d).Keys)
    && ("additionalProperties" in m ==> Declared(d).Keys <= Declared(m).Keys)
  }

  predicate Mergeable(def: Value, m: Object) {
    if def.Obj? then MergeableNode(def.fields, m) else forall k | k in m :: !Constrains(k)
  }

  /** References stand only where a schema may, so that resolving leaves every other keyword alone. */
  predicate WellPlaced(m: Object, defs: Object) {
    && (forall k | k in PLAIN_KEYWORDS && k in m :: RefFree(m[k], defs))
    && ("properties" in m && m["properties"].Obj? ==> RefTarget(m["properties"].fields, defs).None?)
    && (forall k | k in BRANCH_KEYWORDS && k in m && m[k].Obj? :: RefTarget(m[k].fields, defs).None?)
  }

  /** Everything `n` references deep is well placed and merges into what it should. */
  predicate Faithful(v: Value, defs: Object, n: nat)
    decreases n, v, 1
  {
    v.Obj? ==>
      match RefTarget(v.fields, defs)
      case Some(name) =>
        && n > 0
        && Mergeable(defs[name], v.fields)
        && Faithful(defs[name], defs, n - 1)
        && FaithfulParts(v.fields, defs, n - 1)
        && Faithful(Merge(defs[name], v.fields), defs, n - 1)
      case None => WellPlaced(v.fields, defs) && FaithfulParts(v.fields, defs, n)
  }

  predicate FaithfulParts(m: Object, defs: Object, n: nat)
    decreases n, Obj(m), 0
  {
    && (forall p | p in Declared(m) :: Faithful(Declared(m)[p], defs, n))
    && (forall k | k in SCHEMA_KEYWORDS && k in m :: Faithful(m[k], defs, n))
    && (forall k, j | k in BRANCH_KEYWORDS && 0 <= j < |Branches(m, k)| :: Faithful(Branches(m, k)[j], defs, n))
  }

  lemma FaithfulByReference(m: Object, name: string, defs: Object, n: nat)
    requires RefTarget(m, defs) == Some(name)
    ensures Faithful(Obj(m), defs, n) <==>
      && n > 0 && Mergeable(defs[name], m) && Faithful(defs[name], defs, n - 1)
      && FaithfulParts(m, defs, n - 1) && Faithful(Merge(defs[name], m), defs, n - 1)
  {
  }

  // ---------------------------------------------------------------- depth does not matter

  lemma {:induction false} DeeperParts(m: Object, defs: Object, n: nat)
    requires FaithfulParts(m, defs, n)
    ensures FaithfulParts(m, defs, n + 1)
    ensures SameNode(m, Reading(defs, n), m, Reading(defs, n + 1))
    decreases n, Obj(m), 0
  {
    forall p | p in Declared(m) {
      Deeper(Declared(m)[p], defs, n);
    }
    forall k | k in SCHEMA_KEYWORDS && k in m {
      Deeper(m[k], defs, n);
    }
    forall k, j | k in BRANCH_KEYWORDS && 0 <= j < |Branches(m, k)| {
      Deeper(Branches(m, k)[j], defs, n);
    }
  }

  lemma {:induction false} DeeperKeywords(m: Object, i: Value, defs: Object, n: nat)
    requires FaithfulParts(m, defs, n)
    ensures KeywordsAllow(m, i, defs, n) == KeywordsAllow(m, i, defs, n + 1)
    decreases n, Obj(m), 1
  {
    DeeperParts(m, defs, n);
    SameNodeAllowsSame(m, Reading(defs, n), m, Reading(defs, n + 1), i);
  }

  /** Past the depth of its references, a faithful schema means the same at every depth. */
  lemma {:induction false} Deeper(v: Value, defs: Object, n: nat)
    requires Faithful(v, defs, n)
    ensures Faithful(v, defs, n + 1)
    ensures Same(v, Reading(defs, n), v, Reading(defs, n + 1))
    decreases n, v, 4
  {
    if v.Obj? {
      DeeperFaithful(v.fields, defs, n);
      forall i
        ensures Accepts(v, i, defs, n) == Accepts(v, i, defs, n + 1)
      {
        DeeperNode(v.fields, i, defs, n);
      }
    }
  }

  lemma {:induction false} DeeperFaithful(m: Object, defs: Object, n: nat)
    requires Faithful(Obj(m), defs, n)
    ensures Faithful(Obj(m), defs, n + 1)
    decreases n, Obj(m), 3
  {
    match RefTarget(m, defs)
    case Some(name) =>
      FaithfulByReference(m, name, defs, n);
      FaithfulByReference(m, name, defs, n + 1);
      Deeper(defs[name], defs, n - 1);
      Deeper(Merge(defs[name], m), defs, n - 1);
      DeeperParts(m, defs, n - 1);
    case None =>
      DeeperParts(m, defs, n);
  }

  lemma {:induction false} DeeperNode(m: Object, i: Value, defs: Object, n: nat)
    requires Faithful(Obj(m), defs, n)
    ensures Accepts(Obj(m), i, defs, n) == Accepts(Obj(m), i, defs, n + 1)
    decreases n, Obj(m), 2
  {
    match RefTarget(m, defs) {
      case Some(name) =>
        AcceptsByReference(m, name, i, defs, n);
        AcceptsByReference(m, name, i, defs, n + 1);
        Deeper(defs[name], defs, n - 1);
        DeeperKeywords(m, i, defs, n - 1);
      case None =>
        AcceptsByKeywords(m, i, defs, n);
        AcceptsByKeywords(m, i, defs, n + 1);
        DeeperKeywords(m, i, defs, n);
    }
  }

  // ---------------------------------------------------------------- merging is conjunction

  lemma MergedField(d: Object, m: Object, k: string)
    requires k != "$ref" && k != "properties" && k != "required"
    ensures Field(MergeInto(d, m), k) == if k in m then Some(m[k]) else Field(d, k)
  {
  }

  lemma {:induction false} UnionRequiredAllows(own: seq<Value>, more: seq<Value>, i: Value)
    ensures RequiredAllows(Arr(UnionRequired(own, more)), i)
        <==> RequiredAllows(Arr(own), i) && RequiredAllows(Arr(more), i)
    decreases |more|
  {
    if more != [] {
      var own' := if more[0] in own then own else own + [more[0]];
      UnionRequiredAllows(own', more[1..], i);
      assert more == [more[0]] + more[1..];
      if i.Obj? {
        assert RequiredAllows(Arr(more), i) <==>
          (more[0].Str? ==> more[0].s in i.fields) && RequiredAllows(Arr(more[1..]), i);
        assert RequiredAllows(Arr(own + [more[0]]), i) <==>
          RequiredAllows(Arr(own), i) && (more[0].Str? ==> more[0].s in i.fields) by {
          var longer := own + [more[0]];
          assert longer[|own|] == more[0];
          assert forall k | 0 <= k < |own| :: longer[k] == own[k];
        }
      }
    }
  }

  /** What `required` alone asks. */
  predicate RequiredKeyword(m: Object, i: Value) {
    "required" in m ==> RequiredAllows(m["required"], i)
  }

  lemma MergedRequired(d: Object, m: Object, i: Value)
    requires MergeableNode(d, m)
    ensures RequiredKeyword(MergeInto(d, m), i) <==> RequiredKeyword(d, i) && RequiredKeyword(m, i)
  {
    var r := MergeInto(d, m);
    if "required" in m {
      assert r["required"] == MergeField("required", Field(d, "required"), m["required"]);
      if "required" in d && d["required"].Arr? {
        UnionRequiredAllows(d["required"].items, m["required"].items, i);
      }
    } else if "required" in d {
      assert r["required"] == d["required"];
    }
  }

  lemma MergedPlain(d: Object, m: Object, i: Value)
    requires MergeableNode(d, m)
    ensures PlainAllows(MergeInto(d, m), i) <==> PlainAllows(d, i) && PlainAllows(m, i)
  {
    MergedField(d, m, "type");
    MergedField(d, m, "enum");
    MergedField(d, m, "const");
    MergedRequired(d, m, i);
  }

  lemma MergedDeclared(d: Object, m: Object)
    requires MergeableNode(d, m)
    ensures Declared(MergeInto(d, m)) == Declared(d) + Declared(m)
  {
    var r := MergeInto(d, m);
    if "properties" in m {
      assert r["properties"] == MergeField("properties", Field(d, "properties"), m["properties"]);
    } else if "properties" in d {
      assert r["properties"] == d["properties"];
    }
  }

  lemma MergedBranches(d: Object, m: Object, k: string)
    requires MergeableNode(d, m) && k in BRANCH_KEYWORDS
    ensures k in d ==> Field(MergeInto(d, m), k) == Field(d, k)
    ensures k in m ==> Field(MergeInto(d, m), k) == Field(m, k)
    ensures k !in d && k !in m ==> k !in MergeInto(d, m)
    ensures k in d ==> Branches(MergeInto(d, m), k) == Branches(d, k)
    ensures k in m ==> Branches(MergeInto(d, m), k) == Branches(m, k)
  {
    assert k in SCHEMA_KEYWORDS + BRANCH_KEYWORDS;
    assert Agree(k, d, m);
    MergedField(d, m, k);
  }

  lemma MergedRefTarget(d: Object, m: Object, defs: Object)
    ensures RefTarget(MergeInto(d, m), defs) == RefTarget(d, defs)
  {
  }

  lemma MergedProperties(d: Object, m: Object, i: Value, defs: Object, n: nat)
    requires MergeableNode(d, m)
    ensures PropertiesAllow(MergeInto(d, m), i, defs, n)
        <==> PropertiesAllow(d, i, defs, n) && PropertiesAllow(m, i, defs, n)
  {
    MergedDeclared(d, m);
  }

  lemma MergedAdditional(d: Object, m: Object, i: Value, defs: Object, n: nat)
    requires MergeableNode(d, m)
    ensures AdditionalAllows(MergeInto(d, m), i, defs, n)
        <==> AdditionalAllows(d, i, defs, n) && AdditionalAllows(m, i, defs, n)
  {
    MergedDeclared(d, m);
    MergedField(d, m, "additionalProperties");
    assert Agree("additionalProperties", d, m);
  }

  lemma MergedItemsAndNot(d: Object, m: Object, i: Value, defs: Object, n: nat)
    requires MergeableNode(d, m)
    ensures ItemsAllow(MergeInto(d, m), i, defs, n) <==> ItemsAllow(d, i, defs, n) && ItemsAllow(m, i, defs, n)
    ensures NotAllows(MergeInto(d, m), i, defs, n) <==> NotAllows(d, i, defs, n) && NotAllows(m, i, defs, n)
  {
    MergedField(d, m, "items");
    MergedField(d, m, "not");
    assert Agree("items", d, m) && Agree("not", d, m);
  }

  lemma MergedAllOf(d: Object, m: Object, i: Value, defs: Object, n: nat)
    requires MergeableNode(d, m)
    ensures AllOfAllows(MergeInto(d, m), i, defs, n) <==> AllOfAllows(d, i, defs, n) && AllOfAllows(m, i, defs, n)
  {
    MergedBranches(d, m, "allOf");
  }

  lemma MergedAnyOf(d: Object, m: Object, i: Value, defs: Object, n: nat)
    requires MergeableNode(d, m)
    ensures AnyOfAllows(MergeInto(d, m), i, defs, n) <==> AnyOfAllows(d, i, defs, n) && AnyOfAllows(m, i, defs, n)
  {
    MergedBranches(d, m, "anyOf");
  }

  lemma MergedOneOf(d: Object, m: Object, i: Value, defs: Object, n: nat)
    requires MergeableNode(d, m)
    ensures OneOfAllows(MergeInto(d, m), i, defs, n) <==> OneOfAllows(d, i, defs, n) && OneOfAllows(m, i, defs, n)
  {
    MergedBranches(d, m, "oneOf");
    if "oneOf" in d {
      SameOneOfIn(MergeInto(d, m), d, i, defs, n);
    }
    if "oneOf" in m {
      SameOneOfIn(MergeInto(d, m), m, i, defs, n);
    }
  }

  lemma SameOneOfIn(m: Object, m': Object, i: Value, defs: Object, n: nat)
    requires ("oneOf" in m && m["oneOf"].Arr?) <==> ("oneOf" in m' && m'["oneOf"].Arr?)
    requires Branches(m, "oneOf") == Branches(m', "oneOf")
    ensures OneOfAllows(m, i, defs, n) == OneOfAllows(m', i, defs, n)
  {
    SameOneOf(m, Reading(defs, n), m', Reading(defs, n), i);
  }

  lemma MergedKeywords(d: Object, m: Object, i: Value, defs: Object, n: nat)
    requires MergeableNode(d, m)
    ensures KeywordsAllow(MergeInto(d, m), i, defs, n)
        <==> KeywordsAllow(d, i, defs, n) && KeywordsAllow(m, i, defs, n)
  {
    MergedPlain(d, m, i);
    MergedProperties(d, m, i, defs, n);
    MergedAdditional(d, m, i, defs, n);
    MergedItemsAndNot(d, m, i, defs, n);
    MergedAllOf(d, m, i, defs, n);
    MergedAnyOf(d, m, i, defs, n);
    MergedOneOf(d, m, i, defs, n);
  }

  lemma Unconstrained(m: Object, i: Value, defs: Object, n: nat)
    requires forall k | k in m :: !Constrains(k)
    ensures KeywordsAllow(m, i, defs, n)
  {
    assert forall k | Constrains(k) :: k !in m;
    assert "type" !in m && "enum" !in m && "const" !in m && "required" !in m && "properties" !in m;
    assert "allOf" !in m && "anyOf" !in m && "oneOf" !in m;
    assert "additionalProperties" !in m && "items" !in m && "not" !in m;
    AbsentAllow(m, i, defs, n);
  }

  /** The merged schema says what the definition and the siblings say together. */
  lemma MergeIsConjunction(def: Value, m: Object, i: Value, defs: Object, n: nat)
    requires Mergeable(def, m) && FaithfulParts(m, defs, n)
    requires Faithful(Merge(def, m), defs, n)
    ensures Accepts(Merge(def, m), i, defs, n) <==> Accepts(def, i, defs, n) && KeywordsAllow(m, i, defs, n)
  {
    if def.Obj? {
      MergeNodeIsConjunction(def.fields, m, i, defs, n);
    } else {
      Unconstrained(m, i, defs, n);
    }
  }

  lemma MergeNodeIsConjunction(d: Object, m: Object, i: Value, defs: Object, n: nat)
    requires MergeableNode(d, m) && FaithfulParts(m, defs, n)
    requires Faithful(Obj(MergeInto(d, m)), defs, n)
    ensures Accepts(Obj(MergeInto(d, m)), i, defs, n) <==> Accepts(Obj(d), i, defs, n) && KeywordsAllow(m, i, defs, n)
  {
    var r := MergeInto(d, m);
    MergedRefTarget(d, m, defs);
    match RefTarget(d, defs)
    case Some(name) =>
      AcceptsByReference(d, name, i, defs, n);
      AcceptsByReference(r, name, i, defs, n);
      MergedKeywords(d, m, i, defs, n - 1);
      MergedPartsFaithful(d, m, defs, n - 1);
      DeeperKeywords(m, i, defs, n - 1);
    case None =>
      AcceptsByKeywords(d, i, defs, n);
      AcceptsByKeywords(r, i, defs, n);
      MergedKeywords(d, m, i, defs, n);
  }

  /** What the siblings hold survives the merge, and stays as faithful as the merge. */
  lemma MergedPartsFaithful(d: Object, m: Object, defs: Object, n: nat)
    requires MergeableNode(d, m) && FaithfulParts(MergeInto(d, m), defs, n)
    ensures FaithfulParts(m, defs, n)
  {
    var r := MergeInto(d, m);
    MergedDeclared(d, m);
    forall p | p in Declared(m)
      ensures Faithful(Declared(m)[p], defs, n)
    {
      assert Declared(r)[p] == Declared(m)[p];
    }
    forall k | k in SCHEMA_KEYWORDS && k in m
      ensures Faithful(m[k], defs, n)
    {
      MergedField(d, m, k);
      assert r[k] == m[k];
    }
    forall k, j | k in BRANCH_KEYWORDS && 0 <= j < |Branches(m, k)|
      ensures Faithful(Branches(m, k)[j], defs, n)
    {
      MergedBranches(d, m, k);
      assert Branches(r, k)[j] == Branches(m, k)[j];
    }
  }

  // ---------------------------------------------------------------- unfolding keeps the meaning

  /** A schema with no references left, read without definitions. */
  const SELF_CONTAINED := Reading(map[], 0)

  lemma {:induction false} UnfoldRefFree(v: Value, defs: Object, n: nat)
    requires RefFree(v, defs)
    ensures Unfold(v, defs, n) == v
  {
    match v
    case Obj(m) =>
      forall k | k in m {
        UnfoldRefFree(m[k], defs, n);
      }
      assert UnfoldFields(m, defs, n) == m;
    case Arr(items) =>
      forall j | 0 <= j < |items| {
        UnfoldRefFree(items[j], defs, n);
      }
      assert Unfold(v, defs, n).items == items;
    case _ =>
  }

  lemma UnfoldPlain(m: Object, defs: Object, n: nat, i: Value)
    requires WellPlaced(m, defs)
    ensures PlainAllows(UnfoldFields(m, defs, n), i) == PlainAllows(m, i)
  {
    forall k | k in PLAIN_KEYWORDS && k in m
      ensures UnfoldFields(m, defs, n)[k] == m[k]
    {
      UnfoldRefFree(m[k], defs, n);
    }
  }

  lemma UnfoldDeclared(m: Object, defs: Object, n: nat)
    requires WellPlaced(m, defs)
    ensures Declared(UnfoldFields(m, defs, n)) == UnfoldFields(Declared(m), defs, n)
  {
  }

  lemma UnfoldBranches(m: Object, k: string, defs: Object, n: nat)
    requires WellPlaced(m, defs) && k in BRANCH_KEYWORDS
    ensures var u := UnfoldFields(m, defs, n);
      && ((k in u && u[k].Arr?) <==> (k in m && m[k].Arr?))
      && |Branches(u, k)| == |Branches(m, k)|
      && forall j | 0 <= j < |Branches(m, k)| :: Branches(u, k)[j] == Unfold(Branches(m, k)[j], defs, n)
  {
  }

  lemma {:induction false} UnfoldSameKeyword(m: Object, k: string, defs: Object, n: nat)
    requires FaithfulParts(m, defs, n) && k in SCHEMA_KEYWORDS
    ensures SameKeyword(k, UnfoldFields(m, defs, n), SELF_CONTAINED, m, Reading(defs, n))
    decreases n, Obj(m), 0
  {
    if k in m {
      UnfoldKeepsMeaning(m[k], defs, n);
    }
  }

  lemma {:induction false} UnfoldSameBranches(m: Object, k: string, defs: Object, n: nat)
    requires WellPlaced(m, defs) && FaithfulParts(m, defs, n) && k in BRANCH_KEYWORDS
    ensures SameBranches(k, UnfoldFields(m, defs, n), SELF_CONTAINED, m, Reading(defs, n))
    decreases n, Obj(m), 0
  {
    var u := UnfoldFields(m, defs, n);
    UnfoldBranches(m, k, defs, n);
    forall j | 0 <= j < |Branches(m, k)|
      ensures Same(Branches(u, k)[j], SELF_CONTAINED, Branches(m, k)[j], Reading(defs, n))
    {
      UnfoldKeepsMeaning(Branches(m, k)[j], defs, n);
    }
  }

  lemma {:induction false} UnfoldSameNode(m: Object, defs: Object, n: nat)
    requires WellPlaced(m, defs) && FaithfulParts(m, defs, n)
    ensures SameNode(UnfoldFields(m, defs, n), SELF_CONTAINED, m, Reading(defs, n))
    decreases n, Obj(m), 1
  {
    forall i {
      UnfoldPlain(m, defs, n, i);
    }
    UnfoldDeclared(m, defs, n);
    forall p | p in Declared(m)
      ensures Same(Unfold(Declared(m)[p], defs, n), SELF_CONTAINED, Declared(m)[p], Reading(defs, n))
    {
      UnfoldKeepsMeaning(Declared(m)[p], defs, n);
    }
    UnfoldSameKeyword(m, "additionalProperties", defs, n);
    UnfoldSameKeyword(m, "items", defs, n);
    UnfoldSameKeyword(m, "not", defs, n);
    UnfoldSameBranches(m, "allOf", defs, n);
    UnfoldSameBranches(m, "anyOf", defs, n);
    UnfoldSameBranches(m, "oneOf", defs, n);
  }

  lemma {:induction false} UnfoldNodeKeepsMeaning(m: Object, defs: Object, n: nat, i: Value)
    requires RefTarget(m, defs).None? && WellPlaced(m, defs) && FaithfulParts(m, defs, n)
    ensures Accepts(Obj(UnfoldFields(m, defs, n)), i, map[], 0) == Accepts(Obj(m), i, defs, n)
    decreases n, Obj(m), 2
  {
    var u := UnfoldFields(m, defs, n);
    UnfoldSameNode(m, defs, n);
    AcceptsByKeywords(m, i, defs, n);
    AcceptsByKeywords(u, i, map[], 0);
    SameNodeAllowsSame(u, SELF_CONTAINED, m, Reading(defs, n), i);
  }

  lemma {:induction false} UnfoldReferenceKeepsMeaning(m: Object, name: string, defs: Object, n: nat, i: Value)
    requires RefTarget(m, defs) == Some(name) && Faithful(Obj(m), defs, n)
    ensures n > 0
    ensures Accepts(Unfold(Obj(m), defs, n), i, map[], 0) == Accepts(Obj(m), i, defs, n)
    decreases n, Obj(m), 2
  {
    FaithfulByReference(m, name, defs, n);
    var merged := Merge(defs[name], m);
    UnfoldKeepsMeaning(merged, defs, n - 1);
    assert Accepts(Unfold(merged, defs, n - 1), i, map[], 0) == Accepts(merged, i, defs, n - 1);
    MergeIsConjunction(defs[name], m, i, defs, n - 1);
    AcceptsByReference(m, name, i, defs, n);
  }

  /** Inlined, a faithful schema accepts exactly the instances it accepted with its definitions. */
  lemma {:induction false} UnfoldKeepsMeaning(v: Value, defs: Object, n: nat)
    requires Faithful(v, defs, n)
    ensures Same(Unfold(v, defs, n), SELF_CONTAINED, v, Reading(defs, n))
    decreases n, v, 3
  {
    forall i
      ensures Accepts(Unfold(v, defs, n), i, map[], 0) == Accepts(v, i, defs, n)
    {
      if v.Obj? {
        match RefTarget(v.fields, defs)
        case Some(name) => UnfoldReferenceKeepsMeaning(v.fields, name, defs, n, i);
        case None => UnfoldNodeKeepsMeaning(v.fields, defs, n, i);
      }
    }
  }

  // ---------------------------------------------------------------- the schema as a whole

  /** What the root of a schema asks, besides its own `$ref`: its keywords, read with its `$defs`. */
  predicate RootInlines(schema: Object, defs: Object) {
    && RefTarget(schema, defs).None?
    && WellPlaced(schema, defs) && FaithfulParts(schema, defs, MAX_REF_DEPTH)
    && forall k | k in schema :: Uncut(schema[k], defs, [], MAX_REF_DEPTH)
  }

  lemma {:induction false} AtEveryDepth(m: Object, i: Value, defs: Object, n: nat)
    requires FaithfulParts(m, defs, MAX_REF_DEPTH) && MAX_REF_DEPTH <= n
    ensures FaithfulParts(m, defs, n)
    ensures KeywordsAllow(m, i, defs, n) == KeywordsAllow(m, i, defs, MAX_REF_DEPTH)
  {
    if MAX_REF_DEPTH < n {
      AtEveryDepth(m, i, defs, n - 1);
      DeeperParts(m, defs, n - 1);
      DeeperKeywords(m, i, defs, n - 1);
    }
  }

  /** `inline_defs` on a whole schema: where nothing is cut and definitions merge faithfully, the
      self-contained result accepts exactly what the original accepts, at every depth from 64 on. */
  lemma InlineDefsKeepsMeaning(schema: Object, i: Value, n: nat)
    requires "$defs" in schema && schema["$defs"].Obj? && 64 <= n
    requires RootInlines(schema - {"$defs"}, schema["$defs"].fields)
    ensures Accepts(Obj(InlineDefs(schema)), i, map[], 0) == Accepts(Obj(schema), i, schema["$defs"].fields, n)
  {
    var defs, rest := schema["$defs"].fields, schema - {"$defs"};
    forall k | k in rest
      ensures Resolve(rest[k], defs) == Unfold(rest[k], defs, MAX_REF_DEPTH)
    {
      UncutIsExact(rest[k], defs, [], MAX_REF_DEPTH, MAX_REF_DEPTH);
    }
    assert InlineDefs(schema) == UnfoldFields(rest, defs, MAX_REF_DEPTH);
    UnfoldNodeKeepsMeaning(rest, defs, MAX_REF_DEPTH, i);
    AcceptsByKeywords(rest, i, defs, MAX_REF_DEPTH);
    AtEveryDepth(rest, i, defs, n);
    AcceptsByKeywords(schema, i, defs, n);
    DefsAreNoKeyword(schema, i, defs, n);
  }

  lemma {:induction false} NoDefsRefFree(v: Value)
    ensures RefFree(v, map[])
  {
    match v
    case Obj(m) =>
      forall k | k in m {
        NoDefsRefFree(m[k]);
      }
    case Arr(items) =>
      forall j | 0 <= j < |items| {
        NoDefsRefFree(items[j]);
      }
    case _ =>
  }

  lemma {:induction false} NoDefsFaithful(v: Value, n: nat)
    ensures Faithful(v, map[], n)
  {
    if v.Obj? {
      var m := v.fields;
      NoDefsPlaced(m);
      forall k | k in SCHEMA_KEYWORDS && k in m
        ensures Faithful(m[k], map[], n)
      {
        NoDefsFaithful(m[k], n);
      }
      forall p | p in Declared(m)
        ensures Faithful(Declared(m)[p], map[], n)
      {
        NoDefsFaithful(Declared(m)[p], n);
      }
      forall k, j | k in BRANCH_KEYWORDS && 0 <= j < |Branches(m, k)|
        ensures Faithful(Branches(m, k)[j], map[], n)
      {
        NoDefsFaithful(Branches(m, k)[j], n);
      }
      assert FaithfulParts(m, map[], n);
    }
  }

  lemma NoDefsPlaced(m: Object)
    ensures RefTarget(m, map[]).None? && WellPlaced(m, map[])
  {
    forall k | k in m
      ensures RefFree(m[k], map[])
    {
      NoDefsRefFree(m[k]);
    }
  }

  /** Without definitions the depth is irrelevant. */
  lemma {:induction false} NoDefsMeaning(v: Value, i: Value, n: nat)
    ensures Accepts(v, i, map[], n) == Accepts(v, i, map[], 0)
  {
    if n > 0 {
      NoDefsMeaning(v, i, n - 1);
      NoDefsFaithful(v, n - 1);
      Deeper(v, map[], n - 1);
      assert Same(v, Reading(map[], n - 1), v, Reading(map[], n));
    }
  }

  lemma DefsAreNoKeyword(m: Object, i: Value, defs: Object, n: nat)
    ensures KeywordsAllow(m, i, defs, n) == KeywordsAllow(m - {"$defs"}, i, defs, n)
  {
    SameNodeAllowsSame(m, Reading(defs, n), m - {"$defs"}, Reading(defs, n), i);
  }
}
