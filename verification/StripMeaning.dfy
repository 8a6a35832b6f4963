/** Stripping meta-fields changes no schema's meaning: every instance is accepted after exactly when
    it was before, at every reference depth. */
module StripMeaning {
  import opened Json
  import opened JsonSchema
  import opened StripMeta

  lemma StripRefTarget(m: Object, defs: Object)
    ensures RefTarget(StripNode(m), StripNames(defs)) == RefTarget(m, defs)
  {
    StripNodeKeys(m);
    if "$ref" in m {
      StripNodeField(m, "$ref");
    }
  }

  /** The keyword is walked as a schema, or as an array of them. */
  predicate Walked(k: string) {
    k !in META_FIELDS && k !in DATA_KEYWORDS && k !in NAMED_CONTAINERS && k != "description"
  }

  lemma StripWalked(m: Object, k: string)
    requires Walked(k)
    ensures Field(StripNode(m), k) == if k in m then Some(StripValue(m[k])) else None
  {
    StripNodeKeys(m);
    if k in m {
      StripNodeField(m, k);
    }
  }

  lemma StripDeclared(m: Object)
    ensures Declared(StripNode(m)) == StripNames(Declared(m))
  {
    StripNodeKeys(m);
    if "properties" in m {
      StripNodeField(m, "properties");
    }
  }

  lemma StripBranches(m: Object, k: string)
    requires Walked(k)
    ensures (k in m && m[k].Arr?) <==> (k in StripNode(m) && StripNode(m)[k].Arr?)
    ensures |Branches(StripNode(m), k)| == |Branches(m, k)|
    ensures forall j | 0 <= j < |Branches(m, k)| :: Branches(StripNode(m), k)[j] == StripValue(Branches(m, k)[j])
  {
    StripWalked(m, k);
  }

  lemma StripElement(items: seq<Value>, k: nat)
    requires k < |items|
    ensures StripValue(Arr(items)).Arr? && |StripValue(Arr(items)).items| == |items|
    ensures StripValue(Arr(items)).items[k].Str? <==> items[k].Str?
    ensures items[k].Str? ==> StripValue(Arr(items)).items[k] == items[k]
  {
    var v := items[k];
    assert StripValue(v).Str? <==> v.Str?;
  }

  lemma StripType(t: Value, i: Value)
    ensures TypeAllows(StripValue(t), i) == TypeAllows(t, i)
  {
    if t.Arr? {
      forall k | 0 <= k < |t.items| {
        StripElement(t.items, k);
      }
    }
  }

  lemma StripRequired(r: Value, i: Value)
    ensures RequiredAllows(StripValue(r), i) == RequiredAllows(r, i)
  {
    if r.Arr? {
      forall k | 0 <= k < |r.items| {
        StripElement(r.items, k);
      }
    }
  }

  lemma StripPlain(m: Object, i: Value)
    ensures PlainAllows(StripNode(m), i) == PlainAllows(m, i)
  {
    StripWalked(m, "type");
    StripWalked(m, "required");
    StripNodeKeys(m);
    if "enum" in m {
      StripNodeData(m, "enum");
    }
    if "const" in m {
      StripNodeData(m, "const");
    }
    if "type" in m {
      StripType(m["type"], i);
    }
    if "required" in m {
      StripRequired(m["required"], i);
    }
  }

  function Stripped(defs: Object, n: nat): Reading {
    Reading(StripNames(defs), n)
  }

  lemma {:induction false} StripSameKeyword(m: Object, k: string, defs: Object, n: nat)
    requires Walked(k)
    ensures SameKeyword(k, StripNode(m), Stripped(defs, n), m, Reading(defs, n))
    decreases n, Obj(m), 0
  {
    StripWalked(m, k);
    if k in m {
      StripKeepsMeaning(m[k], defs, n);
    }
  }

  lemma {:induction false} StripSameBranches(m: Object, k: string, defs: Object, n: nat)
    requires Walked(k)
    ensures SameBranches(k, StripNode(m), Stripped(defs, n), m, Reading(defs, n))
    decreases n, Obj(m), 0
  {
    StripBranches(m, k);
    forall j | 0 <= j < |Branches(m, k)|
      ensures Same(Branches(StripNode(m), k)[j], Stripped(defs, n), Branches(m, k)[j], Reading(defs, n))
    {
      StripKeepsMeaning(Branches(m, k)[j], defs, n);
    }
  }

  lemma {:induction false} StripSameNode(m: Object, defs: Object, n: nat)
    ensures SameNode(StripNode(m), Stripped(defs, n), m, Reading(defs, n))
    decreases n, Obj(m), 1
  {
    forall i {
      StripPlain(m, i);
    }
    StripDeclared(m);
    forall p | p in Declared(m)
      ensures Same(Declared(StripNode(m))[p], Stripped(defs, n), Declared(m)[p], Reading(defs, n))
    {
      StripKeepsMeaning(Declared(m)[p], defs, n);
    }
    StripSameKeyword(m, "additionalProperties", defs, n);
    StripSameKeyword(m, "items", defs, n);
    StripSameKeyword(m, "not", defs, n);
    StripSameBranches(m, "allOf", defs, n);
    StripSameBranches(m, "anyOf", defs, n);
    StripSameBranches(m, "oneOf", defs, n);
  }

  lemma {:induction false} StripKeywords(m: Object, i: Value, defs: Object, n: nat)
    ensures KeywordsAllow(StripNode(m), i, StripNames(defs), n) == KeywordsAllow(m, i, defs, n)
    decreases n, Obj(m), 2
  {
    StripSameNode(m, defs, n);
    SameNodeAllowsSame(StripNode(m), Stripped(defs, n), m, Reading(defs, n), i);
  }

  lemma {:induction false} StripNodeAccepts(m: Object, i: Value, defs: Object, n: nat)
    ensures Accepts(Obj(StripNode(m)), i, StripNames(defs), n) == Accepts(Obj(m), i, defs, n)
    decreases n, Obj(m), 3
  {
    StripRefTarget(m, defs);
    match RefTarget(m, defs)
    case Some(name) =>
      AcceptsByReference(m, name, i, defs, n);
      AcceptsByReference(StripNode(m), name, i, StripNames(defs), n);
      if n > 0 {
        StripKeepsMeaning(defs[name], defs, n - 1);
        StripKeywords(m, i, defs, n - 1);
      }
    case None =>
      AcceptsByKeywords(m, i, defs, n);
      AcceptsByKeywords(StripNode(m), i, StripNames(defs), n);
      StripKeywords(m, i, defs, n);
  }

  /** The stripped schema, read with the stripped definitions, accepts the same instances. */
  lemma {:induction false} StripKeepsMeaning(s: Value, defs: Object, n: nat)
    ensures Same(StripValue(s), Stripped(defs, n), s, Reading(defs, n))
    decreases n, s, 4
  {
    forall i
      ensures Accepts(StripValue(s), i, StripNames(defs), n) == Accepts(s, i, defs, n)
    {
      if s == Bool(true) {
        AbsentAllow(map[], i, StripNames(defs), n);
      } else if s.Obj? {
        StripNodeAccepts(s.fields, i, defs, n);
      }
    }
  }
}
