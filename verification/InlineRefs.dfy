/** Inlining `$defs` (`src/capability/sanitize.rs:153-274`).

    `ResolveWithin` is what the in-place walk computes, for any depth cap; the code's cap is 64. Its
    termination measure is the set of definitions not yet on the chain, then the value, so cycle
    detection alone makes it terminate. Its precondition is the invariant of the chain, checked at
    every recursive call: names of definitions, none of them twice. */
module InlineRefs {
  import opened Json
  import opened JsonSchema
  import opened StripMeta

  const MAX_REF_DEPTH: nat := 64

  predicate ChainOk(chain: seq<string>, defs: Object) {
    && (forall i | 0 <= i < |chain| :: chain[i] in defs)
    && (forall i, j | 0 <= i < j < |chain| :: chain[i] != chain[j])
  }

  function Names(chain: seq<string>): set<string> {
    set c | c in chain
  }

  // ---------------------------------------------------------------- one reference

  function Truncate(m: Object): Object {
    var cut := m - {"$ref"};
    if "type" in cut then cut else cut["type" := Str("object")]
  }

  function UnionRequired(own: seq<Value>, more: seq<Value>): seq<Value>
    decreases |more|
  {
    if more == [] then own
    else UnionRequired(if more[0] in own then own else own + [more[0]], more[1..])
  }

  /** The value a sibling leaves under its key, given what the definition has there. */
  function MergeField(k: string, own: Option<Value>, v: Value): Value {
    if k == "properties" && own.Some? && own.value.Obj? && v.Obj? then Obj(own.value.fields + v.fields)
    else if k == "required" && own.Some? && own.value.Arr? && v.Arr? then Arr(UnionRequired(own.value.items, v.items))
    else v
  }

  /** The definition with the reference's siblings merged into it. */
  function Merge(def: Value, m: Object): Value {
    if def.Obj? then Obj(MergeInto(def.fields, m)) else def
  }

  function MergeInto(d: Object, m: Object): Object {
    map k | k in d.Keys + (m.Keys - {"$ref"}) ::
      if k == "$ref" || k !in m then d[k] else MergeField(k, Field(d, k), m[k])
  }

  // ---------------------------------------------------------------- the walk

  function ResolveWithin(v: Value, defs: Object, chain: seq<string>, cap: nat): Value
    requires ChainOk(chain, defs)
    decreases defs.Keys - Names(chain), v, 1
  {
    match v
    case Obj(m) =>
      (match RefTarget(m, defs)
       case Some(name) =>
         if name in chain || |chain| >= cap then
           var cut := Truncate(m);
           Obj(map k | k in cut :: if k in m then ResolveWithin(m[k], defs, chain, cap) else cut[k])
         else
           assert name !in Names(chain) && name in Names(chain + [name]);
           assert Names(chain) <= Names(chain + [name]);
           ResolveWithin(Merge(defs[name], m), defs, chain + [name], cap)
       case None => Obj(ResolveFields(m, defs, chain, cap)))
    case Arr(items) => Arr(seq(|items|, i requires 0 <= i < |items| => ResolveWithin(items[i], defs, chain, cap)))
    case _ => v
  }

  function ResolveFields(m: Object, defs: Object, chain: seq<string>, cap: nat): Object
    requires ChainOk(chain, defs)
    decreases defs.Keys - Names(chain), Obj(m), 0
  {
    map k | k in m :: ResolveWithin(m[k], defs, chain, cap)
  }

  function Resolve(v: Value, defs: Object): Value {
    ResolveWithin(v, defs, [], MAX_REF_DEPTH)
  }

  function InlineDefs(schema: Object): Object {
    if "$defs" in schema && schema["$defs"].Obj? then
      map k | k in schema && k != "$defs" :: Resolve(schema[k], schema["$defs"].fields)
    else schema
  }

  // ---------------------------------------------------------------- the cap is never what cuts

  lemma ChainFits(chain: seq<string>, defs: Object)
    requires ChainOk(chain, defs)
    ensures |chain| <= |defs|
  {
    NoDuplicates(chain);
    SubsetSize(Names(chain), defs.Keys);
  }

  lemma {:induction false} NoDuplicates(chain: seq<string>)
    requires forall i, j | 0 <= i < j < |chain| :: chain[i] != chain[j]
    ensures |Names(chain)| == |chain|
  {
    if chain != [] {
      var front, last := chain[..|chain| - 1], chain[|chain| - 1];
      NoDuplicates(front);
      assert last !in front;
      assert Names(chain) == Names(front) + {last};
    }
  }

  lemma {:induction false} SubsetSize(a: set<string>, b: set<string>)
    requires a <= b
    ensures |a| <= |b|
  {
    if a != {} {
      var x :| x in a;
      SubsetSize(a - {x}, b - {x});
    }
  }

  /** Two caps the definitions cannot outnumber resolve alike: with at most 64 definitions, the cap
      the code has is as good as none. */
  lemma {:induction false} CapIrrelevant(v: Value, defs: Object, chain: seq<string>, cap: nat, cap': nat)
    requires ChainOk(chain, defs)
    requires |defs| <= cap && |defs| <= cap'
    ensures ResolveWithin(v, defs, chain, cap) == ResolveWithin(v, defs, chain, cap')
    decreases defs.Keys - Names(chain), v
  {
    match v
    case Obj(m) =>
      forall k | k in m {
        CapIrrelevant(m[k], defs, chain, cap, cap');
      }
      match RefTarget(m, defs) {
        case Some(name) =>
          if name !in chain {
            var longer := chain + [name];
            ChainFits(longer, defs);
            assert name !in Names(chain) && name in Names(longer);
            assert Names(chain) <= Names(longer);
            CapIrrelevant(Merge(defs[name], m), defs, longer, cap, cap');
          }
        case None =>
      }
    case Arr(items) =>
      forall i | 0 <= i < |items| {
        CapIrrelevant(items[i], defs, chain, cap, cap');
      }
    case _ =>
  }

  lemma DepthCapNeverDecides(v: Value, defs: Object, cap: nat)
    requires |defs| <= 64 && |defs| <= cap
    ensures Resolve(v, defs) == ResolveWithin(v, defs, [], cap)
  {
    CapIrrelevant(v, defs, [], MAX_REF_DEPTH, cap);
  }

  // ---------------------------------------------------------------- what a reference leaves

  /** A reference in `$defs` is told by its text alone. */
  lemma RefTargetExactly(m: Object, defs: Object, name: string)
    ensures RefTarget(m, defs) == Some(name) <==>
      name in defs && "$ref" in m && m["$ref"] == Str("#/$defs/" + name)
  {
    if "$ref" in m && m["$ref"] == Str("#/$defs/" + name) {
      assert ("#/$defs/" + name)[|REF_PREFIX|..] == name;
    }
  }

  /** A reference that is cut leaves an object with every sibling it had, each resolved in its place, and a
      `type` of its own if it had none; the `$ref` alone is gone. */
  lemma CutLeavesSiblings(m: Object, defs: Object, chain: seq<string>, cap: nat)
    requires ChainOk(chain, defs) && RefTarget(m, defs).Some?
    requires RefTarget(m, defs).value in chain || |chain| >= cap
    ensures var r := ResolveWithin(Obj(m), defs, chain, cap);
      && r.Obj? && r.fields.Keys == m.Keys - {"$ref"} + {"type"}
      && (forall k | k in m && k != "$ref" :: r.fields[k] == ResolveWithin(m[k], defs, chain, cap))
      && ("type" !in m ==> r.fields["type"] == Str("object"))
  {
  }

  /** An inlined reference gives the definition the siblings it had: under `properties` name by name, the
      sibling's schema in place of the definition's; under `required` all the names of both; under any other
      key the sibling's value in place of the definition's. */
  lemma MergeGivesSiblings(d: Object, m: Object)
    ensures var r := Merge(Obj(d), m);
      && r.Obj? && r.fields.Keys == d.Keys + (m.Keys - {"$ref"})
      && (forall k | k in d && (k == "$ref" || k !in m) :: r.fields[k] == d[k])
      && forall k | k in m && k != "$ref" ::
           if k == "properties" && k in d && d[k].Obj? && m[k].Obj? then
             r.fields[k].Obj? && r.fields[k].fields.Keys == d[k].fields.Keys + m[k].fields.Keys
             && forall p | p in r.fields[k].fields ::
                  r.fields[k].fields[p] == if p in m[k].fields then m[k].fields[p] else d[k].fields[p]
           else if k == "required" && k in d && d[k].Arr? && m[k].Arr? then
             r.fields[k].Arr? && d[k].items <= r.fields[k].items
             && forall x :: x in r.fields[k].items <==> x in d[k].items || x in m[k].items
           else r.fields[k] == m[k]
  {
    if "required" in d && d["required"].Arr? && "required" in m && m["required"].Arr? {
      UnionRequiredAdds(d["required"].items, m["required"].items);
    }
  }

  /** The prose a reference carries is what the node is described by in the end, whether the reference is
      inlined, any number of times over, or cut. */
  lemma {:induction false} DescriptionSurvives(m: Object, defs: Object, chain: seq<string>, cap: nat, d: string)
    requires ChainOk(chain, defs) && forall name | name in defs :: defs[name].Obj?
    requires "description" in m && m["description"] == Str(d)
    ensures Get(ResolveWithin(Obj(m), defs, chain, cap), "description") == Some(Str(d))
    decreases defs.Keys - Names(chain)
  {
    assert ResolveWithin(m["description"], defs, chain, cap) == Str(d);
    match RefTarget(m, defs)
    case Some(name) =>
      if name in chain || |chain| >= cap {
        CutLeavesSiblings(m, defs, chain, cap);
      } else {
        assert name !in Names(chain) && name in Names(chain + [name]);
        assert Names(chain) <= Names(chain + [name]);
        DescriptionSurvives(Merge(defs[name], m).fields, defs, chain + [name], cap, d);
      }
    case None =>
      assert Get(Obj(ResolveFields(m, defs, chain, cap)), "description") == Some(Str(d));
  }

  // ---------------------------------------------------------------- no reference is left dangling

  /** No object anywhere in the value refers to a definition. */
  predicate RefFree(v: Value, defs: Object) {
    match v
    case Obj(m) => RefTarget(m, defs).None? && forall k | k in m :: RefFree(m[k], defs)
    case Arr(items) => forall i | 0 <= i < |items| :: RefFree(items[i], defs)
    case _ => true
  }

  /** Some definition is a bare string that itself reads as a reference. */
  ghost predicate HasStringAlias(defs: Object) {
    exists name | name in defs :: defs[name].Str? && NamesDef(defs[name].s, defs)
  }

  lemma {:induction false} ResolvedString(v: Value, defs: Object, chain: seq<string>, cap: nat, s: string)
    requires ChainOk(chain, defs) && !HasStringAlias(defs)
    requires ResolveWithin(v, defs, chain, cap) == Str(s) && NamesDef(s, defs)
    ensures v == Str(s)
    decreases defs.Keys - Names(chain)
  {
    if v.Obj? && RefTarget(v.fields, defs).Some? {
      var name := RefTarget(v.fields, defs).value;
      assert name !in Names(chain) && name in Names(chain + [name]);
      assert Names(chain) <= Names(chain + [name]);
      ResolvedString(Merge(defs[name], v.fields), defs, chain + [name], cap, s);
    }
  }

  lemma {:induction false} ResolveLeavesNoRef(v: Value, defs: Object, chain: seq<string>, cap: nat)
    requires ChainOk(chain, defs) && !HasStringAlias(defs)
    ensures RefFree(ResolveWithin(v, defs, chain, cap), defs)
    decreases defs.Keys - Names(chain), v
  {
    match v
    case Obj(m) =>
      forall k | k in m {
        ResolveLeavesNoRef(m[k], defs, chain, cap);
      }
      match RefTarget(m, defs) {
        case Some(name) =>
          if !(name in chain || |chain| >= cap) {
            assert name !in Names(chain) && name in Names(chain + [name]);
            assert Names(chain) <= Names(chain + [name]);
            ResolveLeavesNoRef(Merge(defs[name], m), defs, chain + [name], cap);
          }
        case None =>
          var r := ResolveFields(m, defs, chain, cap);
          if RefTarget(r, defs).Some? {
            ResolvedString(m["$ref"], defs, chain, cap, r["$ref"].s);
          }
      }
    case Arr(items) =>
      forall i | 0 <= i < |items| {
        ResolveLeavesNoRef(items[i], defs, chain, cap);
      }
    case _ =>
  }

  function RefTo(name: string): Object {
    map["$ref" := Str(REF_PREFIX + name)]
  }

  /** A `$ref` holding a reference instead of a string: resolving it can produce the string. */
  function NestedRef(name: string): Value {
    Obj(map["$ref" := Obj(RefTo(name))])
  }

  lemma StringAliasDangles(defs: Object, name: string)
    requires name in defs && defs[name].Str? && NamesDef(defs[name].s, defs)
    ensures !RefFree(Resolve(NestedRef(name), defs), defs)
  {
    var inner := RefTo(name);
    assert (REF_PREFIX + name)[|REF_PREFIX|..] == name;
    assert RefTarget(inner, defs) == Some(name);
    assert Merge(defs[name], inner) == defs[name];
    assert ResolveWithin(defs[name], defs, [name], MAX_REF_DEPTH) == defs[name];
    assert [] + [name] == [name];
    assert ResolveWithin(Obj(inner), defs, [], MAX_REF_DEPTH) == defs[name];
    var outer := NestedRef(name).fields;
    assert RefTarget(outer, defs).None?;
    var r := ResolveFields(outer, defs, [], MAX_REF_DEPTH);
    assert r["$ref"] == defs[name];
    assert RefTarget(r, defs).Some?;
  }

  /** Whatever cycles the definitions contain, resolving leaves no reference to them in any value,
      exactly when no definition is a bare string that reads as a reference. */
  lemma NoDanglingReference(defs: Object)
    ensures (forall v :: RefFree(Resolve(v, defs), defs)) <==> !HasStringAlias(defs)
  {
    if HasStringAlias(defs) {
      var name :| name in defs && defs[name].Str? && NamesDef(defs[name].s, defs);
      StringAliasDangles(defs, name);
    } else {
      forall v {
        ResolveLeavesNoRef(v, defs, [], MAX_REF_DEPTH);
      }
    }
  }

  /** The same for a whole schema: below the root nothing refers to a dropped definition, and the
      root does exactly when it did before, since its own `$ref` is never looked at. */
  lemma InlineDefsIsSelfContained(schema: Object)
    requires "$defs" in schema && schema["$defs"].Obj?
    requires !HasStringAlias(schema["$defs"].fields)
    ensures var defs := schema["$defs"].fields;
      && "$defs" !in InlineDefs(schema)
      && (forall k | k in InlineDefs(schema) :: RefFree(InlineDefs(schema)[k], defs))
      && (RefTarget(InlineDefs(schema), defs).Some? <==> RefTarget(schema, defs).Some?)
  {
    var defs, r := schema["$defs"].fields, InlineDefs(schema);
    forall k | k in r {
      ResolveLeavesNoRef(schema[k], defs, [], MAX_REF_DEPTH);
    }
    if RefTarget(r, defs).Some? {
      ResolvedString(schema["$ref"], defs, [], MAX_REF_DEPTH, r["$ref"].s);
    }
  }

  // ---------------------------------------------------------------- what is cut, exactly

  /** Inlining without a chain, `n` references deep: nothing is ever truncated. */
  function Unfold(v: Value, defs: Object, n: nat): Value
    decreases n, v, 1
  {
    match v
    case Obj(m) =>
      (match RefTarget(m, defs)
       case Some(name) => if n == 0 then v else Unfold(Merge(defs[name], m), defs, n - 1)
       case None => Obj(UnfoldFields(m, defs, n)))
    case Arr(items) => Arr(seq(|items|, i requires 0 <= i < |items| => Unfold(items[i], defs, n)))
    case _ => v
  }

  function UnfoldFields(m: Object, defs: Object, n: nat): Object
    decreases n, Obj(m), 0
  {
    map k | k in m :: Unfold(m[k], defs, n)
  }

  /** No reference the walk meets, with siblings merged into its definition, is on the chain by then or
      too many for the cap: nothing is truncated. */
  predicate Uncut(v: Value, defs: Object, chain: seq<string>, cap: nat)
    requires ChainOk(chain, defs)
    decreases defs.Keys - Names(chain), v
  {
    match v
    case Obj(m) =>
      (match RefTarget(m, defs)
       case Some(name) =>
         name !in chain && |chain| < cap &&
         (assert name !in Names(chain) && name in Names(chain + [name]);
          assert Names(chain) <= Names(chain + [name]);
          Uncut(Merge(defs[name], m), defs, chain + [name], cap))
       case None => forall k | k in m :: Uncut(m[k], defs, chain, cap))
    case Arr(items) => forall i | 0 <= i < |items| :: Uncut(items[i], defs, chain, cap)
    case _ => true
  }

  /** From `v` one can follow references to these definitions, one inside the other. */
  predicate Leads(v: Value, defs: Object, names: seq<string>)
    decreases |names|, v
  {
    names == [] ||
    match v
    case Obj(m) =>
      (match RefTarget(m, defs)
       case Some(name) => names[0] == name && Leads(Merge(defs[name], m), defs, names[1..])
       case None => exists k | k in m :: Leads(m[k], defs, names))
    case Arr(items) => exists i | 0 <= i < |items| :: Leads(items[i], defs, names)
    case _ => false
  }

  /** A path that repeats a name, on the chain it starts from or its own, or is too long for the cap. */
  predicate Overruns(chain: seq<string>, names: seq<string>, cap: nat) {
    |chain| + |names| > cap || exists i | 0 <= i < |names| :: names[i] in chain + names[..i]
  }

  lemma {:induction false} UncutPath(v: Value, defs: Object, chain: seq<string>, cap: nat, names: seq<string>)
    requires ChainOk(chain, defs) && |chain| <= cap
    requires Uncut(v, defs, chain, cap) && Leads(v, defs, names)
    ensures !Overruns(chain, names, cap)
    decreases |names|, v
  {
    if names != [] {
      match v
      case Obj(m) =>
        match RefTarget(m, defs) {
          case Some(name) =>
            UncutPath(Merge(defs[name], m), defs, chain + [name], cap, names[1..]);
            OverrunsNext(chain, names, cap);
          case None =>
            var k :| k in m && Leads(m[k], defs, names);
            UncutPath(m[k], defs, chain, cap, names);
        }
      case Arr(items) =>
        var i :| 0 <= i < |items| && Leads(items[i], defs, names);
        UncutPath(items[i], defs, chain, cap, names);
      case _ =>
    }
  }

  lemma OverrunsNext(chain: seq<string>, names: seq<string>, cap: nat)
    requires names != []
    ensures Overruns(chain, names, cap) <==> names[0] in chain || Overruns(chain + [names[0]], names[1..], cap)
  {
    assert names[..0] == [] && chain + [] == chain;
    forall i | 0 <= i < |names| - 1
      ensures chain + [names[0]] + names[1..][..i] == chain + names[..i + 1]
    {
      assert names[..i + 1] == [names[0]] + names[1..][..i];
    }
    assert forall i | 0 <= i < |names| - 1 :: names[1..][i] == names[i + 1];
  }

  lemma {:induction false} CutPath(v: Value, defs: Object, chain: seq<string>, cap: nat) returns (names: seq<string>)
    requires ChainOk(chain, defs) && |chain| <= cap && !Uncut(v, defs, chain, cap)
    ensures Leads(v, defs, names) && Overruns(chain, names, cap)
    decreases defs.Keys - Names(chain), v
  {
    match v
    case Obj(m) =>
      match RefTarget(m, defs) {
        case Some(name) =>
          if name in chain || |chain| >= cap {
            names := [name];
            assert Leads(Merge(defs[name], m), defs, names[1..]);
          } else {
            assert name !in Names(chain) && name in Names(chain + [name]);
            assert Names(chain) <= Names(chain + [name]);
            var rest := CutPath(Merge(defs[name], m), defs, chain + [name], cap);
            names := [name] + rest;
            assert names[1..] == rest;
          }
          OverrunsNext(chain, names, cap);
        case None =>
          var k :| k in m && !Uncut(m[k], defs, chain, cap);
          names := CutPath(m[k], defs, chain, cap);
      }
    case Arr(items) =>
      var i :| 0 <= i < |items| && !Uncut(items[i], defs, chain, cap);
      names := CutPath(items[i], defs, chain, cap);
    case _ =>
  }

  /** The code truncates something exactly when some path of references, siblings merged in, meets a
      name twice or more than 64 of them. */
  lemma CutsExactly(v: Value, defs: Object)
    ensures !Uncut(v, defs, [], 64) <==>
      exists names :: Leads(v, defs, names) && Overruns([], names, 64)
  {
    if !Uncut(v, defs, [], MAX_REF_DEPTH) {
      var names := CutPath(v, defs, [], MAX_REF_DEPTH);
    } else {
      forall names | Leads(v, defs, names)
        ensures !Overruns([], names, MAX_REF_DEPTH)
      {
        UncutPath(v, defs, [], MAX_REF_DEPTH, names);
      }
    }
  }

  /** No path meets more than `n` nested references. */
  predicate DepthAtMost(v: Value, defs: Object, n: nat)
    decreases n, v
  {
    match v
    case Obj(m) =>
      (match RefTarget(m, defs)
       case Some(name) => n > 0 && DepthAtMost(Merge(defs[name], m), defs, n - 1)
       case None => forall k | k in m :: DepthAtMost(m[k], defs, n))
    case Arr(items) => forall i | 0 <= i < |items| :: DepthAtMost(items[i], defs, n)
    case _ => true
  }

  /** Every reference is ranked below `bound`, and every reference in a definition, with the
      siblings merged into it, below that definition. */
  predicate RankedBelow(v: Value, defs: Object, rank: string -> nat, bound: nat)
    decreases bound, v
  {
    match v
    case Obj(m) =>
      (match RefTarget(m, defs)
       case Some(name) => rank(name) < bound && RankedBelow(Merge(defs[name], m), defs, rank, rank(name))
       case None => forall k | k in m :: RankedBelow(m[k], defs, rank, bound))
    case Arr(items) => forall i | 0 <= i < |items| :: RankedBelow(items[i], defs, rank, bound)
    case _ => true
  }

  /** Where nothing is cut, resolving is the chain-free unfolding, and that is complete. */
  lemma {:induction false} UncutIsExact(v: Value, defs: Object, chain: seq<string>, cap: nat, n: nat)
    requires ChainOk(chain, defs) && Uncut(v, defs, chain, cap)
    requires cap <= |chain| + n || |defs| <= |chain| + n
    ensures ResolveWithin(v, defs, chain, cap) == Unfold(v, defs, n) && DepthAtMost(v, defs, n)
    decreases n, v
  {
    match v
    case Obj(m) =>
      match RefTarget(m, defs) {
        case Some(name) =>
          ChainFits(chain + [name], defs);
          UncutIsExact(Merge(defs[name], m), defs, chain + [name], cap, n - 1);
        case None =>
          forall k | k in m {
            UncutIsExact(m[k], defs, chain, cap, n);
          }
      }
    case Arr(items) =>
      forall i | 0 <= i < |items| {
        UncutIsExact(items[i], defs, chain, cap, n);
      }
    case _ =>
  }

  /** A rank, with room under the cap, is one way to know that nothing is cut. */
  lemma {:induction false} RankedIsUncut(
      v: Value, defs: Object, rank: string -> nat, bound: nat, chain: seq<string>, n: nat, cap: nat)
    requires ChainOk(chain, defs)
    requires RankedBelow(v, defs, rank, bound) && DepthAtMost(v, defs, n)
    requires forall c | c in chain :: bound <= rank(c)
    requires |chain| + n <= cap
    ensures Uncut(v, defs, chain, cap)
    decreases n, v
  {
    match v
    case Obj(m) =>
      match RefTarget(m, defs) {
        case Some(name) =>
          assert name !in chain;
          RankedIsUncut(Merge(defs[name], m), defs, rank, rank(name), chain + [name], n - 1, cap);
        case None =>
          forall k | k in m {
            RankedIsUncut(m[k], defs, rank, bound, chain, n, cap);
          }
      }
    case Arr(items) =>
      forall i | 0 <= i < |items| {
        RankedIsUncut(items[i], defs, rank, bound, chain, n, cap);
      }
    case _ =>
  }

  /** Where a rank shows the definitions acyclic and no path nests more than 64 references,
      `resolve_refs` truncates nothing: it is the chain-free unfolding. */
  lemma ExactOnAcyclic(v: Value, defs: Object, rank: string -> nat, bound: nat)
    requires RankedBelow(v, defs, rank, bound) && DepthAtMost(v, defs, 64)
    ensures Uncut(v, defs, [], 64)
    ensures Resolve(v, defs) == Unfold(v, defs, 64)
  {
    RankedIsUncut(v, defs, rank, bound, [], MAX_REF_DEPTH, MAX_REF_DEPTH);
    UncutIsExact(v, defs, [], MAX_REF_DEPTH, MAX_REF_DEPTH);
  }

  /** The unfolding is complete once it is deep enough: going deeper changes nothing. */
  lemma {:induction false} UnfoldSettles(v: Value, defs: Object, n: nat, n': nat)
    requires DepthAtMost(v, defs, n) && n <= n'
    ensures Unfold(v, defs, n) == Unfold(v, defs, n') && DepthAtMost(v, defs, n')
    decreases n, v
  {
    match v
    case Obj(m) =>
      match RefTarget(m, defs) {
        case Some(name) => UnfoldSettles(Merge(defs[name], m), defs, n - 1, n' - 1);
        case None =>
          forall k | k in m {
            UnfoldSettles(m[k], defs, n, n');
          }
      }
    case Arr(items) =>
      forall i | 0 <= i < |items| {
        UnfoldSettles(items[i], defs, n, n');
      }
    case _ =>
  }

  /** Ranks alone bound the depth. */
  lemma {:induction false} RankBoundsDepth(v: Value, defs: Object, rank: string -> nat, bound: nat)
    requires RankedBelow(v, defs, rank, bound)
    ensures DepthAtMost(v, defs, bound)
    decreases bound, v
  {
    match v
    case Obj(m) =>
      match RefTarget(m, defs) {
        case Some(name) =>
          RankBoundsDepth(Merge(defs[name], m), defs, rank, rank(name));
          UnfoldSettles(Merge(defs[name], m), defs, rank(name), bound - 1);
        case None =>
          forall k | k in m {
            RankBoundsDepth(m[k], defs, rank, bound);
          }
      }
    case Arr(items) =>
      forall i | 0 <= i < |items| {
        RankBoundsDepth(items[i], defs, rank, bound);
      }
    case _ =>
  }

  lemma RefToTarget(name: string, defs: Object, k: string)
    requires name in defs && k != "$ref"
    ensures RefTarget(RefTo(name), defs) == Some(name)
    ensures RefTarget(RefTo(name)[k := Obj(RefTo(name))], defs) == Some(name)
  {
    assert (REF_PREFIX + name)[|REF_PREFIX|..] == name;
  }

  /** The code truncates more than cycles: a sibling of a reference is resolved with that name on
      the chain, so one that refers to the same definition is cut however simple the definition. */
  lemma SiblingReferenceIsCut(defs: Object, name: string, d: Object, k: string)
    requires name in defs && defs[name] == Obj(d) && k !in d && "$ref" !in d && k != "$ref"
    ensures Resolve(Obj(RefTo(name)), defs) == Obj(ResolveFields(d, defs, [name], MAX_REF_DEPTH))
    ensures Get(Resolve(Obj(RefTo(name)[k := Obj(RefTo(name))]), defs), k)
         == Some(Obj(map["type" := Str("object")]))
  {
    var ref := RefTo(name);
    var both := ref[k := Obj(ref)];
    RefToTarget(name, defs, k);
    assert MergeInto(d, ref) == d;
    assert MergeInto(d, both) == d[k := Obj(ref)];
    ResolveInlines(ref, defs, name, d);
    ResolveInlines(both, defs, name, d[k := Obj(ref)]);
    assert Truncate(ref) == map["type" := Str("object")];
    assert ResolveWithin(Obj(ref), defs, [name], MAX_REF_DEPTH) == Obj(map["type" := Str("object")]);
  }

  lemma ResolveInlines(m: Object, defs: Object, name: string, merged: Object)
    requires RefTarget(m, defs) == Some(name)
    requires Merge(defs[name], m) == Obj(merged) && RefTarget(merged, defs).None?
    ensures Resolve(Obj(m), defs) == Obj(ResolveFields(merged, defs, [name], MAX_REF_DEPTH))
  {
    assert [] + [name] == [name];
    assert ResolveWithin(Obj(m), defs, [], MAX_REF_DEPTH) == ResolveWithin(Obj(merged), defs, [name], MAX_REF_DEPTH);
    assert ResolveWithin(Obj(merged), defs, [name], MAX_REF_DEPTH)
        == Obj(ResolveFields(merged, defs, [name], MAX_REF_DEPTH));
  }

  /** Two references, each with the other's definition for a sibling. */
  function Crossed(a: string, b: string): Value {
    Obj(map["x" := Obj(RefTo(a)["k" := Obj(RefTo(b))]), "y" := Obj(RefTo(b)["k" := Obj(RefTo(a))])])
  }

  /** But not the only way: here no rank exists, since siblings count as part of a definition, and yet
      nothing is cut. */
  lemma UncutWithoutRank(a: string, b: string, rank: string -> nat, bound: nat)
    requires a != b
    ensures var defs := map[a := Obj(map[]), b := Obj(map[])];
      Uncut(Crossed(a, b), defs, [], MAX_REF_DEPTH) && !RankedBelow(Crossed(a, b), defs, rank, bound)
  {
    var defs := map[a := Obj(map[]), b := Obj(map[])];
    var v := Crossed(a, b);
    assert RefTarget(v.fields, defs).None?;
    CrossedHalf(a, b, defs, rank, bound);
    CrossedHalf(b, a, defs, rank, bound);
    assert v.fields["x"] == Obj(RefTo(a)["k" := Obj(RefTo(b))]) && v.fields["y"] == Obj(RefTo(b)["k" := Obj(RefTo(a))]);
  }

  lemma CrossedHalf(a: string, b: string, defs: Object, rank: string -> nat, bound: nat)
    requires a != b && a in defs && b in defs && defs[a] == Obj(map[]) && defs[b] == Obj(map[])
    ensures var half := Obj(RefTo(a)["k" := Obj(RefTo(b))]);
      Uncut(half, defs, [], MAX_REF_DEPTH) && (RankedBelow(half, defs, rank, bound) ==> rank(b) < rank(a))
  {
    var merged: Object := map["k" := Obj(RefTo(b))];
    CrossedMerges(a, b, defs);
    assert [] + [a] == [a] && [a] + [b] == [a, b];
    assert Uncut(Obj(map[]), defs, [a, b], MAX_REF_DEPTH);
    assert Uncut(Obj(merged), defs, [a], MAX_REF_DEPTH);
    assert RankedBelow(Obj(merged), defs, rank, rank(a)) ==> RankedBelow(merged["k"], defs, rank, rank(a));
  }

  lemma CrossedMerges(a: string, b: string, defs: Object)
    requires a != b && a in defs && b in defs && defs[a] == Obj(map[]) && defs[b] == Obj(map[])
    ensures var inner, outer, merged: Object := RefTo(b), RefTo(a)["k" := Obj(RefTo(b))], map["k" := Obj(RefTo(b))];
      && RefTarget(outer, defs) == Some(a) && Merge(defs[a], outer) == Obj(merged)
      && RefTarget(inner, defs) == Some(b) && Merge(defs[b], inner) == Obj(map[])
      && RefTarget(merged, defs).None?
  {
    var inner, outer, merged: Object := RefTo(b), RefTo(a)["k" := Obj(RefTo(b))], map["k" := Obj(RefTo(b))];
    RefToTarget(b, defs, "k");
    RefToTarget(a, defs, "k");
    assert outer["$ref"] == RefTo(a)["$ref"];
    assert MergeInto(map[], outer) == merged && MergeInto(map[], inner) == map[];
  }

  // ---------------------------------------------------------------- the in-place walk

  method MergeRequired(own: seq<Value>, more: seq<Value>) returns (r: seq<Value>)
    ensures r == UnionRequired(own, more)
  {
    r := own;
    for i := 0 to |more|
      invariant UnionRequired(r, more[i..]) == UnionRequired(own, more)
    {
      assert more[i..][0] == more[i] && more[i..][1..] == more[i + 1..];
      if more[i] !in r {
        r := r + [more[i]];
      }
    }
    assert more[|more|..] == [];
  }

  function FirstIndex(s: seq<Value>, x: Value): nat
    requires x in s
  {
    if s[0] == x then 0 else 1 + FirstIndex(s[1..], x)
  }

  /** The definition's names come first and as they were; then each new name once, in the siblings'
      order. */
  lemma {:induction false} UnionRequiredAdds(own: seq<Value>, more: seq<Value>)
    ensures var r := UnionRequired(own, more);
      && own <= r && (forall x :: x in r <==> x in own || x in more)
      && (forall i | |own| <= i < |r| :: r[i] in more && r[i] !in own)
      && (forall i, j | |own| <= i < j < |r| :: FirstIndex(more, r[i]) < FirstIndex(more, r[j]))
    decreases |more|
  {
    if more != [] {
      var own' := if more[0] in own then own else own + [more[0]];
      UnionRequiredAdds(own', more[1..]);
      assert forall x :: x in more <==> x == more[0] || x in more[1..];
      assert forall x :: x in own' <==> x in own || x == more[0];
    }
  }

  method MergeSibling(k: string, own: Option<Value>, v: Value) returns (r: Value)
    ensures r == MergeField(k, own, v)
  {
    if k == "properties" && own.Some? && own.value.Obj? && v.Obj? {
      r := Obj(own.value.fields + v.fields);
    } else if k == "required" && own.Some? && own.value.Arr? && v.Arr? {
      var union := MergeRequired(own.value.items, v.items);
      r := Arr(union);
    } else {
      r := v;
    }
  }

  lemma MergeOneMore(d: Object, m: Object, rest: set<string>, k: string)
    requires k in m && k !in rest
    ensures var before, after := MergeInto(d, m - (rest + {k})), MergeInto(d, m - rest);
      && Field(before, k) == Field(d, k)
      && after == if k == "$ref" then before else before[k := MergeField(k, Field(d, k), m[k])]
  {
  }

  method MergeSiblings(d: Object, m: Object) returns (inlined: Object)
    ensures inlined == MergeInto(d, m)
  {
    inlined := d;
    var todo := m.Keys;
    assert m - m.Keys == map[];
    while todo != {}
      invariant inlined == MergeInto(d, m - todo) && todo <= m.Keys
      decreases todo
    {
      var k :| k in todo;
      var rest := todo - {k};
      assert todo == rest + {k};
      MergeOneMore(d, m, rest, k);
      if k != "$ref" {
        var v := MergeSibling(k, Field(inlined, k), m[k]);
        inlined := inlined[k := v];
      }
      todo := rest;
    }
    assert m - {} == m;
  }

  /** The chain is passed on one name longer where the source pushes and pops it. `cut` is set where
      the source truncates. */
  method ResolveRefsInner(value: Value, defs: Object, chain: seq<string>) returns (r: Value, ghost cut: bool)
    requires ChainOk(chain, defs)
    ensures r == ResolveWithin(value, defs, chain, 64)
    ensures cut <==> !Uncut(value, defs, chain, 64)
    decreases defs.Keys - Names(chain), value, 1
  {
    match value
    case Obj(m) =>
      var target := RefTarget(m, defs);
      if target.Some? {
        var name := target.value;
        if name in chain || |chain| >= MAX_REF_DEPTH {
          var kept, _ := ResolveValues(m, Truncate(m), defs, chain);
          return Obj(kept), true;
        }
        var inlined := defs[name];
        if inlined.Obj? {
          var merged := MergeSiblings(inlined.fields, m);
          inlined := Obj(merged);
        }
        assert name !in Names(chain) && name in Names(chain + [name]);
        assert Names(chain) <= Names(chain + [name]);
        r, cut := ResolveRefsInner(inlined, defs, chain + [name]);
        return;
      }
      var fields;
      fields, cut := ResolveValues(m, m, defs, chain);
      assert fields == ResolveFields(m, defs, chain, MAX_REF_DEPTH);
      r := Obj(fields);
    case Arr(items) =>
      var arr := items;
      cut := false;
      for i := 0 to |items|
        invariant |arr| == |items|
        invariant forall j | 0 <= j < |items| ::
          arr[j] == if j < i then ResolveWithin(items[j], defs, chain, MAX_REF_DEPTH) else items[j]
        invariant cut <==> exists j | 0 <= j < i :: !Uncut(items[j], defs, chain, MAX_REF_DEPTH)
      {
        var v, c := ResolveRefsInner(arr[i], defs, chain);
        arr, cut := arr[i := v], cut || c;
      }
      r := Arr(arr);
    case _ => r, cut := value, false;
  }

  /** Every value `node` has from `m` resolved in place; a `type` supplied by truncation is a string
      already. */
  method ResolveValues(m: Object, node: Object, defs: Object, chain: seq<string>)
      returns (r: Object, ghost cut: bool)
    requires ChainOk(chain, defs)
    requires forall k | k in node && k in m :: node[k] == m[k]
    ensures cut <==> exists k | k in node && k in m :: !Uncut(m[k], defs, chain, 64)
    ensures r == map k | k in node :: if k in m then ResolveWithin(m[k], defs, chain, 64) else node[k]
    decreases defs.Keys - Names(chain), Obj(m), 0
  {
    r, cut := node, false;
    var todo := node.Keys * m.Keys;
    while todo != {}
      invariant todo <= node.Keys * m.Keys && r.Keys == node.Keys
      invariant forall k | k in node ::
        r[k] == if k in m && k !in todo then ResolveWithin(m[k], defs, chain, MAX_REF_DEPTH) else node[k]
      invariant cut <==> exists k | k in node && k in m && k !in todo :: !Uncut(m[k], defs, chain, MAX_REF_DEPTH)
      decreases todo
    {
      var k :| k in todo;
      todo := todo - {k};
      var v, c := ResolveRefsInner(r[k], defs, chain);
      r, cut := r[k := v], cut || c;
    }
  }

  method InlineDefsInPlace(schema: Object) returns (r: Object)
    ensures r == InlineDefs(schema)
  {
    if "$defs" !in schema || !schema["$defs"].Obj? {
      return schema;
    }
    var defs := schema["$defs"].fields;
    var rest := schema - {"$defs"};
    var inlined, _ := ResolveValues(rest, rest, defs, []);
    return inlined;
  }
}
