/** Stripping schemars' meta-fields (`src/capability/sanitize.rs:36-116`).

    The walker distinguishes three kinds of position: subschemas, containers whose keys are
    user-chosen names, and plain data. `StripValue` is what the in-place methods at the end compute;
    the lemmas say which positions it changes, and how. */
module StripMeta {
  import opened Json

  const NAMED_CONTAINERS: set<string> :=
    {"properties", "patternProperties", "$defs", "definitions", "dependentSchemas"}

  const DATA_KEYWORDS: set<string> := {"enum", "const", "default", "examples"}

  const META_FIELDS: set<string> := {"$schema", "title"}

  function Field(m: Object, key: string): Option<Value> {
    if key in m then Some(m[key]) else None
  }

  /** Whether a title is promoted: it says something, and no description does. */
  predicate Promotes(m: Object) {
    Nonblank(Field(m, "title")).Some? && Nonblank(Field(m, "description")).None?
  }

  function FoldTitle(m: Object): Object {
    var rest := m - {"title"};
    if Promotes(m) then rest["description" := m["title"]] else rest
  }

  function StripValue(v: Value): Value
    decreases v, 2
  {
    match v
    case Bool(true) => Obj(map[])
    case Obj(m) => Obj(StripNode(m))
    case Arr(items) => Arr(seq(|items|, i requires 0 <= i < |items| => StripValue(items[i])))
    case _ => v
  }

  function StripNode(m: Object): Object
    decreases Obj(m), 1
  {
    var folded := FoldTitle(m - {"$schema"});
    map k | k in folded ::
      if k == "description" && folded[k].Str? then folded[k] else StripField(k, m[k])
  }

  function StripField(k: string, v: Value): Value
    decreases v, 3
  {
    if k in DATA_KEYWORDS then v
    else if k in NAMED_CONTAINERS then (if v.Obj? then Obj(StripNames(v.fields)) else v)
    else StripValue(v)
  }

  /** The subschemas of a container; the container itself is not a schema node. */
  function StripNames(named: Object): Object
    decreases Obj(named), 0
  {
    map name | name in named :: StripValue(named[name])
  }

  // ---------------------------------------------------------------- fixed points

  /** The keywords under which a schema keeps instance data. */
  predicate HoldsData(k: string) {
    k == "enum" || k == "const" || k == "default" || k == "examples"
  }

  /** The keywords under which it keeps subschemas by names of the author's choosing. */
  predicate HoldsNames(k: string) {
    k == "properties" || k == "patternProperties" || k == "$defs" || k == "definitions" || k == "dependentSchemas"
  }

  lemma KeywordsAre(k: string)
    ensures k in DATA_KEYWORDS <==> HoldsData(k)
    ensures k in NAMED_CONTAINERS <==> HoldsNames(k)
    ensures k in META_FIELDS <==> k == "title" || k == "$schema"
  {
  }

  /** Nothing left to strip in any position the walker treats as a schema. */
  predicate Clean(v: Value)
    decreases v, 1
  {
    match v
    case Bool(b) => !b
    case Arr(items) => forall i | 0 <= i < |items| :: Clean(items[i])
    case Obj(m) => "title" !in m && "$schema" !in m && forall k | k in m :: CleanField(k, m[k])
    case _ => true
  }

  predicate CleanField(k: string, v: Value)
    decreases v, 2
  {
    if HoldsData(k) then true
    else if HoldsNames(k) then v.Obj? ==> forall name | name in v.fields :: Clean(v.fields[name])
    else Clean(v)
  }

  lemma {:induction false} StripIsClean(v: Value)
    ensures Clean(StripValue(v))
    decreases v, 0
  {
    match v
    case Obj(m) =>
      var r := StripNode(m);
      forall k | k in r
        ensures CleanField(k, r[k])
      {
        if !(k == "description" && r[k].Str?) {
          StripFieldIsClean(k, m[k]);
        }
      }
    case Arr(items) =>
      forall i | 0 <= i < |items| {
        StripIsClean(items[i]);
      }
    case _ =>
  }

  lemma {:induction false} StripFieldIsClean(k: string, v: Value)
    ensures CleanField(k, StripField(k, v))
    decreases v, 1
  {
    KeywordsAre(k);
    if k in DATA_KEYWORDS {
    } else if k in NAMED_CONTAINERS {
      if v.Obj? {
        forall name | name in v.fields {
          StripIsClean(v.fields[name]);
        }
      }
    } else {
      StripIsClean(v);
    }
  }

  lemma {:induction false} CleanIsFixed(v: Value)
    requires Clean(v)
    ensures StripValue(v) == v
    decreases v, 0
  {
    match v
    case Obj(m) =>
      var r := StripNode(m);
      assert r.Keys == m.Keys;
      forall k | k in m
        ensures r[k] == m[k]
      {
        assert CleanField(k, m[k]);
        CleanFieldIsFixed(k, m[k]);
      }
      assert r == m;
    case Arr(items) =>
      forall i | 0 <= i < |items| {
        CleanIsFixed(items[i]);
      }
      assert StripValue(v).items == items;
    case _ =>
  }

  lemma {:induction false} CleanFieldIsFixed(k: string, v: Value)
    requires CleanField(k, v)
    ensures StripField(k, v) == v
    decreases v, 1
  {
    KeywordsAre(k);
    if k in DATA_KEYWORDS {
    } else if k in NAMED_CONTAINERS {
      if v.Obj? {
        forall name | name in v.fields {
          CleanIsFixed(v.fields[name]);
        }
        assert StripNames(v.fields) == v.fields;
      }
    } else {
      CleanIsFixed(v);
    }
  }

  /** The stripped schemas are exactly the clean ones, so stripping twice is stripping once. */
  lemma StripFixesExactlyClean(v: Value)
    ensures Clean(StripValue(v))
    ensures StripValue(v) == v <==> Clean(v)
    ensures StripValue(StripValue(v)) == StripValue(v)
  {
    StripIsClean(v);
    CleanIsFixed(StripValue(v));
    if Clean(v) {
      CleanIsFixed(v);
    }
  }

  // ---------------------------------------------------------------- positions

  /** One step from a schema to a subschema. */
  datatype Step = Keyword(keyword: string) | Member(container: string, name: string) | Element(index: nat)

  function Child(v: Value, step: Step): Option<Value> {
    match (v, step)
    case (Obj(m), Keyword(k)) =>
      if k in m && k !in DATA_KEYWORDS && k !in NAMED_CONTAINERS && k !in META_FIELDS
      then Some(m[k]) else None
    case (Obj(m), Member(c, name)) =>
      if c in NAMED_CONTAINERS && c in m then Get(m[c], name) else None
    case (Arr(items), Element(i)) => if i < |items| then Some(items[i]) else None
    case _ => None
  }

  /** The subschema at a position the walker reaches. */
  function At(v: Value, path: seq<Step>): Option<Value> {
    if path == [] then Some(v)
    else match Child(v, path[0])
      case Some(c) => At(c, path[1..])
      case None => None
  }

  /** The step leads to where a promoted title goes. */
  predicate Overwrites(v: Value, step: Step) {
    v.Obj? && step == Keyword("description") && Promotes(v.fields)
  }

  predicate Overwritten(v: Value, path: seq<Step>) {
    path != [] &&
      (Overwrites(v, path[0]) || (Child(v, path[0]).Some? && Overwritten(Child(v, path[0]).value, path[1..])))
  }

  lemma StripKeyword(m: Object, k: string)
    ensures var v := Obj(m); var child := Child(v, Keyword(k));
      Child(StripValue(v), Keyword(k)) ==
        if Overwrites(v, Keyword(k)) then Some(m["title"])
        else if child.Some? then Some(StripValue(child.value)) else None
  {
    StripNodeKeys(m);
    if k in StripNode(m) {
      StripNodeField(m, k);
    }
  }

  lemma StripMember(m: Object, c: string, name: string)
    ensures var v := Obj(m); var child := Child(v, Member(c, name));
      Child(StripValue(v), Member(c, name)) == if child.Some? then Some(StripValue(child.value)) else None
  {
    StripNodeKeys(m);
    if c in NAMED_CONTAINERS && c in m {
      StripNodeField(m, c);
    }
  }

  lemma StripChild(v: Value, step: Step)
    ensures var child, child' := Child(v, step), Child(StripValue(v), step);
      child' == if Overwrites(v, step) then Some(v.fields["title"])
                else if child.Some? then Some(StripValue(child.value)) else None
  {
    if v.Obj? && step.Keyword? {
      StripKeyword(v.fields, step.keyword);
    } else if v.Obj? && step.Member? {
      StripMember(v.fields, step.container, step.name);
    }
  }

  /** Stripping neither adds, drops nor moves a position, and acts on each one alone, but where a title
      takes the place of a description. Every name in a `properties`-like container is such a position,
      whatever the name. */
  lemma {:induction false} StripKeepsPositions(v: Value, path: seq<Step>)
    requires !Overwritten(v, path)
    ensures At(StripValue(v), path) == if At(v, path).Some? then Some(StripValue(At(v, path).value)) else None
  {
    if path != [] {
      StripChild(v, path[0]);
      var child := Child(v, path[0]);
      if child.Some? {
        StripKeepsPositions(child.value, path[1..]);
      }
    }
  }

  lemma {:induction false} AtAppend(v: Value, path: seq<Step>, rest: seq<Step>)
    ensures At(v, path + rest) == if At(v, path).Some? then At(At(v, path).value, rest) else None
  {
    if path == [] {
      assert path + rest == rest;
    } else {
      assert (path + rest)[1..] == path[1..] + rest;
      var child := Child(v, path[0]);
      if child.Some? {
        AtAppend(child.value, path[1..], rest);
      }
    }
  }

  /** And there, the title is all that is left: whatever the description was, it had no text, and what
      could be reached through it is gone. */
  lemma TitleTakesOver(v: Value, path: seq<Step>, m: Object, rest: seq<Step>)
    requires !Overwritten(v, path) && At(v, path) == Some(Obj(m)) && Promotes(m)
    ensures At(StripValue(v), path + [Keyword("description")] + rest) == if rest == [] then Some(m["title"]) else None
  {
    StripKeepsPositions(v, path);
    var tail := [Keyword("description")] + rest;
    AtAppend(StripValue(v), path, tail);
    assert path + [Keyword("description")] + rest == path + tail;
    StripChild(Obj(m), tail[0]);
    assert tail[1..] == rest;
  }

  lemma StripNodeKeys(m: Object)
    ensures StripNode(m).Keys == m.Keys - META_FIELDS + (if Promotes(m) then {"description"} else {})
  {
  }

  /** Every field of a stripped node: stripped on its own, but for a title in a description's place. */
  lemma StripNodeField(m: Object, k: string)
    requires (k in m && k !in META_FIELDS) || (k == "description" && Promotes(m))
    ensures k in StripNode(m)
    ensures StripNode(m)[k] == if k == "description" && Promotes(m) then m["title"] else StripField(k, m[k])
  {
    StripNodeKeys(m);
  }

  /** Instance data under a data keyword is the same data. */
  ghost predicate DataKept(m: Object, r: Object) {
    forall k | HoldsData(k) && k in m :: k in r && r[k] == m[k]
  }

  ghost predicate NamesKept(m: Object, r: Object) {
    forall c | HoldsNames(c) && c in m ::
      c in r && if m[c].Obj? then r[c].Obj? && r[c].fields.Keys == m[c].fields.Keys else r[c] == m[c]
  }

  lemma StripNodeData(m: Object, k: string)
    requires k in m && k in DATA_KEYWORDS
    ensures k in StripNode(m) && StripNode(m)[k] == m[k]
  {
    assert k !in META_FIELDS && k != "description";
    StripNodeField(m, k);
  }

  lemma StripNodeContainer(m: Object, c: string)
    requires c in m && c in NAMED_CONTAINERS && m[c].Obj?
    ensures c in StripNode(m) && StripNode(m)[c] == Obj(StripNames(m[c].fields))
  {
    assert c !in META_FIELDS && c != "description";
    StripNodeField(m, c);
    StripFieldContainer(c, m[c]);
  }

  lemma StripFieldContainer(c: string, v: Value)
    requires c in NAMED_CONTAINERS && v.Obj?
    ensures StripField(c, v) == Obj(StripNames(v.fields))
  {
    assert c !in DATA_KEYWORDS;
  }

  lemma NodeKeeps(m: Object)
    ensures DataKept(m, StripNode(m)) && NamesKept(m, StripNode(m))
  {
    var r := StripNode(m);
    forall k | HoldsData(k) && k in m
      ensures k in r && r[k] == m[k]
    {
      KeywordsAre(k);
      StripNodeData(m, k);
    }
    forall c | HoldsNames(c) && c in m
      ensures c in r && if m[c].Obj? then r[c].Obj? && r[c].fields.Keys == m[c].fields.Keys else r[c] == m[c]
    {
      NamesAreKept(m, c);
    }
  }

  lemma NamesAreKept(m: Object, c: string)
    requires HoldsNames(c) && c in m
    ensures var r := StripNode(m);
      c in r && if m[c].Obj? then r[c].Obj? && r[c].fields.Keys == m[c].fields.Keys else r[c] == m[c]
  {
    KeywordsAre(c);
    assert c !in META_FIELDS && c != "description" && c !in DATA_KEYWORDS;
    StripNodeField(m, c);
  }

  /** Every object left in a schema position: no meta-field, data keywords verbatim, user-chosen
      names all kept, and a title standing in for a missing description only. */
  lemma StripEffectAtPosition(v: Value, path: seq<Step>, m: Object)
    requires At(v, path) == Some(Obj(m)) && !Overwritten(v, path)
    ensures At(StripValue(v), path) == Some(Obj(StripNode(m)))
    ensures StripNode(m).Keys == m.Keys - META_FIELDS + (if Promotes(m) then {"description"} else {})
    ensures DataKept(m, StripNode(m)) && NamesKept(m, StripNode(m))
    ensures Promotes(m) ==> Field(StripNode(m), "description") == Field(m, "title")
    ensures Nonblank(Field(m, "description")).Some? ==>
      Field(StripNode(m), "description") == Field(m, "description")
  {
    StripKeepsPositions(v, path);
    StripNodeKeys(m);
    NodeKeeps(m);
  }

  /** When a title is promoted: it has a character that is not whitespace, and the description, if that is a
      string at all, has none. */
  lemma PromotesExactly(m: Object)
    ensures Promotes(m) <==>
      && "title" in m && m["title"].Str? && (exists i | 0 <= i < |m["title"].s| :: !IsWhitespace(m["title"].s[i]))
      && ("description" in m && m["description"].Str? ==>
            forall i | 0 <= i < |m["description"].s| :: IsWhitespace(m["description"].s[i]))
  {
    if "title" in m && m["title"].Str? {
      NonblankExactly(Field(m, "title"), m["title"].s);
    }
    if "description" in m && m["description"].Str? {
      NonblankExactly(Field(m, "description"), m["description"].s);
    }
  }

  /** What else can stand in a schema position: `true` becomes the empty schema, an array keeps its elements in
      their places, and anything else stays as it is. */
  lemma StripOthersAtPosition(v: Value, path: seq<Step>, x: Value)
    requires At(v, path) == Some(x) && !Overwritten(v, path) && !x.Obj?
    ensures match x
      case Bool(true) => At(StripValue(v), path) == Some(Obj(map[]))
      case Arr(items) =>
        exists stripped :: |stripped| == |items| && At(StripValue(v), path) == Some(Arr(stripped))
      case _ => At(StripValue(v), path) == Some(x)
  {
    StripKeepsPositions(v, path);
    if x.Arr? {
      assert |StripValue(x).items| == |x.items|;
    }
  }

  // ---------------------------------------------------------------- the in-place walk

  method FoldTitleIntoDescription(m: Object) returns (r: Object)
    ensures r == FoldTitle(m)
  {
    r := m - {"title"};
    if "title" !in m || !m["title"].Str? || IsBlank(m["title"].s) {
      return;
    }
    if Nonblank(Field(r, "description")).None? {
      r := r["description" := m["title"]];
    }
  }

  lemma FoldedFieldStrips(m: Object, k: string)
    requires k in FoldTitle(m - {"$schema"})
    ensures k in StripNode(m) && StripNode(m)[k] == StripField(k, FoldTitle(m - {"$schema"})[k])
  {
  }

  method SanitizeSchemaNode(m: Object) returns (r: Object)
    ensures r == StripNode(m)
    decreases Obj(m), 1
  {
    r := FoldTitleIntoDescription(m - {"$schema"});
    ghost var folded := r;
    var todo := r.Keys;
    while todo != {}
      invariant todo <= folded.Keys == r.Keys
      invariant forall k | k in folded :: r[k] == if k in todo then folded[k] else StripField(k, folded[k])
      decreases todo
    {
      var key :| key in todo;
      todo := todo - {key};
      FoldedFieldSmaller(m, key);
      if key in DATA_KEYWORDS {
        continue;
      }
      if key in NAMED_CONTAINERS {
        if r[key].Obj? {
          var named := SanitizeNames(r[key].fields);
          r := r[key := Obj(named)];
        }
        continue;
      }
      var v := SanitizeValueRecursive(r[key]);
      r := r[key := v];
    }
    forall k | k in folded {
      FoldedFieldStrips(m, k);
    }
  }

  lemma FoldedFieldSmaller(m: Object, k: string)
    requires k in FoldTitle(m - {"$schema"})
    ensures Obj(m) decreases to FoldTitle(m - {"$schema"})[k]
  {
    var x := FoldTitle(m - {"$schema"})[k];
    assert (k in m && x == m[k]) || x == m["title"];
  }

  method SanitizeNames(named: Object) returns (r: Object)
    ensures r == StripNames(named)
    decreases Obj(named), 0
  {
    r := named;
    var todo := named.Keys;
    while todo != {}
      invariant todo <= named.Keys == r.Keys
      invariant forall k | k in named :: r[k] == if k in todo then named[k] else StripValue(named[k])
      decreases todo
    {
      var key :| key in todo;
      todo := todo - {key};
      var v := SanitizeValueRecursive(r[key]);
      r := r[key := v];
    }
  }

  method SanitizeValueRecursive(value: Value) returns (r: Value)
    ensures r == StripValue(value)
    decreases value, 2
  {
    match value
    case Bool(true) => r := Obj(map[]);
    case Obj(m) =>
      var node := SanitizeSchemaNode(m);
      r := Obj(node);
    case Arr(items) =>
      var arr := items;
      for i := 0 to |items|
        invariant |arr| == |items|
        invariant forall j | 0 <= j < |items| :: arr[j] == if j < i then StripValue(items[j]) else items[j]
      {
        var v := SanitizeValueRecursive(arr[i]);
        arr := arr[i := v];
      }
      r := Arr(arr);
    case _ => r := value;
  }
}
