/** Flattening a root `oneOf` / `anyOf` / `allOf` (`src/capability/sanitize.rs:276-472`).

    `FlattenRoot` is what the in-place rewrite at the end computes. `render` stands for the JSON text of a
    discriminant that is not a string, which only ever lands in prose. */
module Flatten {
  import opened Json
  import opened StripMeta

  function CombinatorKey(schema: Object): Option<string> {
    if "oneOf" in schema then Some("oneOf")
    else if "anyOf" in schema then Some("anyOf")
    else if "allOf" in schema then Some("allOf")
    else None
  }

  /** The properties of a variant; a variant that is not an object with some is skipped. */
  function VariantProps(v: Value): Option<Object> {
    match Get(v, "properties")
    case Some(Obj(props)) => Some(props)
    case _ => None
  }

  function ConstNames(props: Object): set<string> {
    set p | p in props && Get(props[p], "const").Some?
  }

  function RequiredNames(v: Value): seq<string> {
    match Get(v, "required")
    case Some(Arr(items)) => StringsOf(items)
    case _ => []
  }

  function StringsOf(items: seq<Value>): seq<string> {
    if items == [] then []
    else (if items[0].Str? then [items[0].s] else []) + StringsOf(items[1..])
  }

  type TagEntry = (Value, Option<Value>)

  /** What the loop over the variants accumulates. */
  datatype Acc = Acc(
    props: Object,
    tagKey: Option<string>,
    entries: seq<TagEntry>,
    tagDescription: Option<string>,
    requiredBy: map<string, seq<string>>)

  const EMPTY := Acc(map[], None, [], None, map[])

  /** The first property with a `const`, over all variants so far, is the discriminator. */
  function TagKeyAfter(tagKey: Option<string>, props: Object): Option<string> {
    if tagKey.Some? then tagKey
    else if ConstNames(props) != {} then Some(LeastKey(ConstNames(props)))
    else None
  }

  /** This variant's discriminant value. */
  function VariantTag(tagKey: Option<string>, props: Object): Option<Value> {
    if tagKey.Some? && tagKey.value in props then Get(props[tagKey.value], "const") else None
  }

  /** The value is in the enumeration. */
  predicate Tags(entries: seq<TagEntry>, value: Value) {
    exists k | 0 <= k < |entries| :: entries[k].0 == value
  }

  function AddEntry(entries: seq<TagEntry>, tag: Value, description: Option<Value>): seq<TagEntry> {
    if exists k | 0 <= k < |entries| :: entries[k].0 == tag then entries else entries + [(tag, description)]
  }

  /** A property seen again: the first schema stays, but takes a description it does not have. */
  function KeepFirst(kept: Value, again: Value): Value {
    if Nonblank(Get(kept, "description")).None? && Nonblank(Get(again, "description")).Some? && kept.Obj?
    then Obj(kept.fields["description" := Str(Nonblank(Get(again, "description")).value)])
    else kept
  }

  function MergeProps(merged: Object, props: Object): Object {
    map p | p in merged.Keys + (props.Keys - ConstNames(props)) ::
      if p !in props || p in ConstNames(props) then merged[p]
      else if p in merged then KeepFirst(merged[p], props[p])
      else props[p]
  }

  function Label(tag: Value, render: Value -> string): string {
    if tag.Str? then tag.s else render(tag)
  }

  function AddLabel(labels: seq<string>, text: string): seq<string> {
    if text in labels then labels else labels + [text]
  }

  function Labels(requiredBy: map<string, seq<string>>, p: string): seq<string> {
    if p in requiredBy then requiredBy[p] else []
  }

  /** The properties this variant requires now carry its label. */
  function NoteRequired(
      requiredBy: map<string, seq<string>>, props: Object, required: seq<string>, text: string):
      map<string, seq<string>>
  {
    map p | p in requiredBy.Keys + (set q | q in props && q !in ConstNames(props) && q in required) ::
      if p in props && p !in ConstNames(props) && p in required then AddLabel(Labels(requiredBy, p), text)
      else requiredBy[p]
  }

  function AddVariant(acc: Acc, v: Value, render: Value -> string): Acc {
    match VariantProps(v)
    case None => acc
    case Some(props) =>
      var tagKey := TagKeyAfter(acc.tagKey, props);
      match VariantTag(tagKey, props)
      case None => acc.(props := MergeProps(acc.props, props), tagKey := tagKey)
      case Some(tag) =>
        Acc(
          MergeProps(acc.props, props),
          tagKey,
          AddEntry(acc.entries, tag, Get(v, "description")),
          if acc.tagDescription.Some? then acc.tagDescription else Nonblank(Get(props[tagKey.value], "description")),
          NoteRequired(acc.requiredBy, props, RequiredNames(v), Label(tag, render)))
  }

  function AddVariants(acc: Acc, variants: seq<Value>, render: Value -> string): Acc {
    if variants == [] then acc
    else AddVariant(AddVariants(acc, variants[..|variants| - 1], render), variants[|variants| - 1], render)
  }

  // ---------------------------------------------------------------- the flat schema

  function Join(parts: seq<string>, separator: string): string {
    if parts == [] then []
    else if |parts| == 1 then parts[0]
    else parts[0] + separator + Join(parts[1..], separator)
  }

  function EntryText(entry: TagEntry, render: Value -> string): string {
    var text := "`" + Label(entry.0, render) + "`";
    match Nonblank(entry.1)
    case Some(d) => text + ": " + Trim(d)
    case None => text
  }

  function EntryTexts(entries: seq<TagEntry>, render: Value -> string): seq<string> {
    seq(|entries|, k requires 0 <= k < |entries| => EntryText(entries[k], render))
  }

  function ComposeDescription(entries: seq<TagEntry>, render: Value -> string): Option<string> {
    if exists k | 0 <= k < |entries| :: Nonblank(entries[k].1).Some? then
      Some(Join(EntryTexts(entries, render), " \U{B7} "))
    else None
  }

  function Discriminant(acc: Acc, render: Value -> string): Object {
    var values := seq(|acc.entries|, k requires 0 <= k < |acc.entries| => acc.entries[k].0);
    var bare: Object := map["type" := Str("string"), "enum" := Arr(values)];
    var composed := ComposeDescription(acc.entries, render);
    var description := if composed.Some? then composed else acc.tagDescription;
    if description.Some? then bare["description" := Str(description.value)] else bare
  }

  function WithSuffix(prop: Object, suffix: string): Object {
    match Nonblank(Field(prop, "description"))
    case Some(existing) => prop["description" := Str(TrimEnd(existing) + " " + suffix)]
    case None => prop["description" := Str(suffix)]
  }

  function Suffix(tagKey: string, tags: seq<string>): string {
    "Required when " + tagKey + "=" + Join(tags, ", ") + "."
  }

  /** The flat properties: the merged ones, the discriminator over them, and the requirements of each
      variant as prose. */
  function FlatProps(acc: Acc, render: Value -> string): Object {
    match acc.tagKey
    case None => acc.props
    case Some(t) =>
      var tagged := acc.props[t := Obj(Discriminant(acc, render))];
      map p | p in tagged ::
        if p in acc.requiredBy && tagged[p].Obj? then Obj(WithSuffix(tagged[p].fields, Suffix(t, acc.requiredBy[p])))
        else tagged[p]
  }

  function Finish(schema: Object, acc: Acc, render: Value -> string): Object {
    var flat := schema["type" := Str("object")]["properties" := Obj(FlatProps(acc, render))];
    if acc.tagKey.Some? then flat["required" := Arr([Str(acc.tagKey.value)])] else flat - {"required"}
  }

  function FlattenRoot(schema: Object, render: Value -> string): Object {
    match CombinatorKey(schema)
    case None => schema
    case Some(k) =>
      if schema[k].Arr? then Finish(schema - {k}, AddVariants(EMPTY, schema[k].items, render), render)
      else schema - {k}
  }

  // ---------------------------------------------------------------- the in-place rewrite

  /** First pass over a variant's properties, in key order: find the discriminator. */
  method FindTag(acc: Acc, v: Value, props: Object) returns (r: Acc, tag: Option<Value>)
    ensures tag == VariantTag(TagKeyAfter(acc.tagKey, props), props)
    ensures r == acc.(
      tagKey := TagKeyAfter(acc.tagKey, props),
      entries := if tag.Some? then AddEntry(acc.entries, tag.value, Get(v, "description")) else acc.entries,
      tagDescription := if tag.Some? && acc.tagDescription.None?
                        then Nonblank(Get(props[TagKeyAfter(acc.tagKey, props).value], "description"))
                        else acc.tagDescription)
  {
    r, tag := acc, None;
    var todo := props.Keys;
    while todo != {}
      invariant todo <= props.Keys
      invariant forall p, q | p in todo && q in props && q !in todo :: StrLe(q, p)
      invariant tag.None? ==> r == acc.(tagKey := r.tagKey)
      invariant r.tagKey.None? ==> acc.tagKey.None? && tag.None? && ConstNames(props) <= todo
      invariant r.tagKey.Some? ==> r.tagKey == TagKeyAfter(acc.tagKey, props)
      invariant tag == if r.tagKey.Some? && r.tagKey.value !in todo then VariantTag(r.tagKey, props) else None
      invariant tag.Some? ==> r == acc.(
        tagKey := r.tagKey,
        entries := AddEntry(acc.entries, tag.value, Get(v, "description")),
        tagDescription := if acc.tagDescription.None? then Nonblank(Get(props[r.tagKey.value], "description"))
                          else acc.tagDescription)
      decreases todo
    {
      var p := LeastKey(todo);
      ghost var before := todo;
      todo := todo - {p};
      forall q, q' | q in todo && q' in props && q' !in todo
        ensures StrLe(q', q)
      {
        assert q' == p || q' !in before;
      }
      if Get(props[p], "const").None? {
        continue;
      }
      if r.tagKey.None? {
        assert IsLeast(p, ConstNames(props)) by {
          assert p in ConstNames(props);
          forall q | q in ConstNames(props)
            ensures StrLe(p, q)
          {
            assert q in before;
          }
        }
        LeastUnique(ConstNames(props));
        r := r.(tagKey := Some(p));
      }
      if r.tagKey != Some(p) {
        continue;
      }
      tag := Get(props[p], "const");
      if r.tagDescription.None? {
        r := r.(tagDescription := Nonblank(Get(props[p], "description")));
      }
      if !(exists k | 0 <= k < |r.entries| :: r.entries[k].0 == tag.value) {
        r := r.(entries := r.entries + [(tag.value, Get(v, "description"))]);
      }
    }
    if r.tagKey.None? {
      assert ConstNames(props) == {};
    }
  }

  lemma MergeOneMore(merged: Object, props: Object, rest: set<string>, p: string)
    requires p in props && p !in rest
    ensures var before, after := MergeProps(merged, props - (rest + {p})), MergeProps(merged, props - rest);
      && (p in before <==> p in merged) && (p in merged ==> before[p] == merged[p])
      && after == if p in ConstNames(props) then before
                  else before[p := if p in merged then KeepFirst(merged[p], props[p]) else props[p]]
  {
    var before, after := MergeProps(merged, props - (rest + {p})), MergeProps(merged, props - rest);
    assert p !in ConstNames(props - (rest + {p}));
    assert p in ConstNames(props - rest) <==> p in ConstNames(props);
  }

  /** Second pass, one property at a time: merge what is not a discriminator. */
  method MergeVariantProps(merged: Object, props: Object) returns (r: Object)
    ensures r == MergeProps(merged, props)
  {
    r := merged;
    var todo := props.Keys;
    assert props - props.Keys == map[];
    while todo != {}
      invariant todo <= props.Keys && r == MergeProps(merged, props - todo)
      decreases todo
    {
      var p :| p in todo;
      var rest := todo - {p};
      assert todo == rest + {p};
      MergeOneMore(merged, props, rest, p);
      todo := rest;
      if Get(props[p], "const").Some? {
        continue;
      }
      if p in r {
        r := r[p := KeepFirst(r[p], props[p])];
      } else {
        r := r[p := props[p]];
      }
    }
    assert props - {} == props;
  }

  method NoteVariantRequired(
      requiredBy: map<string, seq<string>>, props: Object, required: seq<string>, text: string)
      returns (r: map<string, seq<string>>)
    ensures r == NoteRequired(requiredBy, props, required, text)
  {
    r := requiredBy;
    ghost var noted := NoteRequired(requiredBy, props, required, text);
    var todo := props.Keys;
    while todo != {}
      invariant todo <= props.Keys
      invariant forall p :: p in r <==> p in noted && (p in todo ==> p in requiredBy)
      invariant forall p | p in r :: r[p] == if p in todo then requiredBy[p] else noted[p]
      decreases todo
    {
      var p :| p in todo;
      todo := todo - {p};
      if Get(props[p], "const").None? && p in required {
        r := r[p := AddLabel(Labels(r, p), text)];
      }
    }
  }

  /** Re-attach the requirements of each variant as prose, one property at a time. */
  method AttachRequirements(acc: Acc, render: Value -> string) returns (r: Object)
    ensures r == FlatProps(acc, render)
  {
    r := acc.props;
    if acc.tagKey.None? {
      return;
    }
    var t := acc.tagKey.value;
    r := r[t := Obj(Discriminant(acc, render))];
    ghost var tagged := r;
    var todo := acc.requiredBy.Keys;
    while todo != {}
      invariant todo <= acc.requiredBy.Keys && r.Keys == tagged.Keys
      invariant forall p | p in r ::
        r[p] == (if p in acc.requiredBy && p !in todo && tagged[p].Obj?
                 then Obj(WithSuffix(tagged[p].fields, Suffix(t, acc.requiredBy[p])))
                 else tagged[p])
      decreases todo
    {
      var p :| p in todo;
      todo := todo - {p};
      if p !in r || !r[p].Obj? {
        continue;
      }
      r := r[p := Obj(WithSuffix(r[p].fields, Suffix(t, acc.requiredBy[p])))];
    }
  }

  method FlattenTopLevelCombinator(schema: Object, render: Value -> string) returns (r: Object)
    ensures r == FlattenRoot(schema, render)
  {
    var key := CombinatorKey(schema);
    if key.None? {
      return schema;
    }
    r := schema - {key.value};
    if !schema[key.value].Arr? {
      return;
    }
    var variants := schema[key.value].items;
    var acc := EMPTY;
    for k := 0 to |variants|
      invariant acc == AddVariants(EMPTY, variants[..k], render)
    {
      assert variants[..k + 1][..k] == variants[..k];
      var props := VariantProps(variants[k]);
      if props.Some? {
        var found, tag := FindTag(acc, variants[k], props.value);
        var merged := MergeVariantProps(found.props, props.value);
        acc := found.(props := merged);
        if tag.Some? {
          var required := RequiredNames(variants[k]);
          var noted := NoteVariantRequired(acc.requiredBy, props.value, required, Label(tag.value, render));
          acc := acc.(requiredBy := noted);
        }
      }
    }
    assert variants[..|variants|] == variants;
    var props := AttachRequirements(acc, render);
    r := r["type" := Str("object")]["properties" := Obj(props)];
    if acc.tagKey.None? {
      r := r - {"required"};
    } else {
      r := r["required" := Arr([Str(acc.tagKey.value)])];
    }
  }
}
