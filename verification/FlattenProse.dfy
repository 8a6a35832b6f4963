/** What flattening keeps of any list of variants at all (`src/capability/sanitize.rs:289-303`): the schema
    of each property, and whose documentation the prose of the flat schema quotes. */
module FlattenProse {
  import opened Json
  import opened StripMeta
  import opened Flatten

  /** The same schema, but for what it is described as. */
  predicate SameButDescription(a: Value, b: Value) {
    a == b || (a.Obj? && b.Obj? && a.fields - {"description"} == b.fields - {"description"})
  }

  // ---------------------------------------------------------------- which schema a property keeps

  /** The schema the first variant to declare a property gives it; the discriminator does not count. */
  function FirstDeclared(variants: seq<Value>, p: string): Option<Value>
  {
    if variants == [] then None
    else if FirstDeclared(variants[..|variants| - 1], p).Some? then FirstDeclared(variants[..|variants| - 1], p)
    else Declares(variants[|variants| - 1], p)
  }

  function Declares(v: Value, p: string): Option<Value> {
    match VariantProps(v)
    case Some(props) => if p in props && Get(props[p], "const").None? then Some(props[p]) else None
    case None => None
  }

  lemma AddVariantProps(acc: Acc, v: Value, render: Value -> string, p: string)
    ensures var acc' := AddVariant(acc, v, render);
      && (p in acc.props ==> p in acc'.props && SameButDescription(acc'.props[p], acc.props[p]))
      && (p !in acc.props ==> Field(acc'.props, p) == Declares(v, p))
  {
    if VariantProps(v).Some? {
      var props := VariantProps(v).value;
      MergedProp(acc.props, props, p);
    }
  }

  lemma MergedProp(merged: Object, props: Object, p: string)
    ensures var r := MergeProps(merged, props);
      && (p in merged ==> p in r && SameButDescription(r[p], merged[p]))
      && (p !in merged ==> Field(r, p) == if p in props && p !in ConstNames(props) then Some(props[p]) else None)
  {
    if p in merged && p in props {
      KeepFirstKeeps(merged[p], props[p]);
    }
  }

  lemma KeepFirstKeeps(kept: Value, again: Value)
    ensures SameButDescription(KeepFirst(kept, again), kept)
  {
  }

  lemma SameButDescriptionTransitive(a: Value, b: Value, c: Value)
    requires SameButDescription(a, b) && SameButDescription(b, c)
    ensures SameButDescription(a, c)
  {
  }

  /** First wins: a merged property is the first one declared, described or not. */
  lemma {:induction false} FirstWins(variants: seq<Value>, render: Value -> string, p: string)
    ensures var props, first := AddVariants(EMPTY, variants, render).props, FirstDeclared(variants, p);
      && (p in props <==> first.Some?)
      && (p in props ==> SameButDescription(props[p], first.value))
  {
    if variants != [] {
      var front, v := variants[..|variants| - 1], variants[|variants| - 1];
      FirstWins(front, render, p);
      var acc := AddVariants(EMPTY, front, render);
      AddVariantProps(acc, v, render, p);
      if p in acc.props {
        var acc' := AddVariant(acc, v, render);
        SameButDescriptionTransitive(acc'.props[p], acc.props[p], FirstDeclared(front, p).value);
      }
    }
  }

  predicate Described(v: Value) {
    Nonblank(Get(v, "description")).Some?
  }

  ghost predicate SomeDescribed(variants: seq<Value>, p: string) {
    exists j | 0 <= j < |variants| :: Declares(variants[j], p).Some? && Described(Declares(variants[j], p).value)
  }

  lemma SomeDescribedAppend(front: seq<Value>, v: Value, p: string)
    ensures SomeDescribed(front + [v], p) <==>
      SomeDescribed(front, p) || (Declares(v, p).Some? && Described(Declares(v, p).value))
  {
    var variants := front + [v];
    assert variants[|front|] == v;
    assert forall j | 0 <= j < |front| :: variants[j] == front[j];
  }

  /** No documentation of a property is lost, as long as its first schema is an object that can carry it:
      the one kept is described exactly when any was. */
  lemma {:induction false} DescriptionNotLost(variants: seq<Value>, render: Value -> string, p: string)
    ensures var props, first := AddVariants(EMPTY, variants, render).props, FirstDeclared(variants, p);
      && (p in props <==> first.Some?)
      && (p in props ==> (props[p].Obj? <==> first.value.Obj?))
      && (p in props ==> (Described(props[p]) <==> first.value.Obj? && SomeDescribed(variants, p)))
    ensures FirstDeclared(variants, p).None? ==> !SomeDescribed(variants, p)
  {
    if variants != [] {
      var front, v := variants[..|variants| - 1], variants[|variants| - 1];
      assert variants == front + [v];
      DescriptionNotLost(front, render, p);
      SomeDescribedAppend(front, v, p);
      DescribedAfter(AddVariants(EMPTY, front, render), v, render, p);
    }
  }

  lemma DescribedAfter(acc: Acc, v: Value, render: Value -> string, p: string)
    ensures var again, props := Declares(v, p), AddVariant(acc, v, render).props;
      && (p in props <==> p in acc.props || again.Some?)
      && (p in acc.props ==> (props[p].Obj? <==> acc.props[p].Obj?) && (Described(props[p]) <==>
            acc.props[p].Obj? && (Described(acc.props[p]) || (again.Some? && Described(again.value)))))
      && (p !in acc.props && p in props ==> props[p] == again.value)
  {
    AddVariantProps(acc, v, render, p);
    var again := Declares(v, p);
    if again.Some? && p in acc.props && acc.props[p].Obj? {
      KeepFirstDescribes(acc.props[p], again.value);
    }
  }

  lemma KeepFirstDescribes(kept: Value, again: Value)
    requires kept.Obj?
    ensures KeepFirst(kept, again).Obj?
    ensures Described(KeepFirst(kept, again)) <==> Described(kept) || Described(again)
  {
    if !Described(kept) && Described(again) {
      var d := Nonblank(Get(again, "description")).value;
      assert Get(again, "description") == Some(Str(d));
    }
  }

  // ---------------------------------------------------------------- which variants are spoken of

  /** The discriminator: the first property with a `const` of the first variant that has one. */
  function TagKeyOf(variants: seq<Value>): Option<string> {
    if variants == [] then None
    else
      var before := TagKeyOf(variants[..|variants| - 1]);
      match VariantProps(variants[|variants| - 1])
      case None => before
      case Some(props) => TagKeyAfter(before, props)
  }

  lemma {:induction false} TagKeyIs(variants: seq<Value>, render: Value -> string)
    ensures AddVariants(EMPTY, variants, render).tagKey == TagKeyOf(variants)
  {
    if variants != [] {
      TagKeyIs(variants[..|variants| - 1], render);
    }
  }

  /** In its own words: before the variant that settles it none has a property with a `const`; of those this
      one has, the discriminator comes first in the order of their names. */
  lemma {:induction false} TagKeyExactly(variants: seq<Value>, t: string)
    ensures TagKeyOf(variants) == Some(t) <==>
      exists j | 0 <= j < |variants| :: SettlesTag(variants, j, t)
  {
    if variants != [] {
      var n := |variants| - 1;
      var front := variants[..n];
      TagKeyExactly(front, t);
      assert forall j | 0 <= j < n :: front[j] == variants[j];
      assert forall j | 0 <= j < n :: SettlesTag(front, j, t) <==> SettlesTag(variants, j, t);
      NoTagExactly(front);
      if VariantProps(variants[n]).Some? {
        LeastConst(VariantProps(variants[n]).value, t);
      }
      SettledBefore(variants, t);
    }
  }

  lemma LeastConst(props: Object, t: string)
    ensures (ConstNames(props) != {} && LeastKey(ConstNames(props)) == t) <==>
      t in props && Get(props[t], "const").Some? && forall p | p in props && Get(props[p], "const").Some? :: StrLe(t, p)
  {
    var names := ConstNames(props);
    assert forall p :: p in names <==> p in props && Get(props[p], "const").Some?;
    if names != {} {
      LeastUnique(names);
      assert IsLeast(LeastKey(names), names);
      assert IsLeast(t, names) <==> LeastKey(names) == t;
    }
  }

  /** The last variant settles it exactly if none before it has a `const`. */
  lemma SettledBefore(variants: seq<Value>, t: string)
    requires variants != []
    ensures var n := |variants| - 1;
      var props := VariantProps(variants[n]);
      SettlesTag(variants, n, t) <==>
        TagKeyOf(variants[..n]).None? && props.Some? && TagKeyAfter(None, props.value) == Some(t)
  {
    var n := |variants| - 1;
    NoTagExactly(variants[..n]);
    assert forall j | 0 <= j < n :: variants[..n][j] == variants[j];
    if VariantProps(variants[n]).Some? {
      LeastConst(VariantProps(variants[n]).value, t);
    }
  }

  predicate HasConst(v: Value) {
    VariantProps(v).Some? && exists p | p in VariantProps(v).value :: Get(VariantProps(v).value[p], "const").Some?
  }

  predicate SettlesTag(variants: seq<Value>, j: nat, t: string)
    requires j < |variants|
  {
    && (forall i | 0 <= i < j :: !HasConst(variants[i]))
    && VariantProps(variants[j]).Some?
    && var props := VariantProps(variants[j]).value;
       && t in props && Get(props[t], "const").Some?
       && forall p | p in props && Get(props[p], "const").Some? :: StrLe(t, p)
  }

  lemma {:induction false} NoTagExactly(variants: seq<Value>)
    ensures TagKeyOf(variants).None? <==> forall j | 0 <= j < |variants| :: !HasConst(variants[j])
  {
    if variants != [] {
      var n := |variants| - 1;
      NoTagExactly(variants[..n]);
      assert forall j | 0 <= j < n :: variants[..n][j] == variants[j];
      if VariantProps(variants[n]).Some? {
        var props := VariantProps(variants[n]).value;
        assert ConstNames(props) != {} <==> HasConst(variants[n]) by {
          if HasConst(variants[n]) {
            var p :| p in props && Get(props[p], "const").Some?;
            assert p in ConstNames(props);
          }
        }
      }
    }
  }

  /** The variant's value of the discriminator `t`. */
  function ValueOf(v: Value, t: string): Option<Value> {
    match VariantProps(v)
    case None => None
    case Some(props) => VariantTag(Some(t), props)
  }

  /** The variant lists a property of its own, not a discriminator, as required. */
  predicate Requires(v: Value, p: string) {
    match VariantProps(v)
    case None => false
    case Some(props) =>
      && p in props && p !in ConstNames(props)
      && Get(v, "required").Some? && Get(v, "required").value.Arr? && Str(p) in Get(v, "required").value.items
  }

  /** No earlier variant has the same value. */
  predicate IsFirst(variants: seq<Value>, t: string, j: nat)
    requires j < |variants|
  {
    && ValueOf(variants[j], t).Some?
    && forall i | 0 <= i < j :: ValueOf(variants[i], t) != ValueOf(variants[j], t)
  }

  /** Each value once, in variant order, with the description of the first variant that has it. */
  function FirstEntries(variants: seq<Value>, t: string): seq<TagEntry> {
    if variants == [] then []
    else
      var n := |variants| - 1;
      FirstEntries(variants[..n], t)
      + if IsFirst(variants, t, n) then [(ValueOf(variants[n], t).value, Get(variants[n], "description"))] else []
  }

  /** How prose names a discriminant value: a string as it is, anything else as its JSON text. */
  predicate IsNamed(value: Value, text: string, render: Value -> string) {
    if value.Str? then text == value.s else text == render(value)
  }

  /** Some variant whose value is named `text` requires `p`. */
  ghost predicate RequiredFor(variants: seq<Value>, t: string, p: string, text: string, render: Value -> string) {
    exists j | 0 <= j < |variants| ::
      Requires(variants[j], p) && ValueOf(variants[j], t).Some? && IsNamed(ValueOf(variants[j], t).value, text, render)
  }

  predicate Distinct(texts: seq<string>) {
    forall i, j | 0 <= i < j < |texts| :: texts[i] != texts[j]
  }

  // ---------------------------------------------------------------- the discriminator

  /** Once found the discriminator stays, and no variant before it was found has any value of it. */
  lemma {:induction false} KeyStays(variants: seq<Value>, render: Value -> string)
    ensures AddVariants(EMPTY, variants, render).tagKey.None? ==>
      && AddVariants(EMPTY, variants, render).entries == []
      && AddVariants(EMPTY, variants, render).requiredBy == map[]
      && forall j, t | 0 <= j < |variants| :: ValueOf(variants[j], t).None?
    ensures variants != [] && AddVariants(EMPTY, variants[..|variants| - 1], render).tagKey.Some? ==>
      AddVariants(EMPTY, variants, render).tagKey == AddVariants(EMPTY, variants[..|variants| - 1], render).tagKey
  {
    if variants != [] {
      KeyStays(variants[..|variants| - 1], render);
      var acc := AddVariants(EMPTY, variants, render);
      if acc.tagKey.None? {
        forall j, t | 0 <= j < |variants| ensures ValueOf(variants[j], t).None? {
          if j < |variants| - 1 {
            assert ValueOf(variants[..|variants| - 1][j], t).None?;
          } else if VariantProps(variants[j]).Some? {
            assert t in ConstNames(VariantProps(variants[j]).value) <==> ValueOf(variants[j], t).Some?;
          }
        }
      }
    }
  }

  /** What one variant adds, told by the discriminator known once it is added. */
  lemma OneVariant(before: Acc, v: Value, t: string, render: Value -> string)
    requires AddVariant(before, v, render).tagKey == Some(t)
    ensures var acc := AddVariant(before, v, render);
      match ValueOf(v, t)
      case None => acc.entries == before.entries && acc.requiredBy == before.requiredBy
      case Some(tag) =>
        && acc.entries == AddEntry(before.entries, tag, Get(v, "description"))
        && acc.requiredBy ==
             NoteRequired(before.requiredBy, VariantProps(v).value, RequiredNames(v), Label(tag, render))
  {
  }

  // ---------------------------------------------------------------- its values

  ghost predicate HasValue(variants: seq<Value>, t: string, value: Value) {
    exists j | 0 <= j < |variants| :: ValueOf(variants[j], t) == Some(value)
  }

  lemma HasValueAppend(front: seq<Value>, v: Value, t: string, value: Value)
    ensures HasValue(front + [v], t, value) <==> HasValue(front, t, value) || ValueOf(v, t) == Some(value)
  {
    var variants := front + [v];
    assert variants[|front|] == v;
    assert forall j | 0 <= j < |front| :: variants[j] == front[j];
  }

  lemma FirstIsUnseen(front: seq<Value>, v: Value, t: string)
    requires ValueOf(v, t).Some?
    ensures IsFirst(front + [v], t, |front|) <==> !HasValue(front, t, ValueOf(v, t).value)
  {
    assert forall j | 0 <= j < |front| :: (front + [v])[j] == front[j];
  }

  lemma TagsAppend(entries: seq<TagEntry>, entry: TagEntry, value: Value)
    ensures Tags(entries + [entry], value) <==> Tags(entries, value) || entry.0 == value
  {
    var longer := entries + [entry];
    assert longer[|entries|] == entry;
    assert forall k | 0 <= k < |entries| :: longer[k] == entries[k];
  }

  lemma {:induction false} FirstEntriesTag(variants: seq<Value>, t: string, value: Value)
    ensures Tags(FirstEntries(variants, t), value) <==> HasValue(variants, t, value)
  {
    if variants != [] {
      var n := |variants| - 1;
      var front, v := variants[..n], variants[n];
      assert variants == front + [v];
      FirstEntriesTag(front, t, value);
      HasValueAppend(front, v, t, value);
      assert FirstEntries(front, t) + [] == FirstEntries(front, t);
      assert IsFirst(variants, t, n) == IsFirst(front + [v], t, |front|);
      if ValueOf(v, t).Some? {
        FirstIsUnseen(front, v, t);
        TagsAppend(FirstEntries(front, t), (ValueOf(v, t).value, Get(v, "description")), value);
      }
    }
  }

  lemma FirstIsNew(variants: seq<Value>, t: string)
    requires variants != []
    ensures var n := |variants| - 1;
      FirstEntries(variants, t) ==
        if ValueOf(variants[n], t).None? then FirstEntries(variants[..n], t)
        else AddEntry(FirstEntries(variants[..n], t), ValueOf(variants[n], t).value, Get(variants[n], "description"))
  {
    var n := |variants| - 1;
    if ValueOf(variants[n], t).Some? {
      assert variants == variants[..n] + [variants[n]];
      FirstEntriesTag(variants[..n], t, ValueOf(variants[n], t).value);
      FirstIsUnseen(variants[..n], variants[n], t);
    }
  }

  /** The enumeration is exactly the variants' values, each once, in variant order, described by the
      first variant that has it. */
  lemma {:induction false} EntriesExact(variants: seq<Value>, t: string, render: Value -> string)
    requires var key := AddVariants(EMPTY, variants, render).tagKey; key == Some(t) || key.None?
    ensures AddVariants(EMPTY, variants, render).entries == FirstEntries(variants, t)
  {
    KeyStays(variants, render);
    if variants != [] {
      var n := |variants| - 1;
      EntriesExact(variants[..n], t, render);
      FirstIsNew(variants, t);
      if AddVariants(EMPTY, variants, render).tagKey.Some? {
        OneVariant(AddVariants(EMPTY, variants[..n], render), variants[n], t, render);
      }
    }
  }

  // ---------------------------------------------------------------- who requires what

  lemma {:induction false} StringsAre(items: seq<Value>, text: string)
    ensures text in StringsOf(items) <==> Str(text) in items
  {
    if items != [] {
      StringsAre(items[1..], text);
      assert Str(text) in items <==> items[0] == Str(text) || Str(text) in items[1..];
    }
  }

  lemma RequiredNamesAre(v: Value, p: string)
    ensures p in RequiredNames(v) <==>
      Get(v, "required").Some? && Get(v, "required").value.Arr? && Str(p) in Get(v, "required").value.items
  {
    if Get(v, "required").Some? && Get(v, "required").value.Arr? {
      StringsAre(Get(v, "required").value.items, p);
    }
  }

  lemma LabelsAfter(requiredBy: map<string, seq<string>>, props: Object, required: seq<string>, text: string, p: string)
    requires Distinct(Labels(requiredBy, p))
    requires p in requiredBy ==> requiredBy[p] != []
    ensures var r := NoteRequired(requiredBy, props, required, text);
      && Distinct(Labels(r, p)) && (p in r ==> r[p] != [])
      && forall other :: other in Labels(r, p) <==>
           other in Labels(requiredBy, p) || (other == text && p in props && p !in ConstNames(props) && p in required)
  {
  }

  lemma RequiredForAppend(front: seq<Value>, v: Value, t: string, p: string, text: string, render: Value -> string)
    ensures RequiredFor(front + [v], t, p, text, render) <==>
      || RequiredFor(front, t, p, text, render)
      || (Requires(v, p) && ValueOf(v, t).Some? && IsNamed(ValueOf(v, t).value, text, render))
  {
    var variants := front + [v];
    assert variants[|front|] == v;
    assert forall j | 0 <= j < |front| :: variants[j] == front[j];
  }

  /** The labels kept for a property are exactly those of the variants that require it, each once. */
  lemma {:induction false} RequirementsExact(variants: seq<Value>, t: string, p: string, render: Value -> string)
    ensures var acc := AddVariants(EMPTY, variants, render);
      acc.tagKey == Some(t) || acc.tagKey.None? ==>
        && Distinct(Labels(acc.requiredBy, p)) && (p in acc.requiredBy ==> acc.requiredBy[p] != [])
        && forall text :: text in Labels(acc.requiredBy, p) <==> RequiredFor(variants, t, p, text, render)
  {
    KeyStays(variants, render);
    if variants != [] {
      var n := |variants| - 1;
      var before, acc := AddVariants(EMPTY, variants[..n], render), AddVariants(EMPTY, variants, render);
      RequirementsExact(variants[..n], t, p, render);
      if acc.tagKey == Some(t) {
        OneVariant(before, variants[n], t, render);
        assert variants == variants[..n] + [variants[n]];
        forall text {
          RequiredForAppend(variants[..n], variants[n], t, p, text, render);
        }
        if ValueOf(variants[n], t).Some? {
          var props := VariantProps(variants[n]).value;
          var text := Label(ValueOf(variants[n], t).value, render);
          RequiredNamesAre(variants[n], p);
          LabelsAfter(before.requiredBy, props, RequiredNames(variants[n]), text, p);
        }
      }
    }
  }

  // ---------------------------------------------------------------- in the flat schema

  predicate OccursAt(text: string, part: string, i: nat) {
    i + |part| <= |text| && text[i..i + |part|] == part
  }

  ghost predicate Contains(text: string, part: string) {
    exists i: nat :: OccursAt(text, part, i)
  }

  predicate EndsWith(text: string, part: string) {
    |part| <= |text| && text[|text| - |part|..] == part
  }

  lemma ContainsIn(before: string, text: string, after: string, part: string)
    requires Contains(text, part)
    ensures Contains(before + text + after, part)
  {
    var i: nat :| OccursAt(text, part, i);
    var whole, at := before + text + after, |before| + i;
    assert whole[at..at + |part|] == text[i..i + |part|];
    assert OccursAt(whole, part, at);
  }

  lemma {:induction false} JoinContains(parts: seq<string>, separator: string, k: nat)
    requires k < |parts|
    ensures Contains(Join(parts, separator), parts[k])
  {
    if k == 0 {
      assert OccursAt(Join(parts, separator), parts[0], 0);
    } else {
      JoinContains(parts[1..], separator, k - 1);
      var rest := Join(parts[1..], separator);
      ContainsIn(parts[0] + separator, rest, "", parts[k]);
      assert Join(parts, separator) == parts[0] + separator + rest + "";
    }
  }

  /** The discriminator's description quotes the one of every variant that is the first with its value. */
  lemma EntryIsQuoted(acc: Acc, render: Value -> string, k: nat)
    requires k < |acc.entries| && Nonblank(acc.entries[k].1).Some?
    ensures var d := Get(Obj(Discriminant(acc, render)), "description");
      d.Some? && d.value.Str? && Contains(d.value.s, EntryText(acc.entries[k], render))
  {
    JoinContains(EntryTexts(acc.entries, render), " \U{B7} ", k);
    assert ComposeDescription(acc.entries, render).Some?;
  }

  lemma {:induction false} FirstIsEntry(variants: seq<Value>, t: string, j: nat) returns (k: nat)
    requires j < |variants| && IsFirst(variants, t, j)
    ensures k < |FirstEntries(variants, t)|
    ensures FirstEntries(variants, t)[k] == (ValueOf(variants[j], t).value, Get(variants[j], "description"))
  {
    var n := |variants| - 1;
    var front := variants[..n];
    if j == n {
      k := |FirstEntries(front, t)|;
    } else {
      assert IsFirst(front, t, j) by {
        assert forall i | 0 <= i <= j :: front[i] == variants[i];
      }
      k := FirstIsEntry(front, t, j);
    }
  }

  lemma SomeMember(texts: seq<string>)
    ensures texts != [] ==> exists text :: text in texts
  {
    assert texts != [] ==> texts[0] in texts;
  }

  lemma TagIsUnlabelled(variants: seq<Value>, t: string, render: Value -> string)
    requires AddVariants(EMPTY, variants, render).tagKey == Some(t)
    ensures FlatProps(AddVariants(EMPTY, variants, render), render)[t]
         == Obj(Discriminant(AddVariants(EMPTY, variants, render), render))
  {
    var acc := AddVariants(EMPTY, variants, render);
    RequirementsExact(variants, t, t, render);
    assert forall v :: Requires(v, t) ==> ValueOf(v, t).None?;
    assert forall text :: !RequiredFor(variants, t, t, text, render);
    SomeMember(Labels(acc.requiredBy, t));
  }

  /** The variant is listed by its value with its own description. */
  predicate DocListed(entries: seq<TagEntry>, v: Value, t: string) {
    exists k | 0 <= k < |entries| :: ValueOf(v, t) == Some(entries[k].0) && entries[k].1 == Get(v, "description")
  }

  /** Variant `i` is the first with the value of variant `j`, and is described alike. */
  predicate SpeaksFor(variants: seq<Value>, t: string, i: nat, j: nat)
    requires i < |variants| && j < |variants|
  {
    && IsFirst(variants, t, i) && ValueOf(variants[i], t) == ValueOf(variants[j], t)
    && Get(variants[i], "description") == Get(variants[j], "description")
  }

  lemma {:induction false} EntryIsFirst(variants: seq<Value>, t: string, k: nat) returns (i: nat)
    requires k < |FirstEntries(variants, t)|
    ensures i < |variants| && IsFirst(variants, t, i)
    ensures FirstEntries(variants, t)[k] == (ValueOf(variants[i], t).value, Get(variants[i], "description"))
  {
    var n := |variants| - 1;
    var front := variants[..n];
    if k < |FirstEntries(front, t)| {
      i := EntryIsFirst(front, t, k);
      assert forall l | 0 <= l <= i :: front[l] == variants[l];
    } else {
      i := n;
    }
  }

  /** A variant's description is the one listed for it exactly when it has a value of the discriminator and
      is the first with that value, or says the same as the first. Otherwise it is dropped: a variant
      without a value is not listed at all. */
  lemma DocListedExactly(variants: seq<Value>, t: string, render: Value -> string, j: nat)
    requires TagKeyOf(variants) == Some(t) && j < |variants|
    ensures DocListed(AddVariants(EMPTY, variants, render).entries, variants[j], t) <==>
      ValueOf(variants[j], t).Some? && exists i | 0 <= i <= j :: SpeaksFor(variants, t, i, j)
  {
    TagKeyIs(variants, render);
    EntriesExact(variants, t, render);
    var entries := FirstEntries(variants, t);
    if DocListed(entries, variants[j], t) {
      var k :| 0 <= k < |entries| && ValueOf(variants[j], t) == Some(entries[k].0)
            && entries[k].1 == Get(variants[j], "description");
      var i := EntryIsFirst(variants, t, k);
      assert i <= j;
      assert SpeaksFor(variants, t, i, j);
    } else if i :| 0 <= i <= j && SpeaksFor(variants, t, i, j) {
      var k := FirstIsEntry(variants, t, i);
      assert DocListed(entries, variants[j], t);
    }
  }

  /** A variant with that description and, unless `tag` is none, that value of `k`. */
  function Documented(doc: string, tag: Option<string>): Value {
    var props: Object := if tag.Some? then map["k" := Obj(map["const" := Str(tag.value)])] else map[];
    Obj(map["description" := Str(doc), "properties" := Obj(props)])
  }

  /** The smallest losses: of three documented variants, the second with the value of the first and the
      third with none, one is listed. */
  lemma TwoDocsAreLost(render: Value -> string)
    ensures var a, b, c := Documented("one", Some("x")), Documented("two", Some("x")), Documented("three", None);
      var entries := AddVariants(EMPTY, [a, b, c], render).entries;
      && TagKeyOf([a, b, c]) == Some("k") && entries == [(Str("x"), Some(Str("one")))]
      && DocListed(entries, a, "k") && !DocListed(entries, b, "k") && !DocListed(entries, c, "k")
  {
    var a, b, c := Documented("one", Some("x")), Documented("two", Some("x")), Documented("three", None);
    DocumentedIs("one", Some("x"));
    DocumentedIs("two", Some("x"));
    DocumentedIs("three", None);
    ThreeVariants(a, b, c);
    TagKeyIs([a, b, c], render);
    EntriesExact([a, b, c], "k", render);
    assert [(Str("x"), Some(Str("one")))][0] == (Str("x"), Some(Str("one")));
    assert "one" != "two" by {
      assert "one"[0] != "two"[0];
    }
  }

  lemma DocumentedIs(doc: string, tag: Option<string>)
    ensures var v := Documented(doc, tag);
      && Get(v, "description") == Some(Str(doc)) && VariantProps(v).Some?
      && ValueOf(v, "k") == (if tag.Some? then Some(Str(tag.value)) else None)
      && TagKeyAfter(None, VariantProps(v).value) == (if tag.Some? then Some("k") else None)
  {
    var props := VariantProps(Documented(doc, tag)).value;
    assert ConstNames(props) == if tag.Some? then {"k"} else {};
    assert IsLeast(LeastKey({"k"}), {"k"});
  }

  lemma ThreeVariants(a: Value, b: Value, c: Value)
    requires VariantProps(a).Some? && TagKeyAfter(None, VariantProps(a).value) == Some("k")
    requires ValueOf(a, "k").Some? && ValueOf(b, "k") == ValueOf(a, "k") && ValueOf(c, "k").None?
    ensures FirstEntries([a, b, c], "k") == [(ValueOf(a, "k").value, Get(a, "description"))]
    ensures TagKeyOf([a, b, c]) == Some("k")
  {
    var one, two, three := [a], [a, b], [a, b, c];
    var entry := (ValueOf(a, "k").value, Get(a, "description"));
    assert three[..2] == two && two[..1] == one && one[..0] == [];
    assert IsFirst(one, "k", 0);
    assert FirstEntries(one, "k") == [] + [entry] == [entry];
    assert ValueOf(two[0], "k") == ValueOf(two[1], "k");
    assert !IsFirst(two, "k", 1);
    assert FirstEntries(two, "k") == [entry] + [] == [entry];
    assert ValueOf(three[2], "k").None?;
    assert !IsFirst(three, "k", 2);
    assert FirstEntries(three, "k") == [entry] + [];
    assert TagKeyOf(one) == Some("k");
    assert TagKeyOf(two) == Some("k");
  }

  /** A listed description is quoted, next to the value, in the description of the flat discriminator. */
  lemma VariantDocIsQuoted(variants: seq<Value>, t: string, render: Value -> string, j: nat)
    requires AddVariants(EMPTY, variants, render).tagKey == Some(t) && j < |variants|
    requires DocListed(AddVariants(EMPTY, variants, render).entries, variants[j], t)
    requires Nonblank(Get(variants[j], "description")).Some?
    ensures var flat := FlatProps(AddVariants(EMPTY, variants, render), render);
      t in flat &&
      var d := Get(flat[t], "description");
      d.Some? && d.value.Str? && Contains(d.value.s,
        "`" + Label(ValueOf(variants[j], t).value, render) + "`: "
        + Trim(Nonblank(Get(variants[j], "description")).value))
  {
    var acc := AddVariants(EMPTY, variants, render);
    var k :| 0 <= k < |acc.entries| && ValueOf(variants[j], t) == Some(acc.entries[k].0)
          && acc.entries[k].1 == Get(variants[j], "description");
    EntryIsQuoted(acc, render, k);
    TagIsUnlabelled(variants, t, render);
    EntryTextIs(acc.entries[k], render);
  }

  lemma EntryTextIs(entry: TagEntry, render: Value -> string)
    requires Nonblank(entry.1).Some?
    ensures EntryText(entry, render) == "`" + Label(entry.0, render) + "`: " + Trim(Nonblank(entry.1).value)
  {
    assert "`" + Label(entry.0, render) + "`: " == "`" + Label(entry.0, render) + "`" + ": ";
  }

  lemma RequiredIsDeclared(variants: seq<Value>, t: string, p: string, text: string, render: Value -> string)
    ensures RequiredFor(variants, t, p, text, render) ==>
      exists j | 0 <= j < |variants| :: Declares(variants[j], p).Some?
  {
    if RequiredFor(variants, t, p, text, render) {
      var j :| 0 <= j < |variants| && Requires(variants[j], p);
      assert Declares(variants[j], p).Some?;
    }
  }

  lemma {:induction false} FirstDeclaredExactly(variants: seq<Value>, p: string)
    ensures FirstDeclared(variants, p).Some? <==> exists j | 0 <= j < |variants| :: Declares(variants[j], p).Some?
  {
    if variants != [] {
      var n := |variants| - 1;
      var front := variants[..n];
      FirstDeclaredExactly(front, p);
      assert forall j | 0 <= j < n :: front[j] == variants[j];
      assert Declares(variants[n], p).Some? ==> FirstDeclared(variants, p).Some?;
    }
  }

  /** The flat properties are the discriminator and what some variant declares other than by a `const`. A
      second `const` property, never declared otherwise, is gone. */
  lemma FlatHasExactly(variants: seq<Value>, render: Value -> string, p: string)
    ensures var acc := AddVariants(EMPTY, variants, render);
      p in FlatProps(acc, render) <==>
        TagKeyOf(variants) == Some(p) || exists j | 0 <= j < |variants| :: Declares(variants[j], p).Some?
  {
    TagKeyIs(variants, render);
    FirstWins(variants, render, p);
    FirstDeclaredExactly(variants, p);
  }

  /** What a variant requires is stated on every property that is left to state it on, an object other
      than the discriminator: its description ends with the labels of exactly the variants that require
      it. Nothing else is said of it. */
  lemma RequirementIsStated(variants: seq<Value>, t: string, render: Value -> string, p: string)
    requires AddVariants(EMPTY, variants, render).tagKey == Some(t) && p != t
    ensures var acc := AddVariants(EMPTY, variants, render);
      var flat, labels := FlatProps(acc, render), Labels(acc.requiredBy, p);
      && (forall text :: text in labels <==> RequiredFor(variants, t, p, text, render)) && Distinct(labels)
      && (labels != [] ==> p in flat)
      && (p in flat ==>
            if labels == [] || !flat[p].Obj? then flat[p] == acc.props[p]
            else
              var d := Get(flat[p], "description");
              d.Some? && d.value.Str? && EndsWith(d.value.s, "Required when " + t + "=" + Join(labels, ", ") + "."))
  {
    RequirementsExact(variants, t, p, render);
    TagKeyIs(variants, render);
    FlatHasExactly(variants, render, p);
    var acc := AddVariants(EMPTY, variants, render);
    forall text {
      RequiredIsDeclared(variants, t, p, text, render);
    }
    SomeMember(Labels(acc.requiredBy, p));
    if p in acc.requiredBy && p in acc.props && acc.props[p].Obj? {
      SuffixEnds(acc.props[p].fields, Suffix(t, acc.requiredBy[p]));
    }
  }

  lemma SuffixEnds(prop: Object, suffix: string)
    ensures var d := Get(Obj(WithSuffix(prop, suffix)), "description");
      d.Some? && d.value.Str? && EndsWith(d.value.s, suffix)
  {
  }
}
