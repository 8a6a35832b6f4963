/** The prose of a flat schema, to the letter (`src/capability/sanitize.rs:289-300`). */
module FlattenText {
  import opened Json
  import opened StripMeta
  import opened Flatten
  import opened FlattenProse

  // ---------------------------------------------------------------- lists

  /** A list is its parts in order, with a separator between any two of them and nowhere else. */
  lemma {:induction false} JoinSplits(before: seq<string>, after: seq<string>, separator: string)
    requires before != [] && after != []
    ensures Join(before + after, separator) == Join(before, separator) + separator + Join(after, separator)
    ensures forall text :: Join([text], separator) == text
  {
    if |before| == 1 {
      assert (before + after)[0] == before[0] && (before + after)[1..] == after;
    } else {
      assert (before + after)[0] == before[0] && (before + after)[1..] == before[1..] + after;
      JoinSplits(before[1..], after, separator);
      var head, rest := before[0] + separator, Join(before[1..], separator);
      assert head + (rest + separator + Join(after, separator)) == head + rest + separator + Join(after, separator);
    }
  }

  // ---------------------------------------------------------------- the description a property keeps

  /** The text of the first schema declared for a property that describes it. */
  function FirstDescription(variants: seq<Value>, p: string): Option<string> {
    if variants == [] then None
    else
      var before := FirstDescription(variants[..|variants| - 1], p);
      if before.Some? then before
      else match Declares(variants[|variants| - 1], p)
        case Some(schema) => Nonblank(Get(schema, "description"))
        case None => None
  }

  lemma KeepFirstText(kept: Value, again: Value)
    requires kept.Obj?
    ensures var was := Nonblank(Get(kept, "description"));
      Nonblank(Get(KeepFirst(kept, again), "description")) ==
        if was.Some? then was else Nonblank(Get(again, "description"))
  {
    var text := Nonblank(Get(again, "description"));
    if Nonblank(Get(kept, "description")).None? && text.Some? {
      assert Get(again, "description") == Some(Str(text.value));
      assert Get(KeepFirst(kept, again), "description") == Some(Str(text.value));
    }
  }

  lemma TextAfter(acc: Acc, v: Value, render: Value -> string, p: string)
    ensures var props, again := AddVariant(acc, v, render).props, Declares(v, p);
      && (p in acc.props && acc.props[p].Obj? ==>
            var was := Nonblank(Get(acc.props[p], "description"));
            p in props && Nonblank(Get(props[p], "description")) ==
              if was.Some? || again.None? then was else Nonblank(Get(again.value, "description")))
      && (p !in acc.props && p in props ==> Some(props[p]) == again)
  {
    AddVariantProps(acc, v, render, p);
    if p in acc.props && acc.props[p].Obj? && Declares(v, p).Some? {
      KeepFirstText(acc.props[p], Declares(v, p).value);
    }
  }

  /** A merged property that can be described says what the first schema to describe it said, word for
      word. */
  lemma {:induction false} DescriptionIsFirst(variants: seq<Value>, render: Value -> string, p: string)
    requires FirstDeclared(variants, p).Some? && FirstDeclared(variants, p).value.Obj?
    ensures p in AddVariants(EMPTY, variants, render).props
    ensures Nonblank(Get(AddVariants(EMPTY, variants, render).props[p], "description")) == FirstDescription(variants, p)
  {
    var front, v := variants[..|variants| - 1], variants[|variants| - 1];
    var acc := AddVariants(EMPTY, front, render);
    FirstWins(variants, render, p);
    FirstWins(front, render, p);
    TextAfter(acc, v, render, p);
    if FirstDeclared(front, p).Some? {
      DescriptionIsFirst(front, render, p);
      DescriptionNotLost(front, render, p);
    } else {
      NothingDeclared(front, p);
    }
  }

  lemma {:induction false} NothingDeclared(variants: seq<Value>, p: string)
    requires FirstDeclared(variants, p).None?
    ensures FirstDescription(variants, p).None?
  {
    if variants != [] {
      NothingDeclared(variants[..|variants| - 1], p);
    }
  }

  // ---------------------------------------------------------------- the requirement note

  function Sentence(t: string, labels: seq<string>): string {
    "Required when " + t + "=" + Join(labels, ", ") + "."
  }

  /** `text` is `note` put after `said`, less the whitespace `said` ends with; or it alone, if nothing was. */
  predicate Noted(text: string, said: Option<string>, note: string) {
    match said
    case None => text == note
    case Some(said) =>
      exists n | 0 < n <= |said| ::
        !IsWhitespace(said[n - 1]) && AllWhitespace(said[n..]) && text == said[..n] + " " + note
  }

  lemma {:induction false} LastLetter(text: string) returns (n: nat)
    requires exists i | 0 <= i < |text| :: !IsWhitespace(text[i])
    ensures 0 < n <= |text| && !IsWhitespace(text[n - 1]) && AllWhitespace(text[n..])
  {
    n := |text|;
    if IsWhitespace(text[n - 1]) {
      var front := text[..n - 1];
      var i :| 0 <= i < |text| && !IsWhitespace(text[i]);
      assert front[i] == text[i];
      n := LastLetter(front);
      assert forall k | n <= k < |text| :: IsWhitespace(text[k]) by {
        assert forall k | n <= k < |front| :: front[k] == front[n..][k - n] == text[k];
      }
    }
  }

  lemma SuffixNotes(prop: Object, suffix: string)
    ensures var d := Get(Obj(WithSuffix(prop, suffix)), "description");
      d.Some? && d.value.Str? && Noted(d.value.s, Nonblank(Field(prop, "description")), suffix)
  {
    var said := Nonblank(Field(prop, "description"));
    if said.Some? {
      NonblankExactly(Field(prop, "description"), said.value);
      var n := LastLetter(said.value);
      TrimEndIs(said.value[..n], said.value[n..]);
      assert said.value == said.value[..n] + said.value[n..];
    }
  }

  /** A property that some variant requires keeps what it was described by, and the note follows it. */
  lemma RequirementFollowsDescription(variants: seq<Value>, t: string, render: Value -> string, p: string)
    requires AddVariants(EMPTY, variants, render).tagKey == Some(t) && p != t
    requires FirstDeclared(variants, p).Some? && FirstDeclared(variants, p).value.Obj?
    ensures var acc := AddVariants(EMPTY, variants, render);
      var flat, labels := FlatProps(acc, render), Labels(acc.requiredBy, p);
      && (forall text :: text in labels <==> RequiredFor(variants, t, p, text, render)) && Distinct(labels)
      && p in flat
      && var d := Get(flat[p], "description");
         if labels == [] then Nonblank(d) == FirstDescription(variants, p)
         else d.Some? && d.value.Str? && Noted(d.value.s, FirstDescription(variants, p), Sentence(t, labels))
  {
    var acc := AddVariants(EMPTY, variants, render);
    RequirementsExact(variants, t, p, render);
    DescriptionIsFirst(variants, render, p);
    FirstWins(variants, render, p);
    if Labels(acc.requiredBy, p) != [] {
      SuffixNotes(acc.props[p].fields, Suffix(t, acc.requiredBy[p]));
    }
  }

  // ---------------------------------------------------------------- the discriminator

  /** What the first variant with a value whose discriminator property is described says of it. */
  function FirstTagText(variants: seq<Value>, t: string): Option<string> {
    if variants == [] then None
    else
      var v, before := variants[|variants| - 1], FirstTagText(variants[..|variants| - 1], t);
      if before.Some? || ValueOf(v, t).None? then before
      else Nonblank(Get(VariantProps(v).value[t], "description"))
  }

  lemma {:induction false} TagTextIs(variants: seq<Value>, t: string, render: Value -> string)
    requires TagKeyOf(variants) == Some(t) || TagKeyOf(variants).None?
    ensures AddVariants(EMPTY, variants, render).tagDescription == FirstTagText(variants, t)
  {
    if variants != [] {
      var front, v := variants[..|variants| - 1], variants[|variants| - 1];
      TagKeyIs(variants, render);
      TagKeyIs(front, render);
      TagTextIs(front, t, render);
      if TagKeyOf(variants).None? && VariantProps(v).Some? {
        assert t in ConstNames(VariantProps(v).value) <==> ValueOf(v, t).Some?;
      }
    }
  }

  /** One value in the list: its name, and what describes the variant if anything does. */
  ghost predicate IsItem(item: string, entry: TagEntry, render: Value -> string) {
    exists name ::
      IsNamed(entry.0, name, render) &&
      match Nonblank(entry.1)
      case None => item == "`" + name + "`"
      case Some(text) => item == "`" + name + "`: " + Trim(text)
  }

  /** The flat discriminator's description: the list of its values, if any variant listed is described; else
      what the discriminator property itself was first described by, if it was. */
  lemma DiscriminatorText(variants: seq<Value>, t: string, render: Value -> string)
    requires TagKeyOf(variants) == Some(t)
    ensures var flat, entries := FlatProps(AddVariants(EMPTY, variants, render), render), FirstEntries(variants, t);
      t in flat &&
      var d := Get(flat[t], "description");
      if exists k | 0 <= k < |entries| :: Nonblank(entries[k].1).Some? then
        exists items :: |items| == |entries| && d == Some(Str(Join(items, " \U{B7} ")))
          && forall k | 0 <= k < |items| :: IsItem(items[k], entries[k], render)
      else if FirstTagText(variants, t).Some? then d == Some(Str(FirstTagText(variants, t).value))
      else d == None
  {
    var acc := AddVariants(EMPTY, variants, render);
    TagKeyIs(variants, render);
    EntriesExact(variants, t, render);
    TagTextIs(variants, t, render);
    TagIsUnlabelled(variants, t, render);
    var items := EntryTexts(acc.entries, render);
    forall k | 0 <= k < |items|
      ensures IsItem(items[k], acc.entries[k], render)
    {
      ItemIs(acc.entries[k], render);
    }
  }

  lemma ItemIs(entry: TagEntry, render: Value -> string)
    ensures IsItem(EntryText(entry, render), entry, render)
  {
    assert IsNamed(entry.0, Label(entry.0, render), render);
    if Nonblank(entry.1).Some? {
      EntryTextIs(entry, render);
    }
  }

  // ---------------------------------------------------------------- the root

  /** What flattening leaves at the root, key by key. */
  lemma FlatRootExactly(schema: Object, combinator: string, render: Value -> string)
    requires CombinatorKey(schema) == Some(combinator) && schema[combinator].Arr?
    ensures var t, flat := TagKeyOf(schema[combinator].items), FlattenRoot(schema, render);
      && Field(flat, "type") == Some(Str("object"))
      && (exists props :: Field(flat, "properties") == Some(Obj(props)))
      && Field(flat, "required") == (if t.Some? then Some(Arr([Str(t.value)])) else None)
      && combinator !in flat
      && forall k | k !in {"type", "properties", "required", combinator} :: Field(flat, k) == Field(schema, k)
  {
    TagKeyIs(schema[combinator].items, render);
    var acc := AddVariants(EMPTY, schema[combinator].items, render);
    assert FlattenRoot(schema, render)["properties"] == Obj(FlatProps(acc, render));
  }
}
