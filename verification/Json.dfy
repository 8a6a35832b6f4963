/** JSON values as `serde_json` holds them.

    An object is a map: `serde_json::Map` is a `BTreeMap` in this crate (no `preserve_order`), so
    two objects with the same entries are the same value, and iterating one visits its keys in
    ascending string order. `LeastKey` gives that order where a rewrite depends on it. */
module Json {
  datatype Option<+T> = None | Some(value: T)

  /** Numbers are only ever compared for equality, or for being an integer, so a real suffices. */
  datatype Value =
    | Null
    | Bool(b: bool)
    | Num(n: real)
    | Str(s: string)
    | Arr(items: seq<Value>)
    | Obj(fields: Object)

  type Object = map<string, Value>

  /** What a map holds under a key. */
  function Lookup<K, V>(m: map<K, V>, key: K): Option<V> {
    if key in m then Some(m[key]) else None
  }

  /** `Value::get(key)`: the field of an object, nothing on any other value. */
  function Get(v: Value, key: string): Option<Value> {
    if v.Obj? && key in v.fields then Some(v.fields[key]) else None
  }

  // ---------------------------------------------------------------- key order

  predicate StrLe(a: string, b: string) {
    a == [] || (b != [] && (a[0] < b[0] || (a[0] == b[0] && StrLe(a[1..], b[1..]))))
  }

  lemma {:induction false} StrLeTotal(a: string, b: string)
    ensures StrLe(a, b) || StrLe(b, a)
  {
    if a != [] && b != [] && a[0] == b[0] {
      StrLeTotal(a[1..], b[1..]);
    }
  }

  lemma {:induction false} StrLeTransitive(a: string, b: string, c: string)
    requires StrLe(a, b) && StrLe(b, c)
    ensures StrLe(a, c)
  {
    if a != [] && a[0] == b[0] && b[0] == c[0] {
      StrLeTransitive(a[1..], b[1..], c[1..]);
    }
  }

  lemma {:induction false} StrLeAntisymmetric(a: string, b: string)
    requires StrLe(a, b) && StrLe(b, a)
    ensures a == b
  {
    if a != [] {
      StrLeAntisymmetric(a[1..], b[1..]);
      assert a == [a[0]] + a[1..] && b == [b[0]] + b[1..];
    }
  }

  predicate IsLeast(k: string, keys: set<string>) {
    k in keys && forall other | other in keys :: StrLe(k, other)
  }

  lemma {:induction false} LeastExists(keys: set<string>)
    requires keys != {}
    ensures exists k :: IsLeast(k, keys)
  {
    var k :| k in keys;
    StrLeTotal(k, k);
    if keys == {k} {
      assert IsLeast(k, keys);
    } else {
      LeastExists(keys - {k});
      var m :| IsLeast(m, keys - {k});
      StrLeTotal(k, m);
      var least := if StrLe(k, m) then k else m;
      forall other | other in keys
        ensures StrLe(least, other)
      {
        if other != k && least == k {
          StrLeTransitive(k, m, other);
        }
      }
      assert IsLeast(least, keys);
    }
  }

  /** The first key a `BTreeMap` iteration visits. */
  function LeastKey(keys: set<string>): (k: string)
    requires keys != {}
    ensures IsLeast(k, keys)
  {
    LeastExists(keys);
    LeastUnique(keys);
    var k :| k in keys && IsLeast(k, keys);
    k
  }

  lemma LeastUnique(keys: set<string>)
    ensures forall a, b | IsLeast(a, keys) && IsLeast(b, keys) :: a == b
  {
    forall a, b | IsLeast(a, keys) && IsLeast(b, keys)
      ensures a == b
    {
      StrLeAntisymmetric(a, b);
    }
  }

  // ---------------------------------------------------------------- blank text

  /** `char::is_whitespace`: the code points with the Unicode White_Space property. */
  predicate IsWhitespace(c: char) {
    c in {'\t', '\n', '\U{0B}', '\U{0C}', '\r', ' ', '\U{85}', '\U{A0}', '\U{1680}', '\U{2028}', '\U{2029}',
          '\U{202F}', '\U{205F}', '\U{3000}'}
    || '\U{2000}' <= c <= '\U{200A}'
  }

  function TrimEnd(s: string): (r: string)
    ensures r <= s
  {
    if s != [] && IsWhitespace(s[|s| - 1]) then TrimEnd(s[..|s| - 1]) else s
  }

  function TrimStart(s: string): string {
    if s != [] && IsWhitespace(s[0]) then TrimStart(s[1..]) else s
  }

  function Trim(s: string): string {
    TrimEnd(TrimStart(s))
  }

  predicate IsBlank(s: string) {
    forall c | c in s :: IsWhitespace(c)
  }

  /** `nonblank`: the text of a string value that is present and not blank. */
  function Nonblank(v: Option<Value>): Option<string> {
    match v
    case Some(Str(s)) => if IsBlank(s) then None else Some(s)
    case _ => None
  }

  predicate AllWhitespace(s: string) {
    forall i | 0 <= i < |s| :: IsWhitespace(s[i])
  }

  /** A text that neither begins nor ends with whitespace. */
  predicate IsTrimmed(s: string) {
    s != [] && !IsWhitespace(s[0]) && !IsWhitespace(s[|s| - 1])
  }

  /** `Nonblank` is about text with something in it besides whitespace, and gives it as it is. */
  lemma NonblankExactly(v: Option<Value>, text: string)
    ensures Nonblank(v) == Some(text) <==>
      v == Some(Str(text)) && exists i | 0 <= i < |text| :: !IsWhitespace(text[i])
  {
    if v == Some(Str(text)) && !IsBlank(text) {
      var c :| c in text && !IsWhitespace(c);
      var i :| 0 <= i < |text| && text[i] == c;
    }
  }

  /** `trim_end` leaves what comes up to the last character that is not whitespace. */
  lemma {:induction false} TrimEndIs(head: string, tail: string)
    requires AllWhitespace(tail) && (head == [] || !IsWhitespace(head[|head| - 1]))
    ensures TrimEnd(head + tail) == head
  {
    if tail == [] {
      assert head + tail == head;
    } else {
      var front := tail[..|tail| - 1];
      assert (head + tail)[..|head + tail| - 1] == head + front;
      TrimEndIs(head, front);
    }
  }

  lemma {:induction false} TrimStartIs(front: string, rest: string)
    requires AllWhitespace(front) && (rest == [] || !IsWhitespace(rest[0]))
    ensures TrimStart(front + rest) == rest
  {
    if front == [] {
      assert front + rest == rest;
    } else {
      assert (front + rest)[1..] == front[1..] + rest;
      TrimStartIs(front[1..], rest);
    }
  }

  /** `trim` leaves what lies between the first such character and the last. */
  lemma TrimIs(front: string, text: string, tail: string)
    requires AllWhitespace(front) && IsTrimmed(text) && AllWhitespace(tail)
    ensures Trim(front + text + tail) == text
  {
    assert front + text + tail == front + (text + tail);
    TrimStartIs(front, text + tail);
    TrimEndIs(text, tail);
  }
}
