/** Translated messages: the per-locale dictionaries and the dotted-key lookup
    `t(messages, "home.title")` with its fall-back to the key itself. */
module Messages {
  import opened JsPrimitives
  import opened Languages

  /** A parsed JSON message value. `Obj` holds an object's own properties
      (an array is an object whose properties are its index strings); `Other`
      is any value that is neither a string nor an object: a number, a
      boolean or `null`. */
  datatype Json = Str(text: string) | Obj(fields: map<string, Json>) | Other

  /** The three dictionaries, one per locale (the contents of the message
      files, which this model takes as given values). */
  datatype Dictionaries = Dictionaries(hu: Json, ro: Json, en: Json)

  /** `getMessages(lang)`: the dictionary of the given locale. It is defined
      for every `Lang`, since the table has one entry per supported code. */
  function GetMessages(dict: Dictionaries, lang: Lang): (m: Json)
    ensures lang == "hu" ==> m == dict.hu
    ensures lang == "ro" ==> m == dict.ro
    ensures lang == "en" ==> m == dict.en
  {
    var table := map["hu" := dict.hu, "ro" := dict.ro, "en" := dict.en];
    table[lang]
  }

  function DigitValue(c: char): nat
    requires '0' <= c <= '9'
  {
    c as int - '0' as int
  }

  function DecimalValue(s: string): nat
    requires forall k :: 0 <= k < |s| ==> '0' <= s[k] <= '9'
  {
    if s == [] then 0 else DecimalValue(s[..|s| - 1]) * 10 + DigitValue(s[|s| - 1])
  }

  /** The array index a property name denotes on a string value: a canonical
      decimal numeral (`"0"`, or digits without a leading zero). */
  function CanonicalIndex(p: string): (r: Option<nat>)
  {
    if p == "" || (p != "0" && p[0] == '0') then None
    else if forall k :: 0 <= k < |p| ==> '0' <= p[k] <= '9' then Some(DecimalValue(p))
    else None
  }

  /** One step of `cur = cur?.[p]`: `undefined` stays `undefined`; an object
      yields its own property `p` or `undefined`; a string yields its one-
      character substring at a canonical in-range index, a number for
      `"length"`, and `undefined` otherwise; any other value yields
      `undefined`. */
  function Index(cur: Option<Json>, p: string): (r: Option<Json>)
    ensures cur.None? || cur == Some(Other) ==> r.None?
    ensures cur.Some? && cur.value.Obj? ==>
      (r.Some? <==> p in cur.value.fields) && (r.Some? ==> r.value == cur.value.fields[p])
    ensures cur.Some? && cur.value.Str? && r.Some? && r.value.Str? ==>
      |r.value.text| == 1 && r.value.text[0] in cur.value.text
  {
    match cur
    case None => None
    case Some(Obj(fields)) => if p in fields then Some(fields[p]) else None
    case Some(Str(s)) =>
      if p == "length" then Some(Other)
      else (match CanonicalIndex(p)
            case Some(k) => if k < |s| then Some(Str([s[k]])) else None
            case None => None)
    case Some(Other) => None
  }

  /** The loop `for (const p of parts) cur = cur?.[p]`. */
  function Walk(cur: Option<Json>, parts: seq<string>): (r: Option<Json>)
    ensures cur.None? ==> r.None?
    ensures |parts| == 1 ==> r == Index(cur, parts[0])
    decreases |parts|
  {
    if parts == [] then cur else Walk(Index(cur, parts[0]), parts[1..])
  }

  /** `t(messages, key)`: walk the dot-separated segments of `key`; a string
      at the end is the translation, anything else falls back to `key`. */
  function T(messages: Json, key: string): (r: string)
    ensures r == key || Walk(Some(messages), Split(key, '.')) == Some(Str(r))
  {
    var cur := Walk(Some(messages), Split(key, '.'));
    if cur.Some? && cur.value.Str? then cur.value.text else key
  }

  /** Reference reading of a message path: descend through objects only. */
  function Lookup(m: Json, path: seq<string>): Option<Json>
    decreases |path|
  {
    if path == [] then Some(m)
    else match m
      case Obj(fields) => if path[0] in fields then Lookup(fields[path[0]], path[1..]) else None
      case _ => None
  }

  /** Once the walk reaches `undefined` it stays there: optional chaining
      never throws. */
  lemma {:induction false} WalkUndefined(parts: seq<string>)
    ensures Walk(None, parts) == None
    decreases |parts|
  {
    if parts != [] {
      WalkUndefined(parts[1..]);
    }
  }

  /** Walking a concatenated path walks the first part, then the second. */
  lemma {:induction false} WalkAppend(cur: Option<Json>, a: seq<string>, b: seq<string>)
    ensures Walk(cur, a + b) == Walk(Walk(cur, a), b)
    decreases |a|
  {
    if a == [] {
      assert a + b == b;
    } else {
      assert (a + b)[0] == a[0] && (a + b)[1..] == a[1..] + b;
      WalkAppend(Index(cur, a[0]), a[1..], b);
    }
  }

  /** Where the object-only reading finds a value, the walk finds the same one. */
  lemma {:induction false} WalkFollowsLookup(m: Json, path: seq<string>)
    requires Lookup(m, path).Some?
    ensures Walk(Some(m), path) == Lookup(m, path)
    decreases |path|
  {
    if path != [] {
      WalkFollowsLookup(m.fields[path[0]], path[1..]);
    }
  }

  /** A key built from dot-free segments that lead through objects to a
      string translates to that string; if they lead to an object (a
      message group rather than a message), `t` returns the key. */
  lemma DottedKeyLookup(m: Json, path: seq<string>)
    requires |path| >= 1
    requires forall k :: 0 <= k < |path| ==> '.' !in path[k]
    requires Lookup(m, path).Some?
    ensures Lookup(m, path).value.Str? ==>
      T(m, Join(path, '.')) == Lookup(m, path).value.text
    ensures Lookup(m, path).value.Obj? ==> T(m, Join(path, '.')) == Join(path, '.')
  {
    SplitJoin(path, '.');
    WalkFollowsLookup(m, path);
  }

  /** If some segment is missing from the object the walk has reached, `t`
      returns the key verbatim. This covers empty segments (from `".."` or a
      leading or trailing dot), which look up the `""` property. */
  lemma MissingSegmentFallsBack(m: Json, key: string, j: nat)
    requires j < |Split(key, '.')|
    requires var parts := Split(key, '.');
      Lookup(m, parts[..j]).Some? && Lookup(m, parts[..j]).value.Obj?
      && parts[j] !in Lookup(m, parts[..j]).value.fields
    ensures T(m, key) == key
  {
    var parts := Split(key, '.');
    WalkFollowsLookup(m, parts[..j]);
    var suffix := [parts[j]] + parts[j + 1..];
    assert parts == parts[..j] + suffix;
    WalkAppend(Some(m), parts[..j], suffix);
    assert suffix[0] == parts[j] && suffix[1..] == parts[j + 1..];
    assert Walk(Some(m), parts[..j]) == Lookup(m, parts[..j]);
    assert Index(Lookup(m, parts[..j]), parts[j]) == None;
    WalkUndefined(parts[j + 1..]);
    assert Walk(Some(m), parts) == None;
  }

  /** A key without dots is a single top-level property lookup. */
  lemma KeyWithoutDots(fields: map<string, Json>, key: string)
    requires '.' !in key
    ensures T(Obj(fields), key)
      == if key in fields && fields[key].Str? then fields[key].text else key
  {
    SplitJoin([key], '.');
    assert Split(key, '.') == [key];
    assert [key][1..] == [];
    assert Walk(Some(Obj(fields)), [key]) == Walk(Index(Some(Obj(fields)), key), []);
  }

  /** The string-leaf quirk inherited from JavaScript: one more segment after
      a path that reaches a string message indexes that string. A canonical
      in-range numeral yields the character at that position; `"length"` (a
      number), a non-canonical numeral such as `"01"`, an out-of-range index
      or any other name yields no string, so the key comes back. */
  lemma StringLeafIsIndexed(m: Json, path: seq<string>, s: string, p: string)
    requires forall k :: 0 <= k < |path| ==> '.' !in path[k]
    requires '.' !in p
    requires Lookup(m, path) == Some(Str(s))
    ensures var key := Join(path + [p], '.');
      && (CanonicalIndex(p).Some? && CanonicalIndex(p).value < |s| ==>
            T(m, key) == [s[CanonicalIndex(p).value]])
      && (CanonicalIndex(p).Some? && CanonicalIndex(p).value >= |s| ==> T(m, key) == key)
      && (CanonicalIndex(p).None? ==> T(m, key) == key)
  {
    var parts := path + [p];
    assert forall k :: 0 <= k < |parts| ==> '.' !in parts[k] by {
      forall k | 0 <= k < |parts| ensures '.' !in parts[k] {
        if k < |path| { assert parts[k] == path[k]; } else { assert parts[k] == p; }
      }
    }
    SplitJoin(parts, '.');
    WalkFollowsLookup(m, path);
    WalkAppend(Some(m), path, [p]);
  }

  /** The digit-only names that are not array indices, and `"length"`. */
  lemma NonCanonicalNames()
    ensures CanonicalIndex("01") == None && CanonicalIndex("") == None
    ensures CanonicalIndex("length") == None
    ensures CanonicalIndex("0") == Some(0) && CanonicalIndex("12") == Some(12)
  {
    assert !('0' <= "length"[0] <= '9');
    assert DecimalValue("1") == 1;
    assert DecimalValue("12") == DecimalValue("1") * 10 + 2;
  }

  /** A doubled dot looks up the empty property: absent here, so the key
      comes back, while the single-dot key finds the message. */
  lemma DoubleDotFallsBack()
    ensures T(Obj(map["a" := Obj(map["b" := Str("x")])]), "a..b") == "a..b"
    ensures T(Obj(map["a" := Obj(map["b" := Str("x")])]), "a.b") == "x"
  {
    var m := Obj(map["a" := Obj(map["b" := Str("x")])]);
    assert Join(["a", "", "b"], '.') == "a..b";
    assert Join(["a", "b"], '.') == "a.b";
    SplitJoin(["a", "", "b"], '.');
    assert Split("a..b", '.')[..1] == ["a"];
    assert Lookup(m, ["a"]) == Some(Obj(map["b" := Str("x")]));
    MissingSegmentFallsBack(m, "a..b", 1);
    DottedKeyLookup(m, ["a", "b"]);
  }
}
