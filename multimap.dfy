/** Normalisation of a header-like record into a multimap (`ensureMultimap`). */
module MultiMap {
  import opened Common
  import opened JsValues

  /** A record from names to lists of values. */
  type MultiMap = map<string, seq<string>>

  function LowerChar(c: char): char
  {
    if 'A' <= c <= 'Z' then (c as int - 'A' as int + 'a' as int) as char else c
  }

  /** `toLowerCase` on the ASCII letters. */
  function LowerAscii(s: string): (r: string)
    ensures |r| == |s|
    ensures forall i | 0 <= i < |s| :: r[i] == LowerChar(s[i])
  {
    seq(|s|, i requires 0 <= i < |s| => LowerChar(s[i]))
  }

  predicate NoUpperAscii(s: string)
  {
    forall i | 0 <= i < |s| :: !('A' <= s[i] <= 'Z')
  }

  /** Lowercasing leaves no capital, and it changes exactly the strings that have one. */
  lemma LowerAsciiNoUpper(s: string)
    ensures NoUpperAscii(LowerAscii(s))
    ensures NoUpperAscii(s) <==> LowerAscii(s) == s
  {
    if LowerAscii(s) == s {
      forall i | 0 <= i < |s| ensures !('A' <= s[i] <= 'Z') {
        assert LowerChar(s[i]) == s[i];
      }
    }
  }

  function KeyFor(key: string, lowercaseKeys: bool): string
  {
    if lowercaseKeys then LowerAscii(key) else key
  }

  /** `items.filter(v => v !== undefined && v !== null)`. */
  function Present(items: seq<JsValue>): (r: seq<JsValue>)
    ensures |r| <= |items|
    ensures forall x :: x in r <==> x in items && !Nullish(x)
    decreases |items|
  {
    if |items| == 0 then []
    else if Nullish(items[|items| - 1]) then Present(items[..|items| - 1])
    else Present(items[..|items| - 1]) + [items[|items| - 1]]
  }

  /** Filtering keeps the order of the kept elements. */
  lemma {:induction false} PresentAppend(a: seq<JsValue>, b: seq<JsValue>)
    ensures Present(a + b) == Present(a) + Present(b)
    decreases |b|
  {
    if |b| == 0 {
      assert a + b == a;
    } else {
      var b' := b[..|b| - 1];
      assert (a + b)[..|a + b| - 1] == a + b';
      PresentAppend(a, b');
    }
  }

  /** The list a value becomes: itself, or its elements when it is an array. */
  function AsList(v: JsValue): seq<JsValue>
  {
    if v.Array? then v.items else [v]
  }

  /** The strings of the non-null elements of `AsList(v)`, in order. */
  function ValuesOf(v: JsValue): (r: seq<string>)
    requires HasToString(v)
    ensures !v.Array? ==> r == if Nullish(v) then [] else [ToJsString(v)]
    ensures |r| == |Present(AsList(v))|
  {
    var kept := Present(AsList(v));
    assert forall j | 0 <= j < |kept| :: kept[j] in AsList(v);
    seq(|kept|, j requires 0 <= j < |kept| => ToJsString(kept[j]))
  }

  predicate ValuesHaveToString(entries: seq<(string, JsValue)>)
  {
    forall i | 0 <= i < |entries| :: HasToString(entries[i].1)
  }

  /** The record built from `entries` in order; a later key overwrites an earlier one. */
  function MultimapOf(entries: seq<(string, JsValue)>, lowercaseKeys: bool): MultiMap
    requires ValuesHaveToString(entries)
    decreases |entries|
  {
    if |entries| == 0 then map[]
    else
      var (key, value) := entries[|entries| - 1];
      MultimapOf(entries[..|entries| - 1], lowercaseKeys)[KeyFor(key, lowercaseKeys) := ValuesOf(value)]
  }

  /** One more entry folds in as one more (overwriting) key. */
  lemma MultimapSnoc(entries: seq<(string, JsValue)>, lowercaseKeys: bool, i: int)
    requires ValuesHaveToString(entries) && 0 <= i < |entries|
    ensures ValuesHaveToString(entries[..i]) && ValuesHaveToString(entries[..i + 1])
    ensures MultimapOf(entries[..i + 1], lowercaseKeys)
            == MultimapOf(entries[..i], lowercaseKeys)[KeyFor(entries[i].0, lowercaseKeys) := ValuesOf(entries[i].1)]
  {
    assert entries[..i + 1][..i] == entries[..i];
    assert entries[..i + 1][i] == entries[i];
  }

  /** The keys are exactly the (folded) keys of the entries. */
  lemma {:induction false} MultimapKeys(entries: seq<(string, JsValue)>, lowercaseKeys: bool, k: string)
    requires ValuesHaveToString(entries)
    ensures k in MultimapOf(entries, lowercaseKeys) <==>
      exists i | 0 <= i < |entries| :: KeyFor(entries[i].0, lowercaseKeys) == k
    decreases |entries|
  {
    if |entries| > 0 {
      var prefix := entries[..|entries| - 1];
      MultimapKeys(prefix, lowercaseKeys, k);
      if exists i | 0 <= i < |prefix| :: KeyFor(prefix[i].0, lowercaseKeys) == k {
        var i :| 0 <= i < |prefix| && KeyFor(prefix[i].0, lowercaseKeys) == k;
        assert entries[i] == prefix[i];
      }
      if exists i | 0 <= i < |entries| :: KeyFor(entries[i].0, lowercaseKeys) == k {
        var i :| 0 <= i < |entries| && KeyFor(entries[i].0, lowercaseKeys) == k;
        if i < |prefix| {
          assert prefix[i] == entries[i];
        }
      }
    }
  }

  /** An entry's values are kept unless a later entry folds to the same key. */
  lemma {:induction false} MultimapLastWins(entries: seq<(string, JsValue)>, lowercaseKeys: bool, i: int)
    requires ValuesHaveToString(entries)
    requires 0 <= i < |entries|
    requires forall j | i < j < |entries| :: KeyFor(entries[j].0, lowercaseKeys) != KeyFor(entries[i].0, lowercaseKeys)
    ensures KeyFor(entries[i].0, lowercaseKeys) in MultimapOf(entries, lowercaseKeys)
    ensures MultimapOf(entries, lowercaseKeys)[KeyFor(entries[i].0, lowercaseKeys)] == ValuesOf(entries[i].1)
    decreases |entries|
  {
    if i < |entries| - 1 {
      var prefix := entries[..|entries| - 1];
      assert prefix[i] == entries[i];
      forall j | i < j < |prefix|
        ensures KeyFor(prefix[j].0, lowercaseKeys) != KeyFor(prefix[i].0, lowercaseKeys)
      {
        assert prefix[j] == entries[j];
      }
      MultimapLastWins(prefix, lowercaseKeys, i);
    }
  }

  /** With lowercasing on, no key holds a capital letter. */
  lemma MultimapLowercase(entries: seq<(string, JsValue)>, k: string)
    requires ValuesHaveToString(entries)
    requires k in MultimapOf(entries, true)
    ensures NoUpperAscii(k)
  {
    MultimapKeys(entries, true, k);
    var i :| 0 <= i < |entries| && KeyFor(entries[i].0, true) == k;
    LowerAsciiNoUpper(entries[i].0);
  }

  /** With lowercasing off, every key is an entry's key as written. */
  lemma MultimapVerbatim(entries: seq<(string, JsValue)>, k: string)
    requires ValuesHaveToString(entries)
    ensures k in MultimapOf(entries, false) <==> exists i | 0 <= i < |entries| :: entries[i].0 == k
  {
    MultimapKeys(entries, false, k);
  }

  /** `{"A": "x", "b": ["y", null, "z"]}` with lowercasing gives `{"a": ["x"], "b": ["y", "z"]}`. */
  lemma MultimapExample()
    ensures MultimapOf([("A", Str("x")), ("b", Array([Str("y"), Null, Str("z")]))], true)
            == map["a" := ["x"], "b" := ["y", "z"]]
  {
    var es := [("A", Str("x")), ("b", Array([Str("y"), Null, Str("z")]))];
    assert es[..1] == [("A", Str("x"))];
    assert es[..1][..0] == [];
    assert LowerAscii("A") == "a";
    assert LowerAscii("b") == "b";
    assert ValuesOf(Str("x")) == ["x"];
    var items := [Str("y"), Null, Str("z")];
    assert items[..2] == [Str("y"), Null] && items[..2][..1] == [Str("y")] && items[..2][..1][..0] == [];
    assert Present(items) == [Str("y"), Str("z")];
    assert ValuesOf(Array(items)) == ["y", "z"];
    assert MultimapOf(es[..1], true) == map["a" := ["x"]];
  }

  /**
   * The guest helper: a non-object (or null) input gives an empty record;
   * otherwise each entry's values, as strings, under its (folded) key.
   * Lowercasing is off unless asked for.
   */
  method EnsureMultimap(m: JsValue, lowercaseKeys: Option<bool>) returns (result: MultiMap)
    requires !m.BufferObject? && ValuesHaveToString(Entries(m))
    ensures !IsObject(m) ==> result == map[]
    ensures result == MultimapOf(Entries(m), lowercaseKeys == Some(true))
  {
    result := map[];
    if !IsObject(m) {
      return;
    }
    var lower := lowercaseKeys == Some(true);
    var entries := Entries(m);
    for i := 0 to |entries|
      invariant result == MultimapOf(entries[..i], lower)
    {
      var key := entries[i].0;
      var value := entries[i].1;
      if lower {
        key := LowerAscii(key);
      }
      var items := if value.Array? then value.items else [value];
      var kept := Present(items);
      assert forall j | 0 <= j < |kept| :: kept[j] in items;
      var strings := seq(|kept|, j requires 0 <= j < |kept| => ToJsString(kept[j]));
      MultimapSnoc(entries, lower, i);
      result := result[key := strings];
    }
    assert entries[..|entries|] == entries;
  }
}
