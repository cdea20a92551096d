/**
 * The request body as a JSON tree, and placing a value at a `/`-separated
 * field path inside it, with the indexing rules of `serde_json::Value`:
 * indexing `null` by a key turns it into an empty object, a missing key
 * reads as `null`, and indexing any other non-object panics.
 */
module JsonBody {
  import opened Common

  datatype Json =
    | JNull
    | JBool(b: bool)
    | JNumber(n: int)
    | JString(s: string)
    | JArray(items: seq<Json>)
    | JObject(fields: map<string, Json>)

  /** The name `serde_json` gives the kind of a value in its panic message. */
  function KindName(j: Json): string
  {
    match j
    case JNull => "null"
    case JBool(_) => "boolean"
    case JNumber(_) => "number"
    case JString(_) => "string"
    case JArray(_) => "array"
    case JObject(_) => "object"
  }

  // ---------------------------------------------------------------------------
  // Splitting a field name into keys

  predicate NoSlash(s: string)
  {
    forall i | 0 <= i < |s| :: s[i] != '/'
  }

  /** Length of the leading run of characters other than '/'. */
  function RunLength(s: string): (k: nat)
    ensures k <= |s| && NoSlash(s[..k])
    ensures k < |s| ==> s[k] == '/'
    decreases |s|
  {
    if |s| == 0 || s[0] == '/' then 0
    else
      var k := 1 + RunLength(s[1..]);
      assert forall i | 1 <= i < k :: s[..k][i] == s[1..][..k - 1][i - 1];
      k
  }

  function WithoutSlashes(s: string): string
    decreases |s|
  {
    if |s| == 0 then "" else (if s[0] == '/' then "" else [s[0]]) + WithoutSlashes(s[1..])
  }

  function Concat(parts: seq<string>): string
    decreases |parts|
  {
    if |parts| == 0 then "" else parts[0] + Concat(parts[1..])
  }

  lemma {:induction false} WithoutSlashesAppend(a: string, b: string)
    ensures WithoutSlashes(a + b) == WithoutSlashes(a) + WithoutSlashes(b)
    decreases |a|
  {
    if |a| == 0 {
      assert a + b == b;
    } else {
      assert (a + b)[1..] == a[1..] + b;
      WithoutSlashesAppend(a[1..], b);
    }
  }

  lemma {:induction false} WithoutSlashesNoSlash(s: string)
    requires NoSlash(s)
    ensures WithoutSlashes(s) == s
    decreases |s|
  {
    if |s| > 0 {
      WithoutSlashesNoSlash(s[1..]);
    }
  }

  /**
   * The non-empty pieces between '/' characters (Rust's `split('/')` with the
   * empty pieces filtered out): non-empty, free of '/', and together exactly
   * the characters of `s` other than '/', in order.
   */
  function Segments(s: string): (r: seq<string>)
    ensures forall i | 0 <= i < |r| :: |r[i]| > 0 && NoSlash(r[i])
    ensures Concat(r) == WithoutSlashes(s)
    decreases |s|
  {
    if |s| == 0 then []
    else if s[0] == '/' then Segments(s[1..])
    else
      var k := RunLength(s);
      assert s == s[..k] + s[k..];
      WithoutSlashesAppend(s[..k], s[k..]);
      WithoutSlashesNoSlash(s[..k]);
      [s[..k]] + Segments(s[k..])
  }

  /** The leading run stops at the first '/', so a slash after it does not move it. */
  lemma {:induction false} RunLengthBeforeSlash(a: string, b: string)
    ensures RunLength(a + "/" + b) == RunLength(a)
    decreases |a|
  {
    var t := a + "/" + b;
    if |a| > 0 && a[0] != '/' {
      assert t[0] == a[0] && t[1..] == a[1..] + "/" + b;
      RunLengthBeforeSlash(a[1..], b);
    } else if |a| == 0 {
      assert t[0] == '/';
    }
  }

  /** A '/' separates segments: the segments of `a/b` are those of `a` followed by those of `b`. */
  lemma {:induction false} SegmentsAtSlash(a: string, b: string)
    ensures Segments(a + "/" + b) == Segments(a) + Segments(b)
    decreases |a|
  {
    var t := a + "/" + b;
    if |a| == 0 {
      assert t == "/" + b && t[1..] == b;
    } else if a[0] == '/' {
      assert t[1..] == a[1..] + "/" + b;
      SegmentsAtSlash(a[1..], b);
    } else {
      var k := RunLength(a);
      RunLengthBeforeSlash(a, b);
      assert t[..k] == a[..k];
      assert t[k..] == a[k..] + "/" + b;
      SegmentsAtSlash(a[k..], b);
      AppendAssoc([a[..k]], Segments(a[k..]), Segments(b));
    }
  }

  /** A name without '/' is one segment, or none when it is empty. */
  lemma SegmentsOfSlashFree(s: string)
    requires NoSlash(s)
    ensures Segments(s) == if s == "" then [] else [s]
  {
    if s != "" {
      var k := RunLength(s);
      assert k == |s|;
      assert s[..k] == s && s[k..] == "";
    }
  }

  /** A name starting with '/' is a path of segments; any other name is a single key. */
  function BodyKeys(name: string): seq<string>
  {
    if |name| > 0 && name[0] == '/' then Segments(name) else [name]
  }

  lemma {:induction false} ConcatEmpty(parts: seq<string>)
    ensures Concat(parts) == "" <==> forall i | 0 <= i < |parts| :: parts[i] == ""
    decreases |parts|
  {
    if |parts| > 0 {
      ConcatEmpty(parts[1..]);
      assert forall i | 1 <= i < |parts| :: parts[i] == parts[1..][i - 1];
    }
  }

  lemma {:induction false} WithoutSlashesEmpty(s: string)
    ensures WithoutSlashes(s) == "" <==> forall i | 0 <= i < |s| :: s[i] == '/'
    decreases |s|
  {
    if |s| > 0 {
      WithoutSlashesEmpty(s[1..]);
      assert forall i | 1 <= i < |s| :: s[i] == s[1..][i - 1];
    }
  }

  /** There are no keys exactly when the name is one or more '/' and nothing else. */
  lemma BodyKeysEmpty(name: string)
    ensures BodyKeys(name) == [] <==> |name| > 0 && forall i | 0 <= i < |name| :: name[i] == '/'
  {
    if |name| > 0 && name[0] == '/' {
      var r := Segments(name);
      ConcatEmpty(r);
      WithoutSlashesEmpty(name);
      if r != [] {
        assert |r[0]| > 0;
      }
    }
  }

  // ---------------------------------------------------------------------------
  // Reading and writing along a path

  /** The value at `path`, reading a missing key or a non-object as null. */
  function Get(node: Json, path: seq<string>): Json
    decreases |path|
  {
    if |path| == 0 then node
    else if node.JObject? && path[0] in node.fields then Get(node.fields[path[0]], path[1..])
    else JNull
  }

  /** A value that `serde_json` can index by a key without panicking. */
  predicate Indexable(node: Json)
  {
    node.JObject? || node.JNull?
  }

  /** The fields seen when indexing: null behaves as an empty object. */
  function FieldsOf(node: Json): map<string, Json>
    requires Indexable(node)
  {
    if node.JObject? then node.fields else map[]
  }

  /**
   * Sets the value at `keys`, requiring every intermediate value to be an
   * object. Failure(d) names the first prefix `keys[..d + 1]` that is not.
   */
  function Assign(node: Json, keys: seq<string>, value: Json): (r: Result<Json, nat>)
    requires |keys| > 0 && Indexable(node)
    ensures r.Failure? ==> r.error + 1 < |keys|
    decreases |keys|
  {
    var fields := FieldsOf(node);
    if |keys| == 1 then Success(JObject(fields[keys[0] := value]))
    else
      var child := if keys[0] in fields then fields[keys[0]] else JNull;
      if !child.JObject? then Failure(0)
      else
        match Assign(child, keys[1..], value)
        case Failure(d) => Failure(d + 1)
        case Success(c) => Success(JObject(fields[keys[0] := c]))
  }

  /** One level of Assign: writing below an object child rebuilds the parent around it. */
  lemma AssignStep(parent: Json, keys: seq<string>, value: Json, c: Json)
    requires |keys| > 1 && Indexable(parent)
    requires keys[0] in FieldsOf(parent) && FieldsOf(parent)[keys[0]].JObject?
    requires Assign(FieldsOf(parent)[keys[0]], keys[1..], value) == Success(c)
    ensures Assign(parent, keys, value) == Success(JObject(FieldsOf(parent)[keys[0] := c]))
  {
  }

  lemma GetFirst(node: Json, k: string)
    requires Indexable(node)
    ensures Get(node, [k]) == if k in FieldsOf(node) then FieldsOf(node)[k] else JNull
  {
  }

  lemma {:induction false} GetSnoc(node: Json, path: seq<string>, k: string)
    ensures Get(node, path + [k]) ==
      var p := Get(node, path); if p.JObject? && k in p.fields then p.fields[k] else JNull
    decreases |path|
  {
    if |path| > 0 {
      assert (path + [k])[0] == path[0] && (path + [k])[1..] == path[1..] + [k];
      if node.JObject? && path[0] in node.fields {
        GetSnoc(node.fields[path[0]], path[1..], k);
      }
    } else {
      assert path + [k] == [k];
    }
  }

  /**
   * Assign succeeds exactly when every proper prefix of the keys leads to an
   * object, and otherwise fails at the first prefix that does not.
   */
  lemma {:induction false} AssignOutcome(node: Json, keys: seq<string>, value: Json)
    requires |keys| > 0 && Indexable(node)
    ensures Assign(node, keys, value).Success? <==> forall j | 0 < j < |keys| :: Get(node, keys[..j]).JObject?
    ensures Assign(node, keys, value).Failure? ==>
      var d := Assign(node, keys, value).error;
      && d + 1 < |keys|
      && !Get(node, keys[..d + 1]).JObject?
      && forall j | 0 < j <= d :: Get(node, keys[..j]).JObject?
    decreases |keys|
  {
    if |keys| > 1 {
      var fields := FieldsOf(node);
      var child := if keys[0] in fields then fields[keys[0]] else JNull;
      assert keys[..1] == [keys[0]];
      GetFirst(node, keys[0]);
      if child.JObject? {
        var rest := keys[1..];
        AssignOutcome(child, rest, value);
        forall j | 0 <= j < |rest| ensures Get(node, keys[..j + 1]) == Get(child, rest[..j]) {
          assert keys[..j + 1][0] == keys[0] && keys[..j + 1][1..] == rest[..j];
        }
        if Assign(node, keys, value).Success? {
          forall j | 0 < j < |keys| ensures Get(node, keys[..j]).JObject? {
            if j > 1 {
              assert Get(node, keys[..(j - 1) + 1]) == Get(child, rest[..j - 1]);
            }
          }
        } else {
          var d := Assign(child, rest, value).error;
          assert Get(node, keys[..d + 2]) == Get(child, rest[..d + 1]);
          forall j | 0 < j <= d + 1 ensures Get(node, keys[..j]).JObject? {
            if j > 1 {
              assert Get(node, keys[..(j - 1) + 1]) == Get(child, rest[..j - 1]);
            }
          }
        }
      }
    }
  }

  /** After a successful Assign, the path reads back the value written. */
  lemma {:induction false} AssignThenGet(node: Json, keys: seq<string>, value: Json)
    requires |keys| > 0 && Indexable(node)
    requires Assign(node, keys, value).Success?
    ensures Get(Assign(node, keys, value).value, keys) == value
    decreases |keys|
  {
    if |keys| > 1 {
      var fields := FieldsOf(node);
      AssignThenGet(fields[keys[0]], keys[1..], value);
    }
  }

  /**
   * After a successful Assign, every path that leaves `keys` at position `j`
   * reads the same as before: nothing else in the body changes.
   */
  lemma {:induction false} AssignKeepsOthers(node: Json, keys: seq<string>, value: Json, p: seq<string>, j: nat)
    requires |keys| > 0 && Indexable(node)
    requires Assign(node, keys, value).Success?
    requires j < |p| && j < |keys| && p[..j] == keys[..j] && p[j] != keys[j]
    ensures Get(Assign(node, keys, value).value, p) == Get(node, p)
    decreases |keys|
  {
    var fields := FieldsOf(node);
    if j > 0 {
      assert p[0] == p[..j][0] == keys[..j][0] == keys[0];
      var child := fields[keys[0]];
      assert p[1..][..j - 1] == keys[1..][..j - 1] by {
        assert p[1..][..j - 1] == p[..j][1..] && keys[1..][..j - 1] == keys[..j][1..];
      }
      assert p[1..][j - 1] == p[j] && keys[1..][j - 1] == keys[j];
      AssignKeepsOthers(child, keys[1..], value, p[1..], j - 1);
    }
  }

  /**
   * Walks `keys` down from the root as the body rewrite does, checking that
   * each intermediate value is an object, then writes the leaf and rebuilds
   * the path from the leaf back to the root.
   */
  method SetAtPath(body: Json, keys: seq<string>, value: Json) returns (r: Result<Json, nat>)
    requires |keys| > 0 && Indexable(body)
    ensures r == Assign(body, keys, value)
  {
    var ancestors: seq<Json> := [body];
    var nested := body;
    var keyIdx := 0;
    while keyIdx < |keys| - 1
      invariant 0 <= keyIdx <= |keys| - 1
      invariant |ancestors| == keyIdx + 1
      invariant forall j | 0 <= j <= keyIdx :: ancestors[j] == Get(body, keys[..j])
      invariant forall j | 0 < j <= keyIdx :: ancestors[j].JObject?
      invariant nested == ancestors[keyIdx] && Indexable(nested)
    {
      var fields := FieldsOf(nested);
      nested := if keys[keyIdx] in fields then fields[keys[keyIdx]] else JNull;
      GetSnoc(body, keys[..keyIdx], keys[keyIdx]);
      assert keys[..keyIdx] + [keys[keyIdx]] == keys[..keyIdx + 1];
      if !nested.JObject? {
        AssignOutcome(body, keys, value);
        return Failure(keyIdx);
      }
      ancestors := ancestors + [nested];
      keyIdx := keyIdx + 1;
    }

    var cur := JObject(FieldsOf(nested)[keys[keyIdx] := value]);
    assert keys[keyIdx..] == [keys[keyIdx]];
    var j := keyIdx;
    while j > 0
      invariant 0 <= j <= keyIdx
      invariant Assign(ancestors[j], keys[j..], value) == Success(cur)
    {
      j := j - 1;
      GetSnoc(body, keys[..j], keys[j]);
      assert keys[..j] + [keys[j]] == keys[..j + 1];
      assert keys[j..][1..] == keys[j + 1..];
      assert keys[j..][0] == keys[j];
      assert Indexable(ancestors[j]);
      assert keys[j] in FieldsOf(ancestors[j]) && FieldsOf(ancestors[j])[keys[j]] == ancestors[j + 1];
      AssignStep(ancestors[j], keys[j..], value, cur);
      cur := JObject(FieldsOf(ancestors[j])[keys[j] := cur]);
    }
    assert keys[0..] == keys;
    return Success(cur);
  }
}
