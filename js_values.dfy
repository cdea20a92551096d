/**
 * The JavaScript values the guest's helpers inspect, and their conversion to
 * a string (`toString`) for the integer-valued part of the number line.
 */
module JsValues {
  import opened Common

  /**
   * `Object` lists its own enumerable properties in the order `Object.entries`
   * yields them; `BufferObject` is a `Buffer` instance wrapping `Bytes`.
   */
  datatype JsValue =
    | Undefined
    | Null
    | Bool(b: bool)
    | Number(n: int)
    | Str(s: string)
    | Array(items: seq<JsValue>)
    | Object(entries: seq<(string, JsValue)>)
    | BufferObject(bytes: seq<byte>)

  /** `v === undefined || v === null`. */
  predicate Nullish(v: JsValue)
  {
    v.Undefined? || v.Null?
  }

  /** `typeof v === 'object' && v !== null`. */
  predicate IsObject(v: JsValue)
  {
    v.Array? || v.Object? || v.BufferObject?
  }

  /** The value of property `key`, `undefined` when there is none. */
  function Get(v: JsValue, key: string): (r: JsValue)
    ensures r != Undefined ==> v.Object? && exists i | 0 <= i < |v.entries| :: v.entries[i] == (key, r)
  {
    if v.Object? then Lookup(v.entries, key) else Undefined
  }

  function Lookup(entries: seq<(string, JsValue)>, key: string): (r: JsValue)
    ensures r != Undefined ==> exists i | 0 <= i < |entries| :: entries[i] == (key, r)
    decreases |entries|
  {
    if |entries| == 0 then Undefined
    else if entries[0].0 == key then entries[0].1
    else
      var r := Lookup(entries[1..], key);
      assert r != Undefined ==> exists i | 0 <= i < |entries[1..]| :: entries[1..][i] == (key, r);
      r
  }

  /** A present key reads as the value of its first entry. */
  lemma {:induction false} LookupFirst(entries: seq<(string, JsValue)>, key: string, i: nat)
    requires i < |entries| && entries[i].0 == key
    requires forall j | 0 <= j < i :: entries[j].0 != key
    ensures Lookup(entries, key) == entries[i].1
    decreases i
  {
    if i > 0 {
      assert entries[0].0 != key;
      forall j | 0 <= j < i - 1 ensures entries[1..][j].0 != key {
        assert entries[1..][j] == entries[j + 1];
      }
      LookupFirst(entries[1..], key, i - 1);
    }
  }

  /** An absent key reads as `undefined`. */
  lemma {:induction false} LookupAbsent(entries: seq<(string, JsValue)>, key: string)
    requires forall j | 0 <= j < |entries| :: entries[j].0 != key
    ensures Lookup(entries, key) == Undefined
    decreases |entries|
  {
    if |entries| > 0 {
      assert entries[0].0 != key;
      forall j | 0 <= j < |entries| - 1 ensures entries[1..][j].0 != key {
        assert entries[1..][j] == entries[j + 1];
      }
      LookupAbsent(entries[1..], key);
    }
  }

  function DigitChar(d: int): (c: char)
    requires 0 <= d < 10
    ensures '0' <= c <= '9'
  {
    ('0' as int + d) as char
  }

  /** Decimal digits of `n`, without leading zeros. */
  function NatToString(n: nat): (s: string)
    ensures |s| > 0 && (forall i | 0 <= i < |s| :: '0' <= s[i] <= '9')
    ensures |s| > 1 ==> s[0] != '0'
    decreases n
  {
    if n < 10 then [DigitChar(n)] else NatToString(n / 10) + [DigitChar(n % 10)]
  }

  /** The decimal numeral of `n`, parsed back. */
  function DigitsValue(s: string): int
    decreases |s|
  {
    if |s| == 0 then 0 else DigitsValue(s[..|s| - 1]) * 10 + (s[|s| - 1] as int - '0' as int)
  }

  lemma {:induction false} NatToStringValue(n: nat)
    ensures DigitsValue(NatToString(n)) == n
    decreases n
  {
    var s := NatToString(n);
    if n >= 10 {
      NatToStringValue(n / 10);
      assert s[..|s| - 1] == NatToString(n / 10);
    }
  }

  /** Distinct numbers have distinct numerals, so array indices give distinct keys. */
  lemma NatToStringInjective(m: nat, n: nat)
    requires NatToString(m) == NatToString(n)
    ensures m == n
  {
    NatToStringValue(m);
    NatToStringValue(n);
  }

  function IntToString(n: int): string
  {
    if n < 0 then "-" + NatToString(-n) else NatToString(n)
  }

  /** Values whose `toString` is modelled: no `Buffer`, including inside arrays. */
  predicate HasToString(v: JsValue)
    decreases v
  {
    match v
    case BufferObject(_) => false
    case Array(items) => forall i | 0 <= i < |items| :: HasToString(items[i])
    case _ => true
  }

  /**
   * `String(v)`: arrays join their elements with "," (null and undefined
   * elements as ""), and plain objects give "[object Object]".
   */
  function ToJsString(v: JsValue): string
    requires HasToString(v)
    decreases v, 1
  {
    match v
    case Undefined => "undefined"
    case Null => "null"
    case Bool(b) => if b then "true" else "false"
    case Number(n) => IntToString(n)
    case Str(s) => s
    case Array(items) => Join(seq(|items|, i requires 0 <= i < |items| => ElementString(items[i])), ",")
    case Object(_) => "[object Object]"
  }

  /** How `Array.prototype.join` renders one element. */
  function ElementString(v: JsValue): string
    requires HasToString(v)
    decreases v, 2
  {
    if Nullish(v) then "" else ToJsString(v)
  }

  /** The key/value pairs `Object.entries` gives: index keys for an array. */
  function Entries(v: JsValue): (es: seq<(string, JsValue)>)
    requires !v.BufferObject?
    ensures v.Array? ==> |es| == |v.items|
    ensures v.Array? ==> forall i | 0 <= i < |es| :: es[i] == (NatToString(i), v.items[i])
    ensures !v.Array? && !v.Object? ==> es == []
  {
    match v
    case Object(entries) => entries
    case Array(items) => seq(|items|, i requires 0 <= i < |items| => (NatToString(i), items[i]))
    case _ => []
  }
}
