/**
 * How a `Buffer` crosses the JSON message boundary: the replacer writes it as
 * the tagged shape `{ type: "Buffer", data: [...] }` and the reviver turns
 * that shape back into a `Buffer`.
 */
module MapValueJson {
  import opened Common
  import opened JsValues

  function ByteNumbers(bytes: seq<byte>): (r: seq<JsValue>)
    ensures |r| == |bytes|
    ensures forall i | 0 <= i < |bytes| :: r[i] == Number(bytes[i])
  {
    seq(|bytes|, i requires 0 <= i < |bytes| => Number(bytes[i]))
  }

  /** The tagged shape of a buffer holding `bytes`. */
  function Tagged(bytes: seq<byte>): (r: JsValue)
    ensures Get(r, "type") == Str("Buffer") && Get(r, "data") == Array(ByteNumbers(bytes))
  {
    var entries := [("type", Str("Buffer")), ("data", Array(ByteNumbers(bytes)))];
    assert entries[1..] == [("data", Array(ByteNumbers(bytes)))];
    assert "type" != "data" by {
      assert "type"[0] != "data"[0];
    }
    assert Lookup(entries[1..], "data") == Array(ByteNumbers(bytes));
    assert Lookup(entries, "data") == Lookup(entries[1..], "data");
    Object(entries)
  }

  /** `jsonReplacerMapValue`: a buffer becomes its tagged shape, every other value stays. */
  function Replacer(key: string, value: JsValue): (r: JsValue)
    ensures !r.BufferObject?
    ensures !value.BufferObject? ==> r == value
    ensures value.BufferObject? ==>
      && Get(r, "type") == Str("Buffer")
      && Get(r, "data").Array?
      && |Get(r, "data").items| == |value.bytes|
      && forall i | 0 <= i < |value.bytes| :: Get(r, "data").items[i] == Number(value.bytes[i])
  {
    if value.BufferObject? then Tagged(value.bytes) else value
  }

  /** One element of `Buffer.from(array)`: a number modulo 256, anything else 0. */
  function ByteOf(v: JsValue): byte
  {
    if v.Number? then v.n % 256 else 0
  }

  function BytesOf(items: seq<JsValue>): (r: seq<byte>)
    ensures |r| == |items|
    ensures forall i | 0 <= i < |items| :: r[i] == ByteOf(items[i])
  {
    seq(|items|, i requires 0 <= i < |items| => ByteOf(items[i]))
  }

  /** An object whose `type` is "Buffer" and whose `data` is an array. */
  predicate IsTagged(value: JsValue)
  {
    IsObject(value) && Get(value, "type") == Str("Buffer") && Get(value, "data").Array?
  }

  /** `jsonReviverMapValue`: a tagged shape becomes a buffer, every other value stays. */
  function Reviver(key: string, value: JsValue): (r: JsValue)
    ensures r != value <==> IsTagged(value)
    ensures IsTagged(value) ==> r == BufferObject(BytesOf(Get(value, "data").items))
  {
    if IsObject(value) && Get(value, "type") == Str("Buffer") && Get(value, "data").Array? then
      BufferObject(BytesOf(Get(value, "data").items))
    else value
  }

  /** A buffer written by the replacer is read back by the reviver as the same buffer. */
  lemma ReviverUndoesReplacer(bytes: seq<byte>, k1: string, k2: string)
    ensures Reviver(k2, Replacer(k1, BufferObject(bytes))) == BufferObject(bytes)
  {
    var back := BytesOf(ByteNumbers(bytes));
    assert back == bytes;
  }

  /** A tagged shape that holds only octets and no other property is written back as it was read. */
  lemma ReplacerUndoesReviver(value: JsValue, k1: string, k2: string)
    requires IsTagged(value) && value.Object? && |value.entries| == 2
    requires value.entries[0].0 == "type" && value.entries[1].0 == "data"
    requires forall i | 0 <= i < |Get(value, "data").items| :: Get(value, "data").items[i].Number? && 0 <= Get(value, "data").items[i].n < 256
    ensures Replacer(k2, Reviver(k1, value)) == value
  {
    var items := Get(value, "data").items;
    assert ByteNumbers(BytesOf(items)) == items;
    assert value.entries == [("type", Str("Buffer")), ("data", Array(items))];
  }

  /**
   * The value tree `JSON.stringify(value, jsonReplacerMapValue)` writes: the
   * replacer is applied to each value before its children are visited.
   * The tagged shape holds only strings and numbers, which the replacer leaves alone.
   */
  /** No `Buffer` anywhere in the tree: not at the root, not in an element, not in a member. */
  predicate NoBuffer(v: JsValue)
    decreases v
  {
    match v
    case BufferObject(_) => false
    case Array(items) => forall i | 0 <= i < |items| :: NoBuffer(items[i])
    case Object(entries) => forall i | 0 <= i < |entries| :: NoBuffer(entries[i].1)
    case _ => true
  }

  function Stringified(key: string, value: JsValue): (r: JsValue)
    ensures NoBuffer(r)
    decreases value
  {
    match value
    case BufferObject(_) => Replacer(key, value)
    case Array(items) => Array(seq(|items|, i requires 0 <= i < |items| => Stringified(NatToString(i), items[i])))
    case Object(entries) => Object(seq(|entries|, i requires 0 <= i < |entries| => (entries[i].0, Stringified(entries[i].0, entries[i].1))))
    case _ => Replacer(key, value)
  }

  /**
   * The value tree `JSON.parse(text, jsonReviverMapValue)` returns: the
   * reviver is applied to each value after its children.
   */
  function Revived(key: string, value: JsValue): JsValue
    decreases value
  {
    var children :=
      match value
      case Array(items) => Array(seq(|items|, i requires 0 <= i < |items| => Revived(NatToString(i), items[i])))
      case Object(entries) => Object(seq(|entries|, i requires 0 <= i < |entries| => (entries[i].0, Revived(entries[i].0, entries[i].1))))
      case _ => value;
    Reviver(key, children)
  }

  /** No object in the tree has a `type` of "Buffer" of its own. */
  predicate NoTagLookalike(value: JsValue)
    decreases value
  {
    match value
    case Array(items) => forall i | 0 <= i < |items| :: NoTagLookalike(items[i])
    case Object(entries) =>
      && Lookup(entries, "type") != Str("Buffer")
      && forall i | 0 <= i < |entries| :: NoTagLookalike(entries[i].1)
    case _ => true
  }

  /**
   * Writing a tree and reading it back restores every buffer in it, at any
   * depth, as long as no object of its own already looks like a tagged buffer.
   */
  lemma {:induction false} RevivedStringified(key: string, value: JsValue)
    requires NoTagLookalike(value)
    ensures Revived(key, Stringified(key, value)) == value
    decreases value
  {
    match value
    case BufferObject(bytes) =>
      var t := Tagged(bytes);
      var numbers := ByteNumbers(bytes);
      forall i | 0 <= i < |numbers| ensures Revived(NatToString(i), numbers[i]) == numbers[i] {
      }
      var revivedNumbers := seq(|numbers|, i requires 0 <= i < |numbers| => Revived(NatToString(i), numbers[i]));
      assert revivedNumbers == numbers;
      var revivedEntries := seq(|t.entries|, i requires 0 <= i < |t.entries| => (t.entries[i].0, Revived(t.entries[i].0, t.entries[i].1)));
      assert revivedEntries == t.entries;
      ReviverUndoesReplacer(bytes, key, key);
    case Array(items) =>
      var written := seq(|items|, i requires 0 <= i < |items| => Stringified(NatToString(i), items[i]));
      forall i | 0 <= i < |items| ensures Revived(NatToString(i), written[i]) == items[i] {
        RevivedStringified(NatToString(i), items[i]);
      }
      var back := seq(|written|, i requires 0 <= i < |written| => Revived(NatToString(i), written[i]));
      assert back == items;
    case Object(entries) =>
      var written := seq(|entries|, i requires 0 <= i < |entries| => (entries[i].0, Stringified(entries[i].0, entries[i].1)));
      forall i | 0 <= i < |entries| ensures (written[i].0, Revived(written[i].0, written[i].1)) == entries[i] {
        RevivedStringified(entries[i].0, entries[i].1);
      }
      var back := seq(|written|, i requires 0 <= i < |written| => (written[i].0, Revived(written[i].0, written[i].1)));
      assert back == entries;
    case _ =>
  }
}
