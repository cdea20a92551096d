/**
 * The guest-side byte buffer (`Bytes`: a backing array with an explicit
 * length, grown geometrically) and byte stream (`ByteStream`: read to the
 * end in chunks of at most 8192 bytes).
 */
module ByteBuffer {
  import opened Common
  import Base64
  import Utf8

  /** JavaScript's conversion of a number to an element of a `Uint8Array`: the value modulo 256. */
  function ToUint8(n: int): (b: byte)
    ensures 0 <= n < 256 ==> b == n
    ensures (n - b) % 256 == 0
  {
    n % 256
  }

  function ToUint8s(a: seq<int>): (r: seq<byte>)
    ensures |r| == |a|
    ensures forall i | 0 <= i < |a| :: r[i] == ToUint8(a[i])
  {
    seq(|a|, i requires 0 <= i < |a| => ToUint8(a[i]))
  }

  /** The host's text coding calls, supplied from outside the model. */
  datatype Ffi = Ffi(
    bytesToUtf8: seq<byte> -> Result<string, string>,
    utf8ToBytes: string -> seq<byte>,
    bytesToBase64: seq<byte> -> string,
    base64ToBytes: string -> Result<seq<byte>, string>)

  /** The encoding used when a caller gives none. */
  function EncodingOrDefault(encoding: Option<string>): string
  {
    if encoding.Some? then encoding.value else "utf8"
  }

  function NotImplemented(encoding: string): string
  {
    "encoding \"" + encoding + "\" not implemented"
  }

  /** The text for `data` in `encoding`; any encoding but "utf8" and "base64" is an error. */
  function DecodeBytes(data: seq<byte>, encoding: string, ffi: Ffi): Result<string, string>
  {
    if encoding == "utf8" then ffi.bytesToUtf8(data)
    else if encoding == "base64" then Success(ffi.bytesToBase64(data))
    else Failure(NotImplemented(encoding))
  }

  /** The bytes for `text` in `encoding`; any encoding but "utf8" and "base64" is an error. */
  function EncodeText(text: string, encoding: string, ffi: Ffi): Result<seq<byte>, string>
  {
    if encoding == "utf8" then Success(ffi.utf8ToBytes(text))
    else if encoding == "base64" then ffi.base64ToBytes(text)
    else Failure(NotImplemented(encoding))
  }

  /** An unrecognised encoding fails both ways instead of falling back to a default. */
  lemma UnknownEncodingFails(data: seq<byte>, text: string, encoding: string, ffi: Ffi)
    requires encoding != "utf8" && encoding != "base64"
    ensures DecodeBytes(data, encoding, ffi) == Failure(NotImplemented(encoding))
    ensures EncodeText(text, encoding, ffi) == Failure(NotImplemented(encoding))
  {
  }

  /**
   * Host calls that implement UTF-8 per RFC 3629 and Base64 per section 4 of
   * RFC 4648; the text of their errors is left open.
   */
  ghost predicate StandardFfi(ffi: Ffi)
  {
    && (forall t :: ffi.utf8ToBytes(t) == Utf8.Encode(t))
    && (forall b :: ffi.bytesToUtf8(b).Success? <==> Utf8.Decode(b).Some?)
    && (forall b :: ffi.bytesToUtf8(b).Success? ==> ffi.bytesToUtf8(b).value == Utf8.Decode(b).value)
    && (forall b :: ffi.bytesToBase64(b) == Base64.Encode(b))
    && (forall t :: ffi.base64ToBytes(t).Success? <==> Base64.Decode(t).Some?)
    && (forall t :: ffi.base64ToBytes(t).Success? ==> ffi.base64ToBytes(t).value == Base64.Decode(t).value)
  }

  /** Encoding text and decoding the bytes gives the text back, in both recognised encodings. */
  lemma TextRoundTrip(text: string, encoding: string, ffi: Ffi)
    requires StandardFfi(ffi)
    requires encoding == "utf8" || encoding == "base64"
    ensures encoding == "utf8" ==> EncodeText(text, encoding, ffi).Success?
    ensures EncodeText(text, encoding, ffi).Success? ==>
      DecodeBytes(EncodeText(text, encoding, ffi).value, encoding, ffi) == Success(text)
  {
    if encoding == "utf8" {
      Utf8.DecodeEncode(text);
    } else if ffi.base64ToBytes(text).Success? {
      Base64.EncodeDecode(text);
    }
  }

  /** Decoding bytes and encoding the text gives the bytes back, in both recognised encodings. */
  lemma BytesRoundTrip(data: seq<byte>, encoding: string, ffi: Ffi)
    requires StandardFfi(ffi)
    requires encoding == "utf8" || encoding == "base64"
    ensures encoding == "base64" ==> DecodeBytes(data, encoding, ffi).Success?
    ensures DecodeBytes(data, encoding, ffi).Success? ==>
      EncodeText(DecodeBytes(data, encoding, ffi).value, encoding, ffi) == Success(data)
  {
    if encoding == "base64" {
      Base64.DecodeEncode(data);
    } else if ffi.bytesToUtf8(data).Success? {
      Utf8.EncodeDecode(data);
    }
  }

  class Bytes {
    var buffer: array<byte>
    var len: nat

    ghost predicate Valid()
      reads this
    {
      len <= buffer.Length
    }

    function Len(): nat
      reads this
    {
      len
    }

    function Capacity(): nat
      reads this
    {
      buffer.Length
    }

    /** The initialised prefix. */
    function Data(): (d: seq<byte>)
      reads this, buffer
      requires Valid()
      ensures |d| == len
    {
      buffer[..len]
    }

    /** The spare capacity after the initialised prefix. */
    function UninitData(): (u: seq<byte>)
      reads this, buffer
      requires Valid()
      ensures |u| == Capacity() - Len()
      ensures Data() + u == buffer[..]
    {
      buffer[len..]
    }

    constructor (buffer: array<byte>, len: nat)
      requires len <= buffer.Length
      ensures Valid() && this.buffer == buffer && this.len == len
    {
      this.buffer := buffer;
      this.len := len;
    }

    /** An empty buffer with room for `capacity` bytes (none when no capacity is given). */
    static method WithCapacity(capacity: Option<nat>) returns (b: Bytes)
      ensures fresh(b) && fresh(b.buffer) && b.Valid()
      ensures b.Len() == 0 && b.Data() == []
      ensures b.Capacity() == (if capacity.Some? then capacity.value else 0)
      ensures forall i | 0 <= i < b.Capacity() :: b.buffer[i] == 0
    {
      var n := if capacity.Some? then capacity.value else 0;
      var arr := new byte[n](_ => 0);
      b := new Bytes(arr, 0);
    }

    /** A full buffer holding the numbers of `values`, each taken modulo 256. */
    static method FromArray(values: seq<int>) returns (b: Bytes)
      ensures fresh(b) && fresh(b.buffer) && b.Valid()
      ensures b.Len() == b.Capacity() == |values|
      ensures b.Data() == ToUint8s(values)
    {
      var arr := new byte[|values|](i requires 0 <= i < |values| => ToUint8(values[i]));
      b := new Bytes(arr, |values|);
    }

    /** The initialised bytes as numbers. */
    method ToArray() returns (r: seq<int>)
      requires Valid()
      ensures |r| == Len()
      ensures forall i | 0 <= i < |r| :: r[i] == buffer[i]
    {
      r := buffer[..len];
    }

    /** Numbers that are all octets come back unchanged through a buffer. */
    static method FromArrayToArray(values: seq<int>) returns (r: seq<int>)
      requires forall i | 0 <= i < |values| :: 0 <= values[i] < 256
      ensures r == values
    {
      var b := FromArray(values);
      r := b.ToArray();
    }

    /**
     * Makes room for `additional` more bytes: nothing changes when the
     * capacity already suffices; otherwise the bytes move to a zero-filled
     * array of capacity max(2 * capacity, len + additional).
     */
    method Reserve(additional: int)
      requires Valid()
      modifies this
      ensures Valid() && len == old(len) && Data() == old(Data())
      ensures old(Capacity()) >= old(len) + additional ==> buffer == old(buffer)
      ensures old(Capacity()) < old(len) + additional ==>
        && fresh(buffer)
        && Capacity() == Max(2 * old(Capacity()), old(len) + additional)
        && forall i | len <= i < Capacity() :: buffer[i] == 0
      ensures Capacity() >= old(Capacity()) && Capacity() >= len + additional
    {
      var want := len + additional;
      if buffer.Length >= want {
        return;
      }
      var newCapacity := Max(buffer.Length * 2, want);
      var newBuffer := new byte[newCapacity](_ => 0);
      var i := 0;
      while i < len
        modifies newBuffer
        invariant 0 <= i <= len
        invariant forall k | 0 <= k < i :: newBuffer[k] == buffer[k]
        invariant forall k | i <= k < newCapacity :: newBuffer[k] == 0
      {
        newBuffer[i] := buffer[i];
        i := i + 1;
      }
      buffer := newBuffer;
    }

    /** Appends `chunk` after the initialised bytes, growing as Reserve does. */
    method Extend(chunk: seq<byte>)
      requires Valid()
      modifies this, buffer
      ensures Valid()
      ensures len == old(len) + |chunk| && Data() == old(Data()) + chunk
      ensures Capacity() == if old(Capacity()) >= old(len) + |chunk| then old(Capacity())
                            else Max(2 * old(Capacity()), old(len) + |chunk|)
      ensures buffer == old(buffer) || fresh(buffer)
    {
      Reserve(|chunk|);
      var i := 0;
      while i < |chunk|
        modifies buffer
        invariant 0 <= i <= |chunk|
        invariant buffer[..len] == old(Data())
        invariant forall k | 0 <= k < i :: buffer[len + k] == chunk[k]
      {
        buffer[len + i] := chunk[i];
        i := i + 1;
      }
      len := len + |chunk|;
      assert Data() == old(Data()) + chunk by {
        forall k | 0 <= k < len ensures Data()[k] == (old(Data()) + chunk)[k] {
          if k >= old(len) {
            assert buffer[old(len) + (k - old(len))] == chunk[k - old(len)];
          }
        }
      }
    }

    /** The text of the initialised bytes; the spare capacity is never looked at. */
    method Decode(encoding: Option<string>, ffi: Ffi) returns (r: Result<string, string>)
      requires Valid()
      ensures r == DecodeBytes(Data(), EncodingOrDefault(encoding), ffi)
    {
      var encoding := if encoding.Some? then encoding.value else "utf8";
      var bytes := buffer[..len];
      if encoding == "utf8" {
        r := ffi.bytesToUtf8(bytes);
      } else if encoding == "base64" {
        r := Success(ffi.bytesToBase64(bytes));
      } else {
        r := Failure(NotImplemented(encoding));
      }
    }

    /** A full buffer holding the bytes of `text` in `encoding`. */
    static method Encode(text: string, encoding: Option<string>, ffi: Ffi) returns (r: Result<Bytes, string>)
      ensures r.Success? <==> EncodeText(text, EncodingOrDefault(encoding), ffi).Success?
      ensures r.Failure? ==> r.error == EncodeText(text, EncodingOrDefault(encoding), ffi).error
      ensures r.Success? ==>
        && fresh(r.value) && r.value.Valid()
        && r.value.Len() == r.value.Capacity()
        && r.value.Data() == EncodeText(text, EncodingOrDefault(encoding), ffi).value
    {
      var encoding := if encoding.Some? then encoding.value else "utf8";
      var bytes: seq<byte>;
      if encoding == "utf8" {
        bytes := ffi.utf8ToBytes(text);
      } else if encoding == "base64" {
        var decoded := ffi.base64ToBytes(text);
        if decoded.Failure? {
          return Failure(decoded.error);
        }
        bytes := decoded.value;
      } else {
        return Failure(NotImplemented(encoding));
      }
      var arr := new byte[|bytes|](i requires 0 <= i < |bytes| => bytes[i]);
      var b := new Bytes(arr, |bytes|);
      return Success(b);
    }
  }

  // ---------------------------------------------------------------------------
  // Streams

  /** Size of the chunk buffer a stream is read into. */
  const ChunkSize: nat := 8192

  /** What one host read delivers: a chunk of bytes (empty at the end), or an error. */
  type ReadResult = Result<seq<byte>, string>

  /** What reading to the end yields: the chunks before the first empty read, or the first error. */
  function Drain(p: seq<ReadResult>): Result<seq<byte>, string>
    decreases |p|
  {
    if p == [] then Success([])
    else
      match p[0]
      case Failure(e) => Failure(e)
      case Success(c) =>
        if c == [] then Success([])
        else
          match Drain(p[1..])
          case Failure(e) => Failure(e)
          case Success(rest) => Success(c + rest)
  }

  /** How many host reads reading to the end performs. */
  function Consumed(p: seq<ReadResult>): (n: nat)
    ensures n <= |p|
    decreases |p|
  {
    if p == [] then 0
    else
      match p[0]
      case Failure(_) => 1
      case Success(c) => if c == [] then 1 else 1 + Consumed(p[1..])
  }

  function Flatten(chunks: seq<seq<byte>>): seq<byte>
    decreases |chunks|
  {
    if |chunks| == 0 then [] else chunks[0] + Flatten(chunks[1..])
  }

  function AsReads(chunks: seq<seq<byte>>): (r: seq<ReadResult>)
    ensures |r| == |chunks|
  {
    seq(|chunks|, i requires 0 <= i < |chunks| => Success(chunks[i]))
  }

  /**
   * Non-empty chunks followed by an empty read come back concatenated in
   * order, after exactly one read per chunk plus the final empty one.
   */
  lemma {:induction false} DrainChunks(chunks: seq<seq<byte>>, rest: seq<ReadResult>)
    requires forall i | 0 <= i < |chunks| :: chunks[i] != []
    ensures Drain(AsReads(chunks) + [Success([])] + rest) == Success(Flatten(chunks))
    ensures Consumed(AsReads(chunks) + [Success([])] + rest) == |chunks| + 1
    decreases |chunks|
  {
    var p := AsReads(chunks) + [Success([])] + rest;
    if |chunks| == 0 {
      assert p[0] == Success([]);
    } else {
      assert p[0] == Success(chunks[0]);
      assert p[1..] == AsReads(chunks[1..]) + [Success([])] + rest;
      DrainChunks(chunks[1..], rest);
    }
  }

  /** `r` with `prefix` put in front of its bytes; an error stays as it is. */
  function Prefixed(prefix: seq<byte>, r: Result<seq<byte>, string>): Result<seq<byte>, string>
  {
    match r
    case Failure(e) => Failure(e)
    case Success(t) => Success(prefix + t)
  }

  /** One step of reading to the end past a non-empty chunk. */
  lemma DrainStep(p: seq<ReadResult>, prefix: seq<byte>)
    requires p != [] && p[0].Success? && p[0].value != []
    ensures Prefixed(prefix, Drain(p)) == Prefixed(prefix + p[0].value, Drain(p[1..]))
    ensures Consumed(p) == 1 + Consumed(p[1..])
  {
    var c := p[0].value;
    var rest := Drain(p[1..]);
    assert Drain(p) == Prefixed(c, rest);
    if rest.Success? {
      assert prefix + (c + rest.value) == prefix + c + rest.value;
    }
  }

  const ClosedStreamError := "stream_read: stream is closed"
  const DoubleCloseError := "stream_close: stream is closed"

  /**
   * A stream handle; `pending` stands for what the host's successive reads of
   * it will deliver, and `closed` for whether the handle was closed.
   */
  class ByteStream {
    const handle: int
    var pending: seq<ReadResult>
    var closed: bool

    ghost predicate Valid()
      reads this
    {
      forall k | 0 <= k < |pending| :: pending[k].Success? ==> |pending[k].value| <= ChunkSize
    }

    constructor (handle: int, pending: seq<ReadResult>)
      requires forall k | 0 <= k < |pending| :: pending[k].Success? ==> |pending[k].value| <= ChunkSize
      ensures Valid() && this.handle == handle && this.pending == pending && !closed
    {
      this.handle := handle;
      this.pending := pending;
      this.closed := false;
    }

    /** The host read: fills the front of `dest` and returns the count, 0 at the end of the stream. */
    method StreamRead(dest: array<byte>) returns (r: Result<nat, string>)
      requires Valid() && dest.Length == ChunkSize
      modifies this, dest
      ensures Valid() && closed == old(closed)
      ensures old(closed) ==> r == Failure(ClosedStreamError) && pending == old(pending)
      ensures !old(closed) && old(pending) == [] ==> r == Success(0) && pending == []
      ensures !old(closed) && old(pending) != [] ==>
        && pending == old(pending)[1..]
        && (old(pending)[0].Failure? ==> r == Failure(old(pending)[0].error))
        && (old(pending)[0].Success? ==>
              && r == Success(|old(pending)[0].value|)
              && dest[..r.value] == old(pending)[0].value)
    {
      if closed {
        return Failure(ClosedStreamError);
      }
      if pending == [] {
        return Success(0);
      }
      var next := pending[0];
      pending := pending[1..];
      if next.Failure? {
        return Failure(next.error);
      }
      var chunk := next.value;
      var i := 0;
      while i < |chunk|
        modifies dest
        invariant 0 <= i <= |chunk|
        invariant forall k | 0 <= k < i :: dest[k] == chunk[k]
      {
        dest[i] := chunk[i];
        i := i + 1;
      }
      assert dest[..|chunk|] == chunk;
      return Success(|chunk|);
    }

    /**
     * Reads until a read returns 0 bytes and returns everything read, in
     * order, in a buffer of initial capacity 8192. The handle is not closed.
     */
    method ReadToEnd() returns (r: Result<Bytes, string>)
      requires Valid()
      modifies this
      ensures Valid() && closed == old(closed)
      ensures old(closed) ==> r == Failure(ClosedStreamError) && pending == old(pending)
      ensures !old(closed) ==>
        && (r.Success? <==> Drain(old(pending)).Success?)
        && (r.Failure? ==> r.error == Drain(old(pending)).error)
        && (r.Success? ==> fresh(r.value) && r.value.Valid() && r.value.Data() == Drain(old(pending)).value)
        && (r.Success? ==> r.value.Capacity() >= ChunkSize)
        && pending == old(pending)[Consumed(old(pending))..]
    {
      var buffer := Bytes.WithCapacity(Some(ChunkSize));
      var readBuffer := new byte[ChunkSize](_ => 0);
      ghost var n := 0;
      assert Prefixed([], Drain(pending)) == Drain(pending) by {
        match Drain(pending)
        case Failure(_) =>
        case Success(t) => assert [] + t == t;
      }
      while true
        invariant Valid() && closed == old(closed)
        invariant fresh(buffer) && fresh(buffer.buffer) && buffer.Valid() && buffer.buffer != readBuffer
        invariant buffer.Capacity() >= ChunkSize
        invariant old(closed) ==> pending == old(pending)
        invariant 0 <= n <= |old(pending)| && pending == old(pending)[n..]
        invariant !old(closed) ==>
          && Consumed(old(pending)) == n + Consumed(pending)
          && Drain(old(pending)) == Prefixed(buffer.Data(), Drain(pending))
        decreases |pending|
      {
        var read := StreamRead(readBuffer);
        if read.Failure? {
          return Failure(read.error);
        }
        var count := read.value;
        if count == 0 {
          break;
        }
        var chunk := readBuffer[..count];
        ghost var before := buffer.Data();
        assert old(pending)[n..][1..] == old(pending)[n + 1..];
        if !old(closed) {
          DrainStep(old(pending)[n..], before);
        }
        buffer.Extend(chunk);
        n := n + 1;
        assert buffer.Data() == before + chunk;
      }
      return Success(buffer);
    }

    /** Closes the handle; closing it a second time is an error. */
    method Close() returns (r: Result<(), string>)
      modifies this
      ensures closed && pending == old(pending)
      ensures r.Failure? <==> old(closed)
    {
      if closed {
        return Failure(DoubleCloseError);
      }
      closed := true;
      return Success(());
    }
  }
}
