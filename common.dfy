/** Small shared vocabulary: bytes, optional values and results. */
module Common {

  /** One octet, as stored in a `Uint8Array` or a Rust `Vec<u8>`. */
  type byte = x: int | 0 <= x < 256

  datatype Option<+T> = None | Some(value: T)

  datatype Result<+T, +E> = Success(value: T) | Failure(error: E)

  function Max(a: int, b: int): int
  {
    if a >= b then a else b
  }

  /** Concatenation of a list of strings with `sep` between neighbours (Rust's `join`). */
  function Join(parts: seq<string>, sep: string): string
  {
    if |parts| == 0 then ""
    else if |parts| == 1 then parts[0]
    else parts[0] + sep + Join(parts[1..], sep)
  }

  /** Concatenation is associative; stated once so that proofs about folds need not rediscover it. */
  lemma AppendAssoc<T>(x: seq<T>, y: seq<T>, z: seq<T>)
    ensures (x + y) + z == x + (y + z)
  {
  }
}
