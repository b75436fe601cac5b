/** Shared vocabulary: byte values, the error result of a run, and `Max`. */
module Common {

  /** One element of a file: the integer value of a single byte. */
  type Byte = b: int | 0 <= b < 256

  /** The only failure the core can raise: indexing an empty list. */
  datatype Error = IndexError

  datatype Result<T> = Ok(value: T) | Err(error: Error)

  function Max(x: int, y: int): (m: int)
    ensures m >= x && m >= y
    ensures m == x || m == y
  {
    if x < y then y else x
  }
}
