/** Small shared vocabulary: bytes, optional values and results with an error. */
module Common {

  /** An octet, as read from a file opened in binary mode. */
  newtype byte = x: int | 0 <= x < 256

  /** The full content of a regular file. */
  type Bytes = seq<byte>

  datatype Option<+T> = None | Some(value: T)

  /** A value, or the error the operation raises instead. */
  datatype Result<+R, +E> = Success(value: R) | Failure(error: E)

  /** Looks up a key, `None` when the key is absent. */
  function Get<K, V>(m: map<K, V>, k: K): (r: Option<V>)
    ensures r.Some? <==> k in m
    ensures r.Some? ==> r.value == m[k]
  {
    if k in m then Some(m[k]) else None
  }
}
