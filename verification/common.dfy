/** Small shared vocabulary: bytes and an optional value. */
module Common {

  /** A byte, as stored in the LargeBinary columns and produced by the codecs. */
  newtype byte = x: int | 0 <= x < 256

  type Bytes = seq<byte>

  /** A value that may be absent: Python's `None` for a missing object or a raised error. */
  datatype Option<+T> = None | Some(value: T)
}
