/** Optional values and the two error kinds of the shape layer. */
module Wrappers {

  /** The `Option` of the source: `None` or `Some(value)`. */
  datatype Option<+T> = None | Some(value: T)

  /** The two error kinds `can_index_slice` reports. */
  datatype ErrorKind = OutOfBounds | Unsupported

  /** `Result<(), ShapeError>`: success, or failure with one error kind. */
  datatype Outcome = Ok | Err(kind: ErrorKind)
}
