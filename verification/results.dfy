/**
 Failure-carrying wrappers used by the uploader model: an optional value for
 the builder's nullable fields, and a success-or-error result for the setters
 that raise an exception in the original code.
 */
module Results {

  /** A value that may be absent (a field still holding null). */
  datatype Option<+T> = None | Some(value: T)

  /** The outcome of a call that either returns normally or raises `error`. */
  datatype Result<+T, +E> = Ok(value: T) | Err(error: E)
}
