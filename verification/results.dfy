/** Failure-carrying wrappers used by every module of the store model. */
module Results {

  /** A value that may be absent, as JavaScript's `undefined`. */
  datatype Option<+T> = None | Some(value: T)

  /** The outcome of a store call: the new value, or the error the call throws. */
  datatype Result<+T, +E> = Ok(value: T) | Failure(error: E)
}
