/** Optional values and results with an error, shared by all modules of the model. */
module Wrappers {

  /** A value that may be absent: JavaScript's `undefined`/`null`, or a DOM query that found nothing. */
  datatype Option<+T> = None | Some(value: T)

  /** The outcome of an operation that may throw. */
  datatype Result<+T, +E> = Ok(value: T) | Err(error: E)
}
