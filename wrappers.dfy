/** Option and Result, the two shapes the pipeline's values and failures take. */
module Wrappers {

  /** A value that may be missing: a pandas null (NaN) cell, or a lookup that found nothing. */
  datatype Option<+T> = None | Some(value: T)

  /** The outcome of a step that can raise: its value, or the message of the exception. */
  datatype Result<+T, +E> = Success(value: T) | Failure(error: E)
}
