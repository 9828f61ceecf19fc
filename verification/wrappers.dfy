/** Option and Result, as the bookmark store and router use them. */
module Wrappers {

  /** A value that may be absent: a lookup that found nothing, or a JSON
      field that is null or missing. */
  datatype Option<+T> = None | Some(value: T)

  /** The outcome of a step that either yields a value or stops with an error. */
  datatype Result<+R, +E> = Success(value: R) | Failure(error: E)
}
