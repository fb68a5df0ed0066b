/** Optional values and results shared by the evaluation and ontology modules. */
module Wrappers {
  /** A value that may be absent (a lookup that found nothing). */
  datatype Option<+T> = None | Some(value: T)

  /** The outcome of a step that either produces a value or raises an error. */
  datatype Result<+T, +E> = Ok(value: T) | Err(error: E)
}
