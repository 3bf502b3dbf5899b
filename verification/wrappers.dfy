/** Failure-carrying wrappers used across the pipeline model. */
module Wrappers {

  /** An optional value: a join partner that may be absent, a regex match that may fail. */
  datatype Option<+T> = None | Some(value: T)

  /** The outcome of a step that raises in the source instead of returning. */
  datatype Result<+R, +E> = Ok(value: R) | Err(error: E)
}
