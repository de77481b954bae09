/** Failure-carrying results: `Option` where Python raises without a distinguishing
    cause the model needs, `Result` where the cause matters to the caller. */
module Wrappers {

  datatype Option<+T> = None | Some(value: T)

  datatype Result<+T, +E> = Ok(value: T) | Err(error: E)
}
