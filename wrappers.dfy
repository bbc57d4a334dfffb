/** Failure-carrying return types shared by the model: `Option` for the
    abstract memory reads, `Result` for operations that abort with an error. */
module Wrappers {

  datatype Option<+T> = None | Some(value: T)

  datatype Result<+T, +E> = Ok(value: T) | Err(error: E)
}
