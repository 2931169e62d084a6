/** Optional values and results with an error, as the Rust `Option` and as
    the error exits of the command-line driver. */
module Wrappers {

  datatype Option<+T> = None | Some(value: T)

  datatype Result<+T, +E> = Success(value: T) | Failure(error: E)
}
