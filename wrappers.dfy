/** Optional values and results with an error, used where the Rust code
    returns `Option<T>` or panics. */
module Wrappers {

  datatype Option<+T> = None | Some(value: T)

  datatype Result<+T, +E> = Success(value: T) | Failure(error: E)
}
