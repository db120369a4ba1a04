/** Option and Result in the shape Rust gives them: `Option<T>` for a lookup
    that may find nothing, `Result<T, E>` for an operation that may fail. */
module Wrappers {

  datatype Option<+T> = None | Some(value: T)

  datatype Result<+T, +E> = Ok(value: T) | Err(error: E)
}
