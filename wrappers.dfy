/** Option stands for a Java reference that may be null (or a search that found
    nothing); Result for a computation that either returns or throws. */
module Wrappers {

  datatype Option<+T> = None | Some(value: T)

  datatype Result<+T, +E> = Ok(value: T) | Err(error: E)
}
