/** Option and Result, the two failure-carrying datatypes the model uses for
    "not found" and for errors that the source raises as exceptions. */
module Wrappers {

  datatype Option<+T> = None | Some(value: T)

  datatype Result<+R, +E> = Ok(value: R) | Err(error: E)
}
