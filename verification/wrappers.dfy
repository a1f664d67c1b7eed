/** Option and Result, the two failure-carrying shapes the rest of the model uses
    in place of Go's (value, error) pairs and nil results. */
module Wrappers {

  datatype Option<+T> = None | Some(value: T)

  /** `Ok` is Go's `err == nil`; `Err` carries the error tag. */
  datatype Result<+T, +E> = Ok(value: T) | Err(error: E) {

    predicate IsFailure() {
      Err?
    }
  }
}
