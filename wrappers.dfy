/** Option and Result values shared by the span-tree and the case-folding models. */
module Wrappers {

  /** A value that may be absent: Rust's `Option`. */
  datatype Option<+T> = None | Some(value: T)

  /** Either a value or an error: a Java method that returns normally or throws. */
  datatype Result<+R, +E> = Success(value: R) | Failure(error: E)
}
