/** Failure-carrying values: the model's replacement for PHP exceptions and
    for PHP's "empty array means absent" convention. */
module Wrappers {

  datatype Option<+T> = None | Some(value: T)

  /** Outcome of an operation that the source lets throw. */
  datatype Result<+T, +E> = Ok(value: T) | Err(error: E)
}
