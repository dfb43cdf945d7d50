/** The two "maybe" shapes the model threads through its steps. */
module Wrappers {

  /** A value that may be absent: a key the dict lacks, a reply body that is null. */
  datatype Option<T> = None | Some(value: T)

  /** A step that either yields a value or stops with the reason it stopped. */
  datatype Result<R, E> = Success(value: R) | Failure(error: E)
}
