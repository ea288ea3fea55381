/** Optional values and pass/fail outcomes, used for JavaScript's `undefined`/`null` and thrown errors. */
module Wrappers {

  /** A value that may be absent, as `undefined` or `null` is in the source. */
  datatype Option<T> = None | Some(value: T)

  /** The outcome of an operation that either completes or throws an error carrying a message. */
  datatype Outcome<E> = Pass | Fail(error: E)
}
