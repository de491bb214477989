/** Failure-carrying datatypes shared by the whole model. */
module Wrappers {

  /** A value that may be absent: the model's stand-in for `undefined`/`null` returns. */
  datatype Option<+T> = None | Some(value: T)

  /** The outcome of an operation that may throw. */
  datatype Result<+T, +E> = Success(value: T) | Failure(error: E)

  /** The exceptions the manager's operations can raise. */
  datatype Error =
    | UnsupportedValue   // `set` was handed a function
    | SyntaxError        // `JSON.parse` rejected the text stored under a dotted key's root
    | TypeError          // a path segment was looked up on `null`
}
