// Optional values and the outcome of a call that may throw.
module Wrappers {

  /** A value that may be missing: a TypeScript `T | null`, or an absent property. */
  datatype Option<+T> = None | Some(value: T)

  /** How an awaited call ends: it returns a value or throws an error. */
  datatype Completion<+T, +E> = Normal(value: T) | Throw(error: E)
}
