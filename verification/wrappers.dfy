/** Failure-compatible optional values, standing in for Swift's `Optional`. */
module Wrappers {

  /** Either no value or exactly one value. */
  datatype Option<+T> = None | Some(value: T)
}
