/**
 Optional values: an absent key, and the outcome of an operation that can panic.
 */
module Wrappers {
  datatype Option<+T> = None | Some(value: T)
}
