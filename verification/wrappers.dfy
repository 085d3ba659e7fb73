/** Option stands in for a Java reference that may be null. */
module Wrappers {

  /** `None` is Java's `null`; `Some(v)` is a non-null reference to `v`. */
  datatype Option<+T> = None | Some(value: T)
}
