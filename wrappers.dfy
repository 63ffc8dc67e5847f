/** A value that may be absent: Java's `null` in the models below. */
module Wrappers {
  datatype Option<+T> = None | Some(value: T)
}
