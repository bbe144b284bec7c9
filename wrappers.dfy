/** A value that may be absent: Ruby's `nil` for a missing attribute or element. */
module Wrappers {
  datatype Option<+T> = None | Some(value: T)
}
