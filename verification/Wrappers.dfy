/** The result type that several components share. */
module Wrappers {
  datatype Option<+T> = None | Some(value: T)
}
