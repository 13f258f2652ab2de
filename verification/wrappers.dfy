/** The optional value used where the source uses a reference that may be null. */
module Wrappers {
  datatype Option<+T> = None | Some(value: T)
}
