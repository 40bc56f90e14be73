/** The optional value used for lookups that may miss and for operations that
    raise in the original program. */
module Wrappers {
  datatype Option<+T> = None | Some(value: T)
}
