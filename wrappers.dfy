/** The absent-or-present value used for a validator that may not exist
    and for a search that may not find anything. */
module Wrappers {
  datatype Option<+T> = None | Some(value: T)
}
