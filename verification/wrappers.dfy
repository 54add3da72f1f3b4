/** Absent-or-present values, used for the null pointers and empty results of the device API. */
module Wrappers {
  datatype Option<+T> = None | Some(value: T)
}
