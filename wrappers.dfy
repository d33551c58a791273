/** The optional value used for the `initial` and `previous` snapshots (a nil pointer in the source). */
module Wrappers {
  datatype Option<+T> = None | Some(value: T)
}
