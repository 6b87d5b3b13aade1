/** The optional value used for conversions that may fail and lookups that may miss. */
module Wrappers {
  datatype Option<+T> = None | Some(value: T)
}
