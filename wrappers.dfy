/** The optional value used where the dashboard either has a reading or falls back to a sentinel. */
module Wrappers {

  datatype Option<+T> = None | Some(value: T)
}
