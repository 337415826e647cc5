/** The optional value used for sensor reads and parse results. */
module Wrappers {
  datatype Option<+T> = None | Some(value: T)
}
