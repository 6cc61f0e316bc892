/** The optional value used for a date string that may not parse. */
module Wrappers {

  datatype Option<+T> = None | Some(value: T)
}
