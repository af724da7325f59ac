/** The optional value used where the analyzer's host API returns null. */
module Wrappers {

  datatype Option<+T> = None | Some(value: T)
}
