/** The optional value returned by a single-row query: a row, or nothing. */
module Wrappers {

  datatype Option<+T> = None | Some(value: T)

}
