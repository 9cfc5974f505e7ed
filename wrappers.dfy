/** The optional value the DOM returns as a string or null. */
module Wrappers {

  datatype Option<+T> = None | Some(value: T)
}
