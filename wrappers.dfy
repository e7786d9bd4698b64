/** The optional-value datatype used for the URL parser's "try" result. */
module Wrappers {

  datatype Option<+T> = None | Some(value: T)
}
