/** The optional value used for JavaScript results that may be NaN, undefined or absent. */
module Wrappers {
  datatype Option<+T> = None | Some(value: T)
}
