/** The optional-value datatype used for lookups that can fail. */
module Wrappers {

  datatype Option<+T> = None | Some(value: T)
}
