/** The optional-value datatype used for PHP array lookups that may find no key. */
module Wrappers {
  datatype Option<+T> = None | Some(value: T)
}
