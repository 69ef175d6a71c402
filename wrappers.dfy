/** The optional value used for absent dictionary keys and files that do not exist. */
module Wrappers {
  datatype Option<+T> = None | Some(value: T)
}
