/** The optional value used for "a match here or not". */
module Wrappers {

  datatype Option<+T> = None | Some(value: T)
}
