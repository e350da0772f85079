/** The optional value used wherever the source yields a match object or `None`. */
module Wrappers {
  datatype Option<+T> = None | Some(value: T)
}
