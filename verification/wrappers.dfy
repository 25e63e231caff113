/** The optional value used wherever the source yields `None`. */
module Wrappers {

  datatype Option<+T> = None | Some(value: T)
}
