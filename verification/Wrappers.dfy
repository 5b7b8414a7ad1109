/** The optional value used wherever the scripts use `None`. */
module Wrappers {

  datatype Option<+T> = None | Some(value: T)
}
