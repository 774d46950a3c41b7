/** The optional value used wherever the parser may leave a field unset. */
module Wrappers {

  datatype Option<+T> = None | Some(value: T)
}
