/** Values that may be absent, shared by every module of the project. */
module Wrappers {

  /** A nullable column, an optional argument, or the result of a lookup that may miss. */
  datatype Option<+T> = None | Some(value: T)

}
