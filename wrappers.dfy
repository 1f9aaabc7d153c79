/** The optional value returned where the source returns `None`, `null` or
    "not found". */
module Wrappers {

  datatype Option<+T> = None | Some(value: T)
}
