/** The optional value used where the source returns `null` or a failed regular-expression match. */
module Wrappers {

  datatype Option<+T> = None | Some(value: T)
}
