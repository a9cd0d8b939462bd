/** The optional value used where the source returns `null` or nothing. */
module Wrappers {

  datatype Option<+T> = None | Some(value: T)

}
