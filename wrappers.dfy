/** The optional value used where the source stores `null` or `undefined`. */
module Wrappers {

  datatype Option<+T> = None | Some(value: T)
}
