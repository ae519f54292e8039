/** The optional value used where the source accepts `null` or `undefined`. */
module Wrappers {

  datatype Option<+T> = None | Some(value: T)
}
