/** The optional value used wherever JavaScript would hand back `undefined`. */
module Wrappers {

  datatype Option<+T> = None | Some(value: T)
}
