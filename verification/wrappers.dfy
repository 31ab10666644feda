/** The optional value used for operations that may fail (a Python exception
    caught by the caller becomes None). */
module Wrappers {

  datatype Option<+T> = None | Some(value: T)
}
