/** Option: a value that may be absent (an `undefined` property, a missing key). */
module Wrappers {

  datatype Option<+T> = None | Some(value: T)

}
