/** A value that may be absent, as `undefined` is for a JavaScript field. */
module Wrappers {

  datatype Option<T> = None | Some(value: T)
}
