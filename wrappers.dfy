/** An optional value: JavaScript's `undefined` where the source returns `T | undefined`. */
module Wrappers {
  datatype Option<T> = None | Some(value: T)
}
