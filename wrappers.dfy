/** A value that may be absent, as Kotlin's nullable types are. */
module Wrappers {
  datatype Option<T> = None | Some(value: T)
}
