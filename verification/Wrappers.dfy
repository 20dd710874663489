/** A value that may be missing: the source's NULL arguments. */
module Wrappers {
  datatype Option<T> = None | Some(value: T)
}
