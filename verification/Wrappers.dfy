/** A value that may be missing: the model's form of a pointer that may be null. */
module Wrappers {
  datatype Option<T> = None | Some(value: T)
}
