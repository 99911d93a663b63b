/** A value that may be absent: a walk that fails, a frame that does not decode. */
module Wrappers {
  datatype Option<T> = None | Some(value: T)
}
