/** Bytes, and values that may be missing. */
module Wrappers {

  type byte = b: int | 0 <= b < 256

  datatype Option<+T> = None | Some(value: T)
}
