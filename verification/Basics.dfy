/** Small datatypes shared by the models. */
module Basics {
  /** A value that may be absent: a nil pointer, a missing dictionary key, a null. */
  datatype Option<+T> = None | Some(value: T)

  /** An octet on a wire or in a buffer. */
  newtype byte = x: int | 0 <= x < 256
}
