/** Types that several modules share. */
module Common {

  type Byte = x: int | 0 <= x < 256

  /** A result that may be missing, such as a null pointer or a failed read. */
  datatype Option<+T> = None | Some(value: T)
}
