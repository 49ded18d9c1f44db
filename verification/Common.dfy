/** Types that several modules share. */
module Common {
  datatype Option<T> = None | Some(value: T)

  /** An unsigned char. */
  type Byte = b: int | 0 <= b < 256
}
