/** Small shared vocabulary: optional values and bytes. */
module Common {

  /** Python's `Optional[T]`: `None` or a present value. */
  datatype Option<+T> = None | Some(value: T)

  /** One octet of a `bytes` object. */
  type Byte = b: int | 0 <= b < 256
}
