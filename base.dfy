/** Small value types shared by every module of the model. */
module Base {

  /** Python's `None` or a value. */
  datatype Option<T> = None | Some(value: T)

  /** What a Python call does: return a value, or raise an exception whose `str(e)` is `detail`. */
  datatype Outcome<T> = Returned(value: T) | Raised(detail: string)

  /** One octet of a Python `bytes` object. */
  type byte = x: int | 0 <= x < 256
}
