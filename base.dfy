/** Shared helper types. */
module Base {

  /** An optional value: Python's `None` versus a present value. */
  datatype Option<+T> = None | Some(value: T)
}
