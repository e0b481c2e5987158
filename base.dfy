/** Values that may be absent: Python's `None`. */
module Base {

  datatype Option<T> = None | Some(value: T)
}
