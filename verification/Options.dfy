/** The absence of a value: a NULL pointer, a missing row, an empty answer. */
module Options {
  datatype Option<+T> = None | Some(value: T)
}
