/** A value that may be absent: a NULL pointer, an attribute that was not sent. */
module Options {
  datatype Option<+T> = None | Some(value: T)
}
