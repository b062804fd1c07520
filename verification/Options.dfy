/** A value that may be missing: a null pointer, None, or an exception. */
module Options {
  datatype Option<+T> = None | Some(value: T)
}
