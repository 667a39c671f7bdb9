/** A value that may be absent, such as a null pointer or a parameter that was not given. */
module Options {
  datatype Option<+T> = None | Some(value: T)
}
