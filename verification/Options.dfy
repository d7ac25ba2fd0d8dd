/** A value or nothing: the source's null pointers and error returns. */
module Options {
  datatype Option<T> = None | Some(value: T)
}
