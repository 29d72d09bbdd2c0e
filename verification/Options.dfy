/** A value that may be absent: the model's rendering of a pointer that may be NULL. */
module Options {
  datatype Option<+T> = None | Some(value: T)
}
