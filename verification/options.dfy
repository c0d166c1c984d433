/** The optional value used where the source has a possibly-null pointer or a missing result. */
module Options {
  datatype Option<+T> = None | Some(value: T)
}
