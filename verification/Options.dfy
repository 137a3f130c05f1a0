/** The optional value used where the source returns `None` or a value. */
module Options {
  datatype Option<+T> = None | Some(value: T)
}
