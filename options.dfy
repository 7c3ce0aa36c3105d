/** The optional value used for Python's `None`-or-object references. */
module Options {
  datatype Option<+T> = None | Some(value: T)
}
