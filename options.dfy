/** The optional value used wherever the source has `None`, `.get()` misses or a caught exception. */
module Options {
  datatype Option<+T> = None | Some(value: T)
}
