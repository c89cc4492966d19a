/** The optional result used for C functions that return a pointer or NULL. */
module Options {
  datatype Option<+T> = None | Some(value: T)
}
