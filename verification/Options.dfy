/** A value that may be missing: a null pointer, an absent key, a text that is not a number. */
module Options {
  datatype Option<+T> = None | Some(value: T)
}
