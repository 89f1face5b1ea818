/** A value that may be missing; the parsers and readers return None for an error. */
module Options {
  datatype Option<+T> = None | Some(value: T)
}
