/** A value that may be missing: the source's null pointers, end() iterators and early returns. */
module Options {
  datatype Option<+T> = None | Some(value: T)
}
