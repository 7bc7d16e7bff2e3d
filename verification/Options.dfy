/** A value that may be missing: a lookup that finds nothing, or a call that throws. */
module Options {
  datatype Option<T> = None | Some(value: T)
}
