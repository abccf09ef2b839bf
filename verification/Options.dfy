/** A value that may be missing: `null`, `undefined`, or an operation that throws. */
module Options {
  datatype Option<+T> = None | Some(value: T)
}
