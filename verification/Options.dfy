/** A value or none, for results of the source that may be missing or an error. */
module Options {
  datatype Option<+T> = None | Some(value: T)
}
