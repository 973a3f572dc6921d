/** A value that may be missing: an error, a refusal, or nothing found. */
module Options {
  datatype Option<+T> = None | Some(value: T)
}
