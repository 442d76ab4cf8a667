/** A value that may be missing: C's null pointers and failed searches. */
module Options {

  datatype Option<+T> = None | Some(value: T)
}
