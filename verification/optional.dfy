/** A value that may be absent: JavaScript's null, or NaN where a number was expected. */
module Optional {
  datatype Option<+T> = None | Some(value: T)
}
