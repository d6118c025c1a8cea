/** A value that may be absent: a nullable column, or a step that may fail. */
module Optional {
  datatype Option<+T> = None | Some(value: T)
}
