/** An optional value: `Some` result or `None` for the failure a caller must handle. */
module Options {

  datatype Option<+T> = None | Some(value: T)
}
