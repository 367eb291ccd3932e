/** The conventional optional value: a C pointer that may be NULL, or an index that may be absent. */
module Options {
  datatype Option<+T> = None | Some(value: T)
}
