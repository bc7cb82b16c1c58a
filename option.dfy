/** An optional value: a lookup that may find nothing, an operation that may panic. */
module Options {
  datatype Option<T> = None | Some(value: T)
}
