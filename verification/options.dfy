/** An optional value: the outcome of a pattern match that may fail. */
module Options {

  datatype Option<T> = None | Some(value: T)
}
