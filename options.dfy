/** An optional value: a parse that may fail, a probe that may not answer. */
module Options {
  datatype Option<T> = None | Some(value: T)
}
