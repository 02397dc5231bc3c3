/** The optional value used throughout: the source's Optional<T> and nullable pointers. */
module Options {
  datatype Option<+T> = None | Some(value: T)
}
