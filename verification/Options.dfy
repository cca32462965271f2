/** Results that may be missing: the null pointers of the library. */
module Options {
  datatype Option<T> = None | Some(value: T)
}
