/** Results that may be missing: a null pointer, a failed call, a lock nobody holds. */
module Options {
  datatype Option<+T> = None | Some(value: T)
}
