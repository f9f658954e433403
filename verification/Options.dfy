/** A value that may be absent: a failed allocation, a broken replay, an empty hand. */
module Options {
  datatype Option<+T> = None | Some(value: T)
}
