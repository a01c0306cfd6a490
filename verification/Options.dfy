/** The conventional optional value, used where the source returns an error or a nil pointer. */
module Options {
  datatype Option<+T> = None | Some(value: T)
}
