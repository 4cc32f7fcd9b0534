/** The value types shared by several modules. */
module Options {
  datatype Option<+T> = None | Some(value: T)
}
