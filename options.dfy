/** The optional value used for nullable columns and absent arguments. */
module Options {
  datatype Option<+T> = None | Some(value: T)
}
