/** The usual optional value, standing in for C's nullable results. */
module Options {
  datatype Option<+T> = None | Some(value: T)
}
