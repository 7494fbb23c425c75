/** The optional value used wherever the program stores NULL or returns None. */
module Options {
  datatype Option<+T> = None | Some(value: T)
}
