/** The optional value used for reads that can fail. */
module Options {
  datatype Option<+T> = None | Some(value: T)
}
