/** The optional value used wherever the source uses a NULL pointer or a failed lookup. */
module Options {
  datatype Option<+T> = None | Some(value: T)
}
