/** The conventional optional value: a query that may find nothing. */
module Options {
  datatype Option<+T> = None | Some(value: T)
}
