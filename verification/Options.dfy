/** A value or none, for the source's -1 and NULL results. */
module Options {
  datatype Option<+T> = None | Some(value: T)
}
