/** The Some/None datatype used for "may be absent" results throughout the model. */
module Options {
  datatype Option<+T> = None | Some(value: T)
}
