/** The optional value used for conversions that can fail. */
module Options {

  datatype Option<+T> = None | Some(value: T)
}
