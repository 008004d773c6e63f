/** The usual optional value: a regular-expression match that may fail, an
    attribute that may carry no value. */
module Options {
  datatype Option<+T> = None | Some(value: T)
}
