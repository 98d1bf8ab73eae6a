/** The optional value the other modules use where the Go code has a nil pointer or an error. */
module Options {

  datatype Option<+T> = None | Some(value: T)
}
