/** A value that may be absent: Go's nil error, nil map entry or second `ok` result. */
module Options {

  datatype Option<T> = None | Some(value: T)
}
