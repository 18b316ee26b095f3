/** An optional value: a field left out of a request, or a parse that failed. */
module Options {

  datatype Option<+T> = None | Some(value: T)
}
