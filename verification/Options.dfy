// Stand-ins for JavaScript's null and for an exception that rolls a request back.
module Options {
  datatype Option<+T> = None | Some(value: T)

  datatype Result<+T, +E> = Ok(value: T) | Err(error: E)
}
