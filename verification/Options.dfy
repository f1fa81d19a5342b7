/** The optional and fallible results that the tooling scripts express with
    `undefined` and `throw`. */
module Options {
  datatype Option<+T> = None | Some(value: T)

  datatype Result<+T, +E> = Ok(value: T) | Err(error: E)
}
