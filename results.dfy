/** Success-or-error values, standing for the exceptions the modelled code raises. */
module Results {

  datatype Option<T> = None | Some(value: T)

  datatype Result<T, E> = Ok(value: T) | Err(error: E)
}
