/** Success/failure values shared by every operation of the model. */
module Results {

  /** An optional value, as for a request field the caller may omit. */
  datatype Option<+T> = None | Some(value: T)

  /** The outcome of a service call or validator: a value, or the error it raised. */
  datatype Result<+T, +E> = Ok(value: T) | Err(error: E)
}
