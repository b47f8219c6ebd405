/** Small wrapper types shared by the handler model. */
module Common {

  /** Python's `None` versus a present value. */
  datatype Option<T> = None | Some(value: T)

  /** A computation that either produced a value or failed with the text of the exception. */
  datatype Result<T> = Ok(value: T) | Err(error: string)
}
