/** The success-or-failure outcome returned by fallible operations of the core. */
module Results {

  datatype Result<+T, +E> = Ok(value: T) | Err(error: E)
}
