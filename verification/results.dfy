/** The `(value, error)` pair of Go functions, as a sum type. */
module Results {

  datatype Result<+T, +E> = Ok(value: T) | Err(error: E)
}
