/** What an operation that may fail returns. */
module Results {
  datatype Result<T> = Ok(value: T) | Err(message: string)
}
