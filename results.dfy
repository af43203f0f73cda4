/** The outcome of an operation that the Python code either completes or
    abandons by raising an exception. */
module Results {

  datatype Result<+T, +E> = Ok(value: T) | Err(error: E)
}
