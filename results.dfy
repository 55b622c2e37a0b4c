/** Option and Result, the shapes of Rust's `Option<T>` and `Result<T, E>`. */
module Results {

  datatype Option<+T> = None | Some(value: T)

  datatype Result<+T, +E> = Success(value: T) | Failure(error: E)
}
