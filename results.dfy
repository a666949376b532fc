/** Failure-carrying values: the model's stand-in for Go's "comma ok" lookups and
    for the run-time panics that end the program. */
module Results {

  datatype Option<+T> = None | Some(value: T)

  datatype Result<+T, +E> = Success(value: T) | Failure(error: E)
}
