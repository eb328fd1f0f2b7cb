/** The two wrappers the model uses: `Option` for a cell that may be missing
    (pandas' NaN) and `Result` for an operation that may raise. */
module Base {

  datatype Option<+T> = None | Some(value: T)

  datatype Result<+T, +E> = Success(value: T) | Failure(error: E)
}
