/** Option and Result values used for the director's lookups and its raised errors. */
module Results {

  datatype Option<+T> = None | Some(value: T)

  /** Success carries the returned value; Failure carries the error the director raises. */
  datatype Result<+R, +E> = Success(value: R) | Failure(error: E)
}
