/** Option and Result: the absent value and the error path, in place of Java's
    null returns and thrown exceptions. */
module Results {

  datatype Option<+T> = None | Some(value: T)

  datatype Result<+R, +E> = Success(value: R) | Failure(error: E)
}
