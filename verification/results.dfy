/** Optional values and outcomes that may fail, for the places where the
    Kotlin code returns null or throws. */
module Results {

  datatype Option<+T> = None | Some(value: T)

  datatype Result<+T, +E> = Success(value: T) | Failure(error: E)
}
