/** Values shared by every module: entity ids, and the Java `Optional` and
    thrown exceptions as ordinary values. */
module Base {

  /** A database id (the source uses UUIDs; only equality matters here). */
  type Id = nat

  /** Java's `Optional<T>`, and a reference that may be `null`. */
  datatype Option<+T> = None | Some(value: T)

  /** The outcome of an operation that either returns a value or throws. */
  datatype Result<+T, +E> = Success(value: T) | Failure(error: E)
}
