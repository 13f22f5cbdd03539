/** Small value types shared by the cache model: optional values, Java's nullable
    references, and the outcome of an operation that may throw. */
module Wrappers {

  /** An optional value (a configuration item that may be missing). */
  datatype Option<+T> = None | Some(value: T)

  /** A Java reference of type T that may be null. */
  datatype Nullable<+T> = Null | NonNull(get: T)

  /** The exception an operation on the cache can throw. */
  datatype CacheError =
    | IllegalState   // the cache is closed (or closed a second time)

  /** The result of an operation that returns a value or throws. */
  datatype Result<+T> = Success(value: T) | Failure(error: CacheError)

  /** The result of an operation that returns nothing or throws. */
  datatype Outcome = Pass | Fail(error: CacheError)
}
