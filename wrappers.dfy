/** Optional values (Kotlin's nullable `T?`) and results with an error message (a thrown exception). */
module Wrappers {

  /** `None` is Kotlin's or Java's `null`. */
  datatype Option<+T> = None | Some(value: T)

  /** `Failure(message)` stands for an exception thrown with that message. */
  datatype Result<+R, +E> = Success(value: R) | Failure(error: E)
}
