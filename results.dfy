/** Option and Result, the shapes used for JavaScript's `null` and thrown errors. */
module Results {

  /** `None` stands for JavaScript's `null` (or a NaN, where a number is expected). */
  datatype Option<+T> = None | Some(value: T)

  /** `Failure` stands for an `Error` thrown by the constructor or function that returns it. */
  datatype Result<+T, +E> = Success(value: T) | Failure(error: E)
}
