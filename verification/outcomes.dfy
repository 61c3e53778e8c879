/** Optional values and results with an error: the nil pointers and panics of the engine. */
module Outcomes {

  /** A value that may be absent: `None` stands for a nil pointer. */
  datatype Option<+T> = None | Some(value: T)

  /** Either a value or the reason the engine would have stopped. */
  datatype Result<+R, +E> = Success(value: R) | Failure(error: E)
}
