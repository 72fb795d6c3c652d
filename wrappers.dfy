/** Stock value wrappers used throughout the model. */
module Wrappers {

  /** A reference that may be null in the C# source: `Null` is null, `Some(v)` is a present value.
      (The constructor is not called `None` because the scrim action enum has a member of that name.) */
  datatype Option<+T> = Null | Some(value: T)

  /** The outcome of an operation that the source may end by throwing. */
  datatype Result<+T, +E> = Ok(value: T) | Err(error: E)
}
