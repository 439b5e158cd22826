/** Optional values and outcomes: `Option` stands for a C# nullable result
    (`null` is `None`), `Result` for a call that may throw. */
module Wrappers {

  datatype Option<+T> = None | Some(value: T)

  datatype Result<+T, +E> = Success(value: T) | Failure(error: E)
}
