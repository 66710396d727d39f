/** Optional values and fallible results: `None` stands for JavaScript's `null` and
    `undefined`, `Err` for a thrown error. */
module Wrappers {
  datatype Option<+T> = None | Some(value: T)

  datatype Result<+T, +E> = Ok(value: T) | Err(error: E)
}
