/** Optional values and error results, standing in for Java's `null` and for
    the exceptions the Python release scripts raise. */
module Wrappers {

  datatype Option<+T> = None | Some(value: T)

  datatype Result<+T, +E> = Ok(value: T) | Err(error: E)
}
