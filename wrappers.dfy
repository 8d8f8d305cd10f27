/** Optional values and results, standing in for Python's `None`-or-value
    returns and for early `return False` exits. */
module Wrappers {

  datatype Option<+T> = None | Some(value: T)

  datatype Result<+T, +E> = Ok(value: T) | Err(error: E)
}
