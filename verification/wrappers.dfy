/** Option and Result, the two failure-carrying shapes the analyzer's
    operations return: `None` where the original returns `None` for a missing
    column, and `Failure` where pandas would raise. */
module Wrappers {

  datatype Option<+T> = None | Some(value: T)

  datatype Result<+R, +E> = Success(value: R) | Failure(error: E)
}
