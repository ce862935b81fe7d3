/** Optional values and error-carrying results, used for `std::optional`,
    `std::string::npos` and thrown exceptions. */
module Wrappers {

  datatype Option<+T> = None | Some(value: T)

  datatype Result<+R, +E> = Success(value: R) | Failure(error: E)
}
