/** The outcome of an operation that can fail: the C++ code throws
    `std::invalid_argument`, the model returns `Failure` instead. */
module Wrappers {

  datatype Result<+T, +E> = Success(value: T) | Failure(error: E)
}
