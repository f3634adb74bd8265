/** Failure-compatible wrappers used throughout the model. */
module Wrappers {

  datatype Option<+T> = None | Some(value: T)

  datatype Result<+R, +E> = Success(value: R) | Failure(error: E)
}

/** Octets, as the byte slices of the Rust program see them. */
module Bytes {

  type byte = x: int | 0 <= x < 256
}
