/** Values that may be missing and calls that may throw. */
module Results {
  datatype Option<+T> = None | Some(value: T)

  /** `Err` stands for a C++ exception leaving the call. */
  datatype Result<+T> = Ok(value: T) | Err
}
