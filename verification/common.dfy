/** Failure-compatible wrappers shared by the model. */
module Common {

  datatype Option<+T> = None | Some(value: T)

  /** The outcome of a computation that the source lets raise an exception. */
  datatype Result<+T, +E> = Ok(value: T) | Err(error: E)

  function MinReal(a: real, b: real): (r: real)
    ensures r <= a && r <= b && (r == a || r == b)
  {
    if a <= b then a else b
  }

  function MaxReal(a: real, b: real): (r: real)
    ensures a <= r && b <= r && (r == a || r == b)
  {
    if a >= b then a else b
  }
}
