/** Small shared vocabulary of the model. */
module Common {

  /** A value that may be absent: Python's `None`, or a failed conversion. */
  datatype Option<+T> = None | Some(value: T)

  function Min(a: nat, b: nat): (m: nat)
    ensures m <= a && m <= b && (m == a || m == b)
  {
    if a <= b then a else b
  }
}
