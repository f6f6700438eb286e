/** Shared vocabulary of the model: optional values (JavaScript's `null`),
    results for operations that throw, and the millisecond truncation that
    `new Date(ms)` applies to a fractional time value. */
module Common {

  /** A value that may be absent; `None` stands for JavaScript's `null`. */
  datatype Option<+T> = None | Some(value: T)

  /** The outcome of an operation that either returns or throws. */
  datatype Result<+R, +E> = Success(value: R) | Failure(error: E)

  /** Truncation of a real toward zero: the integer millisecond a `Date`
      keeps when it is built from a fractional millisecond count. */
  function TruncateMs(x: real): (r: int)
    ensures 0.0 <= x ==> r as real <= x < r as real + 1.0
    ensures x < 0.0 ==> r as real - 1.0 < x <= r as real
  {
    if x >= 0.0 then x.Floor else -((-x).Floor)
  }

  /** An integer survives the truncation unchanged. */
  lemma TruncateWholeMs(n: int)
    ensures TruncateMs(n as real) == n
  {
  }
}
