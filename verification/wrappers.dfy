/** Small value types shared by every module: an optional value (Python's
    `None`-or-value) and a distance that may be `float('inf')`. */
module Wrappers {

  /** `None` or a present value. */
  datatype Option<+T> = None | Some(value: T)

  /** A distance as the source handles it: a finite real or `float('inf')`,
      the sentinel both processors and the tree start from. */
  datatype Dist = Inf | Fin(value: real)

  /** `x < d`, with every real below infinity. */
  predicate Below(x: real, d: Dist) {
    d.Inf? || x < d.value
  }

  /** `d <= e` on the extended reals. */
  predicate AtMost(d: Dist, e: Dist) {
    e.Inf? || (d.Fin? && d.value <= e.value)
  }

  /** `d < e` on the extended reals. */
  predicate Less(d: Dist, e: Dist) {
    d.Fin? && Below(d.value, e)
  }

  /** `d > x`: Python's `distance > 0.6`, true for infinity. */
  predicate Exceeds(d: Dist, x: real) {
    d.Inf? || d.value > x
  }
}
