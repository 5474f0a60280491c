/** Exact division of integer durations, standing in for Go's float64 quotient. */
module Ratio {
  /** A quotient: exact when the divisor is non-zero; Go's float64 gives an infinity or NaN otherwise. */
  datatype Fraction = Exact(value: real) | NonFinite

  function Quotient(n: int, d: int): (q: Fraction)
    ensures q.Exact? <==> d != 0
    ensures q.Exact? ==> q.value * (d as real) == n as real
  {
    if d == 0 then NonFinite else Exact(n as real / d as real)
  }
}
