/** ui/helpers/clamp.go: clamping an ordered value into an inclusive range. */
module Clamp {

  /** `Clamp(min, n, max)`; the Go function is generic over cmp.Ordered and is only used on ints. */
  function Clamp(min: int, n: int, max: int): (r: int)
    ensures n < min ==> r == min
    ensures min <= n && max < n ==> r == max
    ensures min <= n <= max ==> r == n
    ensures min <= max ==> min <= r <= max
  {
    if n < min then min
    else if n > max then max
    else n
  }

  /** With well-ordered bounds, clamping a clamped value changes nothing. */
  lemma ClampIdempotent(min: int, n: int, max: int)
    requires min <= max
    ensures Clamp(min, Clamp(min, n, max), max) == Clamp(min, n, max)
  {
  }

  /** With inverted bounds the first test wins: values at or above `min` come back as `max`. */
  lemma ClampInvertedBounds(min: int, n: int, max: int)
    requires max < min
    ensures Clamp(min, n, max) == if n < min then min else max
  {
  }
}
