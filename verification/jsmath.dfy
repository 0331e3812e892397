/** `Math.min` and `Math.max` on integers, shared by the page arithmetic and
    the postal-code formatter. */
module JsMath {
  function Min(a: int, b: int): int { if a <= b then a else b }
  function Max(a: int, b: int): int { if a <= b then b else a }
}
