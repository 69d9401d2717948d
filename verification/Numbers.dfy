/** Rounding up, division that truncates, and the smaller of two numbers. */
module Numbers {
  /** `Math.ceil` and `math.Ceil` */
  function Ceil(x: real): int {
    -(-x).Floor
  }

  /** Integer division as in Go. */
  function Quotient(a: int, n: int): int
    requires n > 0
  {
    if a >= 0 then a / n else -(-a / n)
  }

  function Min(a: int, b: int): int {
    if a <= b then a else b
  }
}
