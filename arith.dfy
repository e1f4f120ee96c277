/** Integer helpers shared by the table, the pagination bar and the
    calendar: `Math.max`, `Math.min` and `Math.ceil` of a quotient. */
module Arith {

  function Max(a: int, b: int): int {
    if a < b then b else a
  }

  function Min(a: int, b: int): int {
    if a < b then a else b
  }

  lemma MulNonNegative(a: int, b: int)
    requires a >= 0 && b >= 0
    ensures a * b >= 0
  {
  }

  lemma MulMonotone(a: int, b: int, c: int)
    requires a <= b && c >= 0
    ensures a * c <= b * c
  {
    MulNonNegative(b - a, c);
  }

  /** `Math.ceil(a / b)` for a positive divisor: Dafny's `/` floors when the
      divisor is positive, so the ceiling is the negated floor of `-a / b`. */
  function CeilDiv(a: int, b: int): (r: int)
    requires b >= 1
    ensures (r - 1) * b < a <= r * b
    ensures a >= 0 ==> r >= 0
    ensures a == 0 ==> r == 0
  {
    -((-a) / b)
  }
}
