/**
 * Integer helpers shared by the canvas-size rule and the grid layout:
 * `Math.max` on integers and a few facts about multiplication that the
 * solver does not find on its own.
 */
module Numeric {

  /** The larger of two integers, as `Math.max` returns it for integer operands. */
  function Max(a: int, b: int): (r: int)
    ensures a <= r && b <= r
    ensures r == a || r == b
  {
    if a >= b then a else b
  }

  /** Multiplying both sides of `a <= b` by the same natural number keeps the order. */
  lemma MulMonotone(a: nat, b: nat, k: nat)
    requires a <= b
    ensures a * k <= b * k
  {
  }

  /** A strict inequality between multiples of `k` holds between the factors. */
  lemma MulCancelLess(a: nat, b: nat, k: nat)
    ensures a * k < b * k ==> a < b
  {
  }

  /** A strict inequality between squares holds between the numbers squared. */
  lemma SquareCancelLess(a: nat, b: nat)
    ensures a * a < b * b ==> a < b
  {
  }

  /** Squaring is monotone on natural numbers. */
  lemma SquareMonotone(a: nat, b: nat)
    requires a <= b
    ensures a * a <= b * b
  {
  }

  /** Quotient and remainder of a division by `d` are unique. */
  lemma DivisionUnique(q1: nat, r1: nat, q2: nat, r2: nat, d: nat)
    requires r1 < d && r2 < d && q1 * d + r1 == q2 * d + r2
    ensures q1 == q2 && r1 == r2
  {
    // q1 * d < q2 * d + d and q2 * d < q1 * d + d
    assert (q2 + 1) * d == q2 * d + d;
    assert (q1 + 1) * d == q1 * d + d;
    MulCancelLess(q1, q2 + 1, d);
    MulCancelLess(q2, q1 + 1, d);
  }

  /**
   * If `rows` is the ceiling of `n / cols` and `n` is at most `cols * cols`,
   * then `rows` lies between 1 and `cols`.
   */
  lemma CeilQuotientBounds(n: nat, cols: nat, rows: nat)
    requires 1 <= n <= cols * cols
    requires n <= rows * cols < n + cols
    ensures 1 <= rows <= cols
    ensures (rows - 1) * cols < n
  {
    // rows * cols < n + cols <= cols * cols + cols
    assert (cols + 1) * cols == cols * cols + cols;
    MulCancelLess(rows, cols + 1, cols);
    assert (rows - 1) * cols == rows * cols - cols;
  }
}
