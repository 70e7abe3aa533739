/** Small facts of integer arithmetic, stated once so that larger proofs stay linear. */
module Arithmetic {

  lemma MulNonNegative(a: int, b: int)
    requires (a >= 0 && b >= 0) || (a <= 0 && b <= 0)
    ensures a * b >= 0
  {
  }

  lemma MulMonotone(k: int, a: int, b: int)
    requires k >= 0 && a <= b
    ensures k * a <= k * b
  {
    MulNonNegative(k, b - a);
    assert k * b == k * a + k * (b - a);
  }

  lemma MulSum(k: int, a: int, b: int)
    ensures k * (a + b) == k * a + k * b
  {
  }

  /** Division by a positive number, as a bracket. */
  lemma DivBracket(x: int, u: int)
    requires u > 0
    ensures u * (x / u) <= x < u * (x / u) + u
    ensures x % u == x - u * (x / u)
    ensures 0 <= x % u < u
  {
  }

  /** Cancelling a positive factor. */
  lemma Cancel(u: int, a: int, b: int)
    requires u > 0 && u * a < u * b + u
    ensures a <= b
  {
    if a > b { MulMonotone(u, b + 1, a); }
  }

  /** The bracket determines the quotient. */
  lemma DivUnique(x: int, u: int, q: int)
    requires u > 0 && u * q <= x < u * q + u
    ensures x / u == q
  {
    DivBracket(x, u);
    Cancel(u, q, x / u);
    Cancel(u, x / u, q);
  }

  lemma DivMonotone(x: int, y: int, u: int)
    requires u > 0 && x <= y
    ensures x / u <= y / u
  {
    DivBracket(x, u);
    DivBracket(y, u);
    Cancel(u, x / u, y / u);
  }

  /** Adding whole multiples shifts the quotient and keeps the remainder. */
  lemma DivShift(x: int, u: int, k: int)
    requires u > 0
    ensures (x + u * k) / u == x / u + k
    ensures (x + u * k) % u == x % u
  {
    DivBracket(x, u);
    assert u * (x / u + k) == u * (x / u) + u * k;
    DivUnique(x + u * k, u, x / u + k);
    DivBracket(x + u * k, u);
  }

  /** Math.round of a / b for b > 0: halves go up. */
  function RoundDiv(a: int, b: int): int
    requires b > 0
  {
    (2 * a + b) / (2 * b)
  }

  lemma RoundBracket(a: int, b: int)
    requires b > 0
    ensures 2 * b * RoundDiv(a, b) <= 2 * a + b < 2 * b * RoundDiv(a, b) + 2 * b
  {
    DivBracket(2 * a + b, 2 * b);
  }

  /** Math.ceil of a / b for b > 0. */
  function CeilDiv(a: int, b: int): int
    requires b > 0
  {
    (a + b - 1) / b
  }

  lemma CeilBracket(a: int, b: int)
    requires b > 0
    ensures a <= b * CeilDiv(a, b) < a + b
  {
    DivBracket(a + b - 1, b);
  }
}
