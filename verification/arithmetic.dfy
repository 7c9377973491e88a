/** Facts about integer multiplication and division that the proofs about
    palette indices and row breaks share. */
module Arithmetic {

  /** A positive factor can be cancelled from both sides of an inequality. */
  lemma CancelFactor(x: int, y: int, d: int)
    requires d > 0 && x * d <= y * d
    ensures x <= y
  {
  }

  /** The same, for a strict inequality. */
  lemma CancelFactorStrict(x: int, y: int, d: int)
    requires d > 0 && x * d < y * d
    ensures x < y
  {
  }

  /** Quotient and remainder are the unique q, r with a == q * d + r and 0 <= r < d. */
  lemma DivModUnique(a: int, d: int, q: int, r: int)
    requires d > 0 && a == q * d + r && 0 <= r < d
    ensures a / d == q && a % d == r
  {
    var q', r' := a / d, a % d;
    assert a == q' * d + r' && 0 <= r' < d;
    assert (q - q') * d == r' - r;
    CancelFactorStrict(q - q', 1, d);
    CancelFactorStrict(q' - q, 1, d);
  }

  /** Division by a positive divisor is monotone. */
  lemma DivMonotone(a: nat, b: nat, d: nat)
    requires d > 0 && a <= b
    ensures a / d <= b / d
  {
    assert (a / d) * d <= a;
    assert b < (b / d) * d + d == (b / d + 1) * d;
    CancelFactorStrict(a / d, b / d + 1, d);
  }

  /** A positive multiple of d has a last block of d: it is at least d, and
      what precedes that block is again a multiple of d. */
  lemma LastRow(n: nat, d: nat)
    requires d > 0 && n > 0 && n % d == 0
    ensures n >= d && (n - d) % d == 0
  {
    var q := n / d;
    assert n == q * d;
    CancelFactorStrict(0, q, d);
    assert n - d == (q - 1) * d;
    DivModUnique(n - d, d, q - 1, 0);
  }
}
