/** Facts about Euclidean division that the solver does not find on its own. */
module Arith {

  /** Quotient and remainder are determined by n == q * d + r with 0 <= r < d. */
  lemma DivUnique(n: int, d: int, q: int, r: int)
    requires d > 0 && n == q * d + r && 0 <= r < d
    ensures n / d == q && n % d == r
  {
    var q', r' := n / d, n % d;
    if q' > q {
      MulAtLeast(q' - q, d);
    } else if q' < q {
      MulAtLeast(q - q', d);
    }
  }

  lemma MulMonotone(a: int, b: int, c: int)
    requires a <= b && c >= 0
    ensures a * c <= b * c
  {
  }

  /** (a - 1) * c == a * c - c */
  lemma MulPred(a: int, c: int)
    ensures (a - 1) * c == a * c - c
  {
  }

  /** (a + 1) * c == a * c + c */
  lemma MulSucc(a: int, c: int)
    ensures (a + 1) * c == a * c + c
  {
  }

  lemma MulNonneg(a: int, b: int)
    requires a >= 0 && b >= 0
    ensures a * b >= 0
  {
  }

  lemma MulComm(a: int, b: int)
    ensures a * b == b * a
  {
  }

  /** The quotient times the divisor does not exceed a non-negative dividend. */
  lemma DivMulLe(n: int, d: int)
    requires n >= 0 && d > 0
    ensures n / d >= 0 && (n / d) * d <= n && d * (n / d) <= n
  {
  }

  /** c * (m - 1) + c == c * m */
  lemma MulStep(c: int, m: int)
    ensures c * (m - 1) + c == c * m
  {
  }

  lemma MulAtLeast(a: int, d: int)
    requires a >= 1 && d > 0
    ensures a * d >= d
  {
  }

  function Abs(n: int): nat
  {
    if n < 0 then -n else n
  }

  /** C# integer division: the quotient rounded toward zero. */
  function TruncDiv(a: int, b: int): int
    requires b != 0
  {
    if (a >= 0) == (b > 0) then Abs(a) / Abs(b) else -(Abs(a) / Abs(b))
  }

  /** On non-negative operands it is the Euclidean quotient; in general it keeps a's magnitude bound. */
  lemma TruncDivBounds(a: int, b: int)
    requires b != 0
    ensures a >= 0 && b > 0 ==> TruncDiv(a, b) == a / b
    ensures Abs(TruncDiv(a, b)) * Abs(b) <= Abs(a) < (Abs(TruncDiv(a, b)) + 1) * Abs(b)
  {
    var q, r := Abs(a) / Abs(b), Abs(a) % Abs(b);
    assert Abs(a) == q * Abs(b) + r;
    MulSucc(q, Abs(b));
  }
}
