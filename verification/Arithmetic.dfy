/** Facts about quotients and remainders that the solver finds hard unaided. */
module Arithmetic {

  /** A quotient and a remainder in range are the quotient and the remainder. */
  lemma DivMod(x: int, d: int, q: int, r: int)
    requires 0 < d && x == q * d + r && 0 <= r < d
    ensures x / d == q && x % d == r
  {
    var k := q - x / d;
    assert k * d == x % d - r;
    MultipleBound(k, d);
  }

  lemma MultipleBound(k: int, d: int)
    requires 0 < d
    ensures 0 < k ==> d <= k * d
    ensures k < 0 ==> k * d <= -d
  {
  }

  /** Dividing twice is dividing by the product. */
  lemma DivTwice(n: nat, a: nat, b: nat)
    requires a > 0 && b > 0
    ensures a * b > 0 && n / a / b == n / (a * b)
  {
    var q, r, s := n / a / b, n % a, n / a % b;
    assert n == a * (b * q + s) + r;
    assert a * (b * q + s) == q * (a * b) + a * s;
    MultipleBound(b - s, a);
    assert a * (b - s) == a * b - a * s;
    DivMod(n, a * b, q, a * s + r);
  }
}
