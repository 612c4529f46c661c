/** Facts about division with remainder that the index arithmetic of several components rests on. */
module Arithmetic {

  lemma ProductAtLeast(m: int, d: int)
    requires m >= 0
    ensures d >= 1 ==> m * d >= m
    ensures d <= -1 ==> m * d <= -m
  {
  }

  /** Quotient and remainder are determined by what they add up to. */
  lemma DivModUnique(a: int, m: int, q: int, r: int)
    requires 0 <= r < m && a == m * q + r
    ensures a / m == q && a % m == r
  {
    var d := a / m - q;
    assert m * d == r - a % m;
    ProductAtLeast(m, d);
  }

  lemma ModOfDifference(a: int, b: int, m: int)
    requires m > 0
    ensures (a % m - b % m) % m == (a - b) % m
  {
    var q := (a % m - b % m) / m;
    var r := (a % m - b % m) % m;
    assert a - b == m * (a / m - b / m + q) + r;
    DivModUnique(a - b, m, a / m - b / m + q, r);
  }

  /** Going less than once round takes quotient and remainder on together, or the quotient up and the remainder down. */
  lemma LessThanOnceRound(a: nat, b: nat, m: nat)
    requires a < b < a + m
    ensures a / m <= b / m <= a / m + 1
    ensures if a / m == b / m then a % m < b % m else b % m < a % m
  {
    var q, r := a / m, a % m;
    if r + (b - a) < m {
      DivModUnique(b, m, q, r + (b - a));
    } else {
      assert m * (q + 1) == m * q + m;
      DivModUnique(b, m, q + 1, r + (b - a) - m);
    }
  }
}
