/** What the other modules share. */
module Basics {

  const TWO32 := 0x1_0000_0000

  datatype Option<+T> = None | Some(value: T)

  function Pow2(n: nat): (r: int)
    ensures r > 0
  {
    if n == 0 then 1 else 2 * Pow2(n - 1)
  }

  lemma {:induction false} PowerValues()
    ensures Pow2(15) == 0x8000 && Pow2(16) == 0x1_0000 && Pow2(30) == 0x4000_0000 && Pow2(31) == 0x8000_0000
  {
    assert Pow2(8) == 0x100;
    assert Pow2(15) == 0x8000;
    assert Pow2(23) == 0x80_0000;
    assert Pow2(30) == 0x4000_0000;
  }

  lemma {:induction false} PowerSum(a: nat, b: nat)
    ensures Pow2(a) * Pow2(b) == Pow2(a + b)
    decreases a
  {
    if a > 0 {
      PowerSum(a - 1, b);
    }
  }

  lemma {:induction false} TimesMonotone(x: int, a: int, b: int)
    requires x >= 0
    ensures a <= b ==> x * a <= x * b
  {
  }

  lemma {:induction false} NonNegativeProduct(u: int, w: int)
    requires u >= 0 && w >= 0
    ensures u * w >= 0
  {
  }

  lemma {:induction false} ProductWithin(a: int, b: int, m: int, n: int)
    requires -m <= a <= m && -n <= b <= n
    ensures -(m * n) <= a * b <= m * n
  {
    NonNegativeProduct(m - a, n + b);
    NonNegativeProduct(m + a, n - b);
    NonNegativeProduct(m - a, n - b);
    NonNegativeProduct(m + a, n + b);
    assert (m - a) * (n + b) == m * n + m * b - a * n - a * b;
    assert (m + a) * (n - b) == m * n - m * b + a * n - a * b;
    assert (m - a) * (n - b) == m * n - m * b - a * n + a * b;
    assert (m + a) * (n + b) == m * n + m * b + a * n + a * b;
  }

  /** Division by a positive number has one quotient and one remainder. */
  lemma {:induction false} DivisionUnique(a: int, q: int, r: int, m: int)
    requires m > 0 && a == m * q + r && 0 <= r < m
    ensures a / m == q && a % m == r
  {
    var d := q - a / m;
    assert a == m * (a / m) + a % m;
    assert m * d == a % m - r;
    TimesMonotone(m, 1, d);
    TimesMonotone(m, d, -1);
  }
}
