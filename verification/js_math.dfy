/** The JavaScript `Math` operations the protocol relies on, on exact integers. */
module JsMath {

  function Min(a: int, b: int): int { if a <= b then a else b }

  function Max(a: int, b: int): int { if a <= b then b else a }

  /** `Math.ceil(a / b)`: the least integer not below the exact quotient. */
  function CeilDiv(a: int, b: int): (q: int)
    requires b != 0
    ensures b > 0 ==> (q - 1) * b < a <= q * b
    ensures b < 0 ==> q * b <= a < (q - 1) * b
  {
    if b > 0 then
      CeilDivBounds(a, b);
      (a + b - 1) / b
    else
      CeilDivBounds(-a, -b);
      (-a - b - 1) / (-b)
  }

  lemma CeilDivBounds(a: int, b: int)
    requires b > 0
    ensures ((a + b - 1) / b - 1) * b < a <= ((a + b - 1) / b) * b
  {
    var n := a + b - 1;
    var q, r := n / b, n % b;
    assert n == q * b + r && 0 <= r < b;
    assert (q - 1) * b == q * b - b;
  }

  /** `Math.round(num / den)` for `den > 0`: the nearest integer, halves rounded up. */
  function Round(num: int, den: int): (r: int)
    requires den > 0
    ensures 2 * r * den - den <= 2 * num < 2 * r * den + den
  {
    var n, d := 2 * num + den, 2 * den;
    var q, m := n / d, n % d;
    assert n == q * d + m && 0 <= m < d;
    assert 2 * q * den == q * d;
    q
  }

  /** `Math.round((completed / total) * 100)`, the percentage shown by the client. */
  function Percent(completed: int, total: int): int
    requires total > 0
  {
    Round(completed * 100, total)
  }

  lemma {:induction false} PercentBounds(completed: int, total: int)
    requires total > 0 && 0 <= completed <= total
    ensures 0 <= Percent(completed, total) <= 100
    ensures completed == total ==> Percent(completed, total) == 100
  {
    var r := Percent(completed, total);
    assert (2 * r + 1) * total == 2 * r * total + total;
    assert (2 * r - 1) * total == 2 * r * total - total;
    CancelFactor(0, 2 * r + 1, total);
    CancelFactor(2 * r - 1, 201, total);
    CancelFactor(199, 2 * r + 1, total);
  }

  lemma {:induction false} PercentMonotonic(c1: int, c2: int, total: int)
    requires total > 0 && c1 <= c2
    ensures Percent(c1, total) <= Percent(c2, total)
  {
    var r1, r2 := Percent(c1, total), Percent(c2, total);
    assert (2 * r1 - 1) * total == 2 * r1 * total - total;
    assert (2 * r2 + 1) * total == 2 * r2 * total + total;
    CancelFactor(2 * r1 - 1, 2 * r2 + 1, total);
  }

  /** Multiplying by a non-negative factor preserves order. */
  lemma ScaleMonotonic(a: int, b: int, t: int)
    requires t >= 0 && a <= b
    ensures a * t <= b * t
  {
    assert b * t - a * t == (b - a) * t;
  }

  /** A strict inequality between multiples of a positive factor holds between the multiplicands. */
  lemma CancelFactor(a: int, b: int, t: int)
    requires t > 0
    ensures a * t < b * t ==> a < b
  {
    if b <= a {
      ScaleMonotonic(b, a, t);
    }
  }

  /** `Math.pow(2, k)` for a natural exponent. */
  function Pow2(k: nat): (p: nat)
    ensures p >= 1
  {
    if k == 0 then 1 else 2 * Pow2(k - 1)
  }
}
