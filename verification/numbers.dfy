/** Shared arithmetic. */
module Numbers {
  function MinInt(a: int, b: int): int {
    if b < a then b else a
  }

  function MaxInt(a: int, b: int): int {
    if b > a then b else a
  }

  /** max(low, min(high, n)) */
  function ClampInt(low: int, high: int, n: int): int {
    MaxInt(low, MinInt(high, n))
  }

  function Min(a: real, b: real): real {
    if a < b then a else b
  }

  lemma ProductNonNegative(x: real, y: real)
    requires x >= 0.0 && y >= 0.0
    ensures x * y >= 0.0
  {
  }

  lemma ProductMonotone(x: real, y: real, z: real)
    requires x <= y && z >= 0.0
    ensures x * z <= y * z
  {
    ProductNonNegative(y - x, z);
    assert (y - x) * z == y * z - x * z;
  }

  /** A number in range is kept, any other moved to the nearest bound. */
  lemma ClampIntExactly(low: int, high: int, n: int)
    requires low <= high
    ensures low <= n <= high ==> ClampInt(low, high, n) == n
    ensures n < low ==> ClampInt(low, high, n) == low
    ensures n > high ==> ClampInt(low, high, n) == high
  {
  }

  lemma MinExactly(a: real, b: real)
    ensures a <= b ==> Min(a, b) == a
    ensures b <= a ==> Min(a, b) == b
  {
  }
}
