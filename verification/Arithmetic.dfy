/** Facts about division, saturation and bounds that several modules share. */
module Arithmetic {

  const U16_MAX := 0xffff
  const U32_MAX := 0xffff_ffff
  const U64_MAX := 0xffff_ffff_ffff_ffff

  type Byte = x: int | 0 <= x < 256

  function Min(a: int, b: int): int { if a < b then a else b }

  function Max(a: int, b: int): int { if a < b then b else a }

  /** `a.saturating_add(b)` on u64. */
  function SaturatingAdd(a: nat, b: nat): nat { Min(a + b, U64_MAX) }

  lemma DivModUnique(x: nat, n: nat, q: nat, r: nat)
    requires r < n && x == n * q + r
    ensures x / n == q && x % n == r
  {
    var d := x / n - q;
    assert x == n * (x / n) + x % n;
    assert n * d == r - x % n;
    assert d >= 1 ==> n * d >= n;
    assert d <= -1 ==> n * d + n <= 0;
  }

  lemma ModOfSum(n: nat, k: nat, y: nat)
    requires n > 0
    ensures (n * k + y) % n == y % n
  {
    assert n * k + y == n * (k + y / n) + y % n;
    DivModUnique(n * k + y, n, k + y / n, y % n);
  }

  lemma MulMonotone(a: nat, b: nat, c: nat)
    requires a <= b
    ensures a * c <= b * c && c * a <= c * b
  {
    assert b * c == a * c + (b - a) * c;
  }

  lemma DivAtLeast(a: nat, n: nat, q: nat)
    requires n > 0 && a >= n * q
    ensures a / n >= q
  {
    var d := a / n;
    assert a == n * d + a % n;
    if d < q { MulMonotone(d + 1, q, n); }
  }
}
