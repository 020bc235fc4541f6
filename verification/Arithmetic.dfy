/** 32-bit unsigned numbers, smaller and larger of two, and quotients and remainders by a variable
    divisor. */
module Arithmetic {
  const UINT32_MAX: nat := 0xFFFF_FFFF
  const U32: nat := 0x1_0000_0000

  /** A number cut to 32 unsigned bits. */
  function Uint32(v: int): (r: nat)
    ensures r < U32 && (0 <= v < U32 ==> r == v)
  {
    v % 0x1_0000_0000
  }

  lemma Uint32Shift(v: int, n: int)
    ensures Uint32(v + n * U32) == Uint32(v)
  {}

  /** What is cut off is a multiple of 2^32. */
  lemma Uint32Rest(v: int) returns (n: int)
    ensures v == n * U32 + Uint32(v)
  {
    n := v / 0x1_0000_0000;
  }

  function Min(a: nat, b: nat): nat { if a <= b then a else b }

  function Max(a: nat, b: nat): nat { if a >= b then a else b }

  lemma Multiples(n: int, d: nat)
    requires 0 < d
    ensures 1 <= n ==> d <= n * d
    ensures n <= -1 ==> n * d <= 0 - d
  {}

  lemma Scaled(a: int, b: int, d: nat)
    requires a <= b
    ensures a * d <= b * d
  {}

  lemma ScaledDifference(a: int, b: int, d: int)
    ensures (a - b) * d == a * d - b * d
  {}

  lemma SameDivision(q: int, r: int, p: int, s: int, d: nat)
    requires 0 <= r < d && 0 <= s < d && q * d + r == p * d + s
    ensures q == p && r == s
  {
    ScaledDifference(q, p, d);
    Multiples(q - p, d);
  }

  /** Quotient and remainder are unique. */
  lemma DivisionIs(x: int, q: int, r: int, d: nat)
    requires 0 < d && 0 <= r < d && x == q * d + r
    ensures x / d == q && x % d == r
  {
    SameDivision(x / d, x % d, q, r, d);
  }

  /** Quotient and remainder. */
  function DivMod(x: nat, d: nat): (qr: (nat, nat))
    requires 0 < d
    ensures x == qr.0 * d + qr.1 && qr.1 < d
    ensures qr == (x / d, x % d)
  {
    (x / d, x % d)
  }
}
