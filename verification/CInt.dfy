/** C integer arithmetic on an LP64 platform: 32-bit `int`, 64-bit `long`,
    and division that truncates toward zero. */
module CInt {
  const INT_MAX := 0x7fff_ffff
  const LONG_MAX := 0x7fff_ffff_ffff_ffff

  type Int32 = x: int | -INT_MAX - 1 <= x <= INT_MAX
  type Int64 = x: int | -LONG_MAX - 1 <= x <= LONG_MAX

  predicate FitsInt(x: int) {
    -INT_MAX - 1 <= x <= INT_MAX
  }

  /** C `a / b` for a positive divisor. */
  function Div(a: int, b: int): int
    requires b > 0
  {
    if a >= 0 then a / b else -((-a) / b)
  }

  /** C `a % b` for a positive divisor: the result takes the sign of `a`. */
  function Mod(a: int, b: int): int
    requires b > 0
  {
    if a >= 0 then a % b else -((-a) % b)
  }

  lemma NoMultipleWithin(k: int, z: int)
    requires -k < k * z < k
    ensures z == 0
  {
  }

  /** Quotient and remainder are the only pair that fits. */
  lemma Division(n: int, k: int, q: int, r: int)
    requires k > 0 && 0 <= r < k && n == k * q + r
    ensures n / k == q && n % k == r
  {
    assert n == k * (n / k) + n % k;
    assert k * (q - n / k) == k * q - k * (n / k);
    NoMultipleWithin(k, q - n / k);
  }

  /** `Division`, in C terms: for operands that are not negative the C operators are these. */
  lemma CDivision(n: int, k: int, q: int, r: int)
    requires n >= 0 && k > 0 && 0 <= r < k && n == k * q + r
    ensures Div(n, k) == q && Mod(n, k) == r
  {
    Division(n, k, q, r);
  }
}
