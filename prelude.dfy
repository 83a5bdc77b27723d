/** Machine-integer semantics of the Rust operations the watcher uses, and an Option type. */
module Prelude {

  datatype Option<T> = None | Some(value: T)

  const I32_MIN: int := -0x8000_0000
  const I32_MAX: int := 0x7fff_ffff
  const U128_MAX: int := 0xffff_ffff_ffff_ffff_ffff_ffff_ffff_ffff

  predicate IsI32(n: int) { I32_MIN <= n <= I32_MAX }

  predicate IsU128(n: int) { 0 <= n <= U128_MAX }

  function Abs(n: int): nat { if n < 0 then -n else n }

  function Max(a: int, b: int): int { if a < b then b else a }

  function Min(a: int, b: int): int { if a < b then a else b }

  /** Rust's `n as i32`: keeps the low 32 bits, read as two's complement. */
  function AsI32(n: int): (r: int)
    ensures IsI32(r)
    ensures (n - r) % 0x1_0000_0000 == 0
    ensures IsI32(n) ==> r == n
  {
    var k := n - I32_MIN;
    assert k == (k / 0x1_0000_0000) * 0x1_0000_0000 + k % 0x1_0000_0000;
    k % 0x1_0000_0000 + I32_MIN
  }

  lemma SignedMul(q: int, m: int, s: int, b: int)
    requires m > 0 && (s == 1 || s == -1) && b == s * m
    ensures q * m == (s * q) * b
  {
  }

  /**
   * Rust's `a % b` on integers: the remainder of division truncated toward
   * zero, whose sign follows the dividend (Dafny's own `%` is Euclidean).
   */
  function Rem(a: int, b: int): (r: int)
    requires b != 0
    ensures Abs(r) < Abs(b)
    ensures a >= 0 ==> r >= 0
    ensures a <= 0 ==> r <= 0
    ensures exists q :: a == q * b + r
  {
    TruncatedQuotient(a, b);
    if a >= 0 then a % Abs(b) else -((-a) % Abs(b))
  }

  /** The remainder above leaves a multiple of the divisor: a truncated quotient exists. */
  lemma TruncatedQuotient(a: int, b: int)
    requires b != 0
    ensures exists q :: a == q * b + (if a >= 0 then a % Abs(b) else -((-a) % Abs(b)))
  {
    var m, n := Abs(b), Abs(a);
    var q := n / m;
    assert n == q * m + n % m;
    var s := if b < 0 then -1 else 1;
    if a >= 0 {
      SignedMul(q, m, s, b);
      assert a == (s * q) * b + a % m;
    } else {
      SignedMul(-q, m, s, b);
      assert a == (s * -q) * b + -((-a) % m);
    }
  }

  /** Where truncation and Euclid differ: Rust gives -1 for `-801 % 800`, Euclid 799. */
  lemma RemExamples()
    ensures Rem(-801, 800) == -1 && Rem(801, 800) == 1 && Rem(-800, 800) == 0
    ensures Rem(I32_MIN, 800) == -448
  {
  }
}
