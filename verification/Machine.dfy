/** The fixed-width arithmetic the C sources rely on (libc/include/julius/types.h). */
module Machine {

  const TWO_63: int := 0x8000_0000_0000_0000
  const TWO_64: int := 0x1_0000_0000_0000_0000

  type byte = x: int | 0 <= x < 0x100
  type uint32 = x: int | 0 <= x < 0x1_0000_0000
  type uint64 = x: int | 0 <= x < TWO_64
  type int64 = x: int | -TWO_63 <= x < TWO_63

  /** Unsigned 64-bit addition, wrapping. */
  function Add64(a: uint64, b: uint64): uint64 {
    (a + b) % 0x1_0000_0000_0000_0000
  }

  /** Unsigned 64-bit multiplication, wrapping. */
  function Mul64(a: uint64, b: uint64): uint64 {
    (a * b) % 0x1_0000_0000_0000_0000
  }

  /** `ALIGN(n, 16)`: add 15 (wrapping), then clear the four low bits. */
  function Align64(n: uint64): uint64 {
    var m := Add64(n, 15);
    m - m % 16
  }

  /** Rounding up to a multiple of 16 on unbounded integers. */
  function AlignUp(n: nat): nat {
    (n + 15) / 16 * 16
  }

  /** AlignUp is the least multiple of 16 that is not below its argument. */
  lemma AlignUpIsLeast(n: nat, m: nat)
    requires n <= m && m % 16 == 0
    ensures n <= AlignUp(n) <= m && AlignUp(n) % 16 == 0
  {
    assert m == m / 16 * 16;
    assert (n + 15) / 16 <= m / 16;
  }

  /** The macro computes the mathematical rounding exactly when the addition does not wrap. */
  lemma AlignExact(n: uint64)
    ensures Align64(n) == AlignUp(n) <==> n <= TWO_64 - 16
  {
    if n <= TWO_64 - 16 {
      assert Add64(n, 15) == n + 15;
    } else {
      assert Add64(n, 15) == n + 15 - TWO_64;
      assert AlignUp(n) >= n;
    }
  }

  /** And where it does, it gives 0. */
  lemma AlignWraps(n: uint64)
    requires n > TWO_64 - 16
    ensures Align64(n) == 0
  {
    assert Add64(n, 15) == n + 15 - TWO_64;
  }

  /** The bit mask of the macro, on the machine word itself: `m & ~15` is `m - m % 16`. */
  lemma MaskClearsLowBits(m: bv64)
    ensures m & !15 == m - m % 16
  {
  }

  /** C's `/` on signed operands truncates toward zero. */
  function TruncDiv(a: int, b: int): int
    requires 0 < b
  {
    if a >= 0 then a / b else -((-a) / b)
  }

  /** C's `%`: the remainder has the sign of the dividend. */
  function TruncMod(a: int, b: int): int
    requires 0 < b
  {
    if a >= 0 then a % b else -((-a) % b)
  }

  // ---- Products and quotients ----

  lemma MulLe(a: nat, b: int, c: int)
    requires b <= c
    ensures a * b <= a * c
  {
  }

  lemma MultiplesApart(d: nat, m: int, n: int)
    ensures n > m ==> n * d >= m * d + d
    ensures n < m ==> n * d <= m * d - d
    ensures n == m ==> n * d == m * d
  {
    if n > m { MulLe(d, m + 1, n); }
    if n < m { MulLe(d, n, m - 1); }
  }

  lemma QuotientTimes(x: nat, d: nat)
    requires 0 < d
    ensures x / d * d <= x < x / d * d + d && x / d * d + x % d == x
  {
  }

  /** C's division and remainder: they make up the dividend, and the remainder is smaller than the divisor
      and has the sign of the dividend. */
  lemma TruncationIs(a: int, b: int)
    requires 0 < b
    ensures TruncDiv(a, b) * b + TruncMod(a, b) == a
    ensures -b < TruncMod(a, b) < b && (a > 0 ==> TruncMod(a, b) >= 0) && (a < 0 ==> TruncMod(a, b) <= 0)
  {
    var n: nat := if a < 0 then -a else a;
    QuotientTimes(n, b);
    assert (-(n / b as int)) * b == -(n / b * b);
  }
}
