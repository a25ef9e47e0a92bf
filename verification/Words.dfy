/** Machine words: unsigned arithmetic wraps modulo the width of the C type. */
module Words {

  /** The value a uint64_t keeps of an integer result. */
  function U64(x: int): int {
    x % 0x1_0000_0000_0000_0000
  }

  /** The value a uint128_t keeps of an integer result. */
  function U128(x: int): int {
    x % 0x1_0000_0000_0000_0000_0000_0000_0000_0000
  }

  /** x & (2^51 - 1) */
  function Lo51(x: int): int {
    x % 0x8_0000_0000_0000
  }

  /** x >> 51 */
  function Hi51(x: int): int {
    x / 0x8_0000_0000_0000
  }

  lemma MulBounds(a: int, b: int, x: int, y: int)
    requires 0 <= a <= x && 0 <= b <= y
    ensures 0 <= a * b <= x * y
  {
  }

  // ---- the 128-bit macros of ed25519-donna-portable.h; each requires that its result fits ----

  /** mul64x64_128 for x = k * a: the small factor k of a limb, and of the bound, is kept apart. */
  method Mul64x64(x: int, y: int, ghost k: int, ghost a: int) returns (out: int)
    requires x == k * a && 1 <= k <= 38
    requires 0 <= a < 0x40_0000_0000_0000 && 0 <= y < 0x40_0000_0000_0000
    ensures out == k * (a * y)
    ensures 0 <= out <= k * 0x1000_0000_0000_0000_0000_0000_0000
  {
    MulBounds(a, y, 0x40_0000_0000_0000, 0x40_0000_0000_0000);
    MulBounds(k, a * y, k, 0x1000_0000_0000_0000_0000_0000_0000);
    assert x * y == k * (a * y);
    out := U128(x * y);
  }

  method Add128(a: int, b: int) returns (out: int)
    requires 0 <= a && 0 <= b && a + b < 0x1_0000_0000_0000_0000_0000_0000_0000_0000
    ensures out == a + b
  {
    out := U128(a + b);
  }

  method Add64(a: int, b: int) returns (out: int)
    requires 0 <= a && 0 <= b && a + b < 0x1_0000_0000_0000_0000
    ensures out == a + b
  {
    out := U64(a + b);
  }

  method Times19(a: int) returns (out: int)
    requires 0 <= a && a * 19 < 0x1_0000_0000_0000_0000
    ensures out == 19 * a
  {
    out := U64(a * 19);
  }

  lemma LowBits(x: int)
    ensures U64(x) % 0x8_0000_0000_0000 == x % 0x8_0000_0000_0000
  {
    var k, z := x / 0x1_0000_0000_0000_0000, x % 0x1_0000_0000_0000_0000;
    assert x == 0x8_0000_0000_0000 * (0x2000 * k + z / 0x8_0000_0000_0000) + z % 0x8_0000_0000_0000;
  }

  lemma HighBits(x: int)
    requires 0 <= x < 0x8_0000_0000_0000_0000_0000_0000_0000
    ensures U64(x / 0x8_0000_0000_0000) == x / 0x8_0000_0000_0000 && 0 <= x / 0x8_0000_0000_0000
  {
  }

  /** lo128(x) & (2^51 - 1) and shr128(c, x, 51): nothing of x is lost below 2^115. */
  method Split51(x: int) returns (lo: int, c: int)
    requires 0 <= x < 0x8_0000_0000_0000_0000_0000_0000_0000
    ensures 0 <= lo < 0x8_0000_0000_0000 && 0 <= c < 0x1_0000_0000_0000_0000
    ensures x == lo + 0x8_0000_0000_0000 * c
  {
    LowBits(x);
    HighBits(x);
    lo := Lo51(U64(x));
    c := U64(Hi51(x));
  }

  /** shl128(c, x, 13): the upper 64 bits of x << 13. */
  method Shl13(x: int) returns (c: int)
    requires 0 <= x < 0x8_0000_0000_0000_0000_0000_0000_0000
    ensures 0 <= c && 0 <= x - 0x8_0000_0000_0000 * c < 0x8_0000_0000_0000
  {
    c := U128(x * 0x2000) / 0x1_0000_0000_0000_0000;
  }

  /** a + k - b, where the constant k keeps the difference from going below zero. */
  method AddSub64(a: int, k: int, b: int) returns (out: int)
    requires 0 <= a < 0x8000_0000_0000_0000 && 0 <= b <= k < 0x8000_0000_0000_0000
    ensures out == a + k - b
  {
    out := U64(U64(a + k) - b);
  }
}
