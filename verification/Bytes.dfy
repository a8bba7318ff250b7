/** Fixed-width unsigned integers, and the bit operations of the C code on them. */
module Bytes {

  type byte = x: int | 0 <= x < 0x100
  type u16 = x: int | 0 <= x < 0x1_0000
  type u32 = x: int | 0 <= x < 0x1_0000_0000

  /** 32-bit addition, without the carry. */
  function Add32(a: u32, n: nat): u32 {
    (a + n) % 0x1_0000_0000
  }

  /** Bitwise conjunction of two non-negative integers. */
  function BitAnd(a: nat, b: nat): (r: nat)
    ensures r <= a && r <= b
  {
    if a == 0 || b == 0 then 0
    else (a % 2) * (b % 2) + 2 * BitAnd(a / 2, b / 2)
  }

  /** The low `bits` ones of a mask leave a number of that many bits alone. */
  lemma {:induction false} BitAndOnes(bits: nat, ones: nat, b: nat)
    requires ones == Pow2(bits) - 1
    requires b <= ones
    ensures BitAnd(ones, b) == b
    decreases bits
  {
    if ones != 0 && b != 0 {
      BitAndOnes(bits - 1, ones / 2, b / 2);
    }
  }

  function Pow2(n: nat): nat {
    if n == 0 then 1 else 2 * Pow2(n - 1)
  }

  /** Programming an erased (all ones) byte stores the value itself. */
  lemma BitAndErased(b: byte)
    ensures BitAnd(0xff, b) == b
  {
    assert Pow2(4) == 16;
    assert Pow2(8) == 256;
    BitAndOnes(8, 0xff, b);
  }

  lemma MulAtLeast(d: int, m: nat)
    ensures d > 0 ==> d * m >= m
    ensures d < 0 ==> d * m <= -(m as int)
  {
  }

  /** Quotient and remainder are unique. */
  lemma Remainder(x: int, m: nat, q: int, r: nat)
    requires m > 0 && x == q * m + r && r < m
    ensures x % m == r && x / m == q
  {
    MulAtLeast(x / m - q, m);
    assert (x / m - q) * m == r - x % m by {
      assert x == x / m * m + x % m;
    }
  }
}
