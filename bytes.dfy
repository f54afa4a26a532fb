/** Bytes as integers 0 .. 255, and the bitwise exclusive or of Go's `^`
    operator on them, defined bit by bit. */
module Bytes {

  /** An unsigned 8-bit value (Go's `byte` / `uint8`). */
  type byte = x: int | 0 <= x < 256

  /** Go's `a + b` on `uint8`: the sum wraps around modulo 256. */
  function Add8(a: byte, b: byte): (r: byte)
  {
    if a + b < 256 then a + b else a + b - 256
  }

  /** 2 to the power n. */
  function Pow2(n: nat): (r: nat)
    ensures r >= 1
  {
    if n == 0 then 1 else 2 * Pow2(n - 1)
  }

  /** The exclusive or of the low n bits of a and b: bit k of the result is
      set exactly when bit k of a and bit k of b differ. */
  function XorBits(a: nat, b: nat, n: nat): (r: nat)
    ensures r < Pow2(n)
  {
    if n == 0 then 0
    else (if a % 2 == b % 2 then 0 else 1) + 2 * XorBits(a / 2, b / 2, n - 1)
  }

  /** An 8-bit value fits in the low 8 bits. */
  lemma ByteFitsEightBits()
    ensures Pow2(8) == 256
  {
    assert Pow2(2) == 4;
    assert Pow2(4) == 16;
    assert Pow2(6) == 64;
  }

  /** Go's `a ^ b` on bytes. */
  function XorByte(a: byte, b: byte): (r: byte)
  {
    ByteFitsEightBits();
    XorBits(a, b, 8)
  }

  /** Exclusive or with the same bits twice gives back the original value. */
  lemma {:induction false} XorBitsTwice(a: nat, b: nat, n: nat)
    requires a < Pow2(n)
    ensures XorBits(XorBits(a, b, n), b, n) == a
  {
    if n > 0 {
      var r := XorBits(a / 2, b / 2, n - 1);
      assert XorBits(a, b, n) / 2 == r;
      XorBitsTwice(a / 2, b / 2, n - 1);
    }
  }

  /** XOR with a keystream byte is self-inverse: `(a ^ k) ^ k == a`. */
  lemma XorByteTwice(a: byte, k: byte)
    ensures XorByte(XorByte(a, k), k) == a
  {
    ByteFitsEightBits();
    XorBitsTwice(a, k, 8);
  }
}
