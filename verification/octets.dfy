/** Byte strings, as Node's `Buffer` holds them, and the bitwise exclusive-or
    that GCM's counter mode applies to them. */
module Octets {

  type Byte = b: int | 0 <= b < 256

  type Bytes = seq<Byte>

  function Pow2(n: nat): (r: nat)
    ensures r > 0
  {
    if n == 0 then 1 else 2 * Pow2(n - 1)
  }

  /** Exclusive-or of the low `width` bits of `a` and `b`, lowest bit first. */
  function XorBits(a: nat, b: nat, width: nat): (r: nat)
    requires a < Pow2(width) && b < Pow2(width)
    ensures r < Pow2(width)
  {
    if width == 0 then 0
    else (a % 2 + b % 2) % 2 + 2 * XorBits(a / 2, b / 2, width - 1)
  }

  /** Applying the same mask twice restores the value. */
  lemma {:induction false} XorBitsInvolution(a: nat, k: nat, width: nat)
    requires a < Pow2(width) && k < Pow2(width)
    ensures XorBits(XorBits(a, k, width), k, width) == a
  {
    if width > 0 {
      var bit := (a % 2 + k % 2) % 2;
      var high := XorBits(a / 2, k / 2, width - 1);
      var r := XorBits(a, k, width);
      assert r == bit + 2 * high;
      BitSplit(bit, high);
      XorBitsInvolution(a / 2, k / 2, width - 1);
      ParityCancel(a % 2, k % 2);
      assert XorBits(r, k, width) == (bit + k % 2) % 2 + 2 * XorBits(high, k / 2, width - 1);
    }
  }

  /** A low bit and the rest are recovered by `% 2` and `/ 2`. */
  lemma BitSplit(bit: nat, high: nat)
    requires bit < 2
    ensures (bit + 2 * high) % 2 == bit && (bit + 2 * high) / 2 == high
  {
  }

  lemma ParityCancel(x: nat, y: nat)
    requires x < 2 && y < 2
    ensures ((x + y) % 2 + y) % 2 == x
  {
  }

  function Xor(a: Byte, b: Byte): (r: Byte)
  {
    assert Pow2(8) == 256;
    XorBits(a, b, 8)
  }

  /** Exclusive-or with a fixed byte is its own inverse. */
  lemma XorInvolution(a: Byte, k: Byte)
    ensures Xor(Xor(a, k), k) == a
  {
    assert Pow2(8) == 256;
    XorBitsInvolution(a, k, 8);
  }
}
