/**
 * Bytes, the bitwise exclusive-or that masking uses, and the big-endian
 * integer encodings that `struct.pack('>H')` and `struct.pack('>Q')` produce.
 */
module Bytes {

  /** A Python `bytes` element: an integer from 0 to 255. */
  type byte = x: int | 0 <= x < 256

  function Pow2(k: nat): (r: nat)
    ensures r >= 1
  {
    if k == 0 then 1 else 2 * Pow2(k - 1)
  }

  function Pow256(k: nat): (r: nat)
    ensures r >= 1
  {
    if k == 0 then 1 else 256 * Pow256(k - 1)
  }

  /** 2^16 and 2^64: the ranges of the '>H' and '>Q' formats. */
  lemma Pow256Values()
    ensures Pow256(2) == 0x1_0000
    ensures Pow256(8) == 0x1_0000_0000_0000_0000
  {
    assert Pow256(1) == 0x100;
    assert Pow256(2) == 0x1_0000;
    assert Pow256(3) == 0x100_0000;
    assert Pow256(4) == 0x1_0000_0000;
    assert Pow256(5) == 0x100_0000_0000;
    assert Pow256(6) == 0x1_0000_0000_0000;
    assert Pow256(7) == 0x100_0000_0000_0000;
  }

  lemma Pow2Eight()
    ensures Pow2(8) == 256
  {
    assert Pow2(4) == 16;
  }

  /**
   * The exclusive-or of the low `n` bits of `a` and `b`, built from the
   * least significant bit up: bit 0 is set iff the operands' bits 0 differ.
   */
  function XorBits(a: nat, b: nat, n: nat): (r: nat)
    ensures r < Pow2(n)
  {
    if n == 0 then 0
    else 2 * XorBits(a / 2, b / 2, n - 1) + (if a % 2 == b % 2 then 0 else 1)
  }

  /** Python's `a ^ b` on two bytes. */
  function Xor(a: byte, b: byte): (r: byte)
  {
    Pow2Eight();
    XorBits(a, b, 8)
  }

  /** Exclusive-or with the same operand twice restores the first operand. */
  lemma {:induction false} XorBitsTwice(a: nat, k: nat, n: nat)
    requires a < Pow2(n)
    ensures XorBits(XorBits(a, k, n), k, n) == a
  {
    if n > 0 {
      var c := XorBits(a, k, n);
      var c' := XorBits(a / 2, k / 2, n - 1);
      assert c / 2 == c' && c % 2 == (if a % 2 == k % 2 then 0 else 1);
      XorBitsTwice(a / 2, k / 2, n - 1);
    }
  }

  lemma XorTwice(a: byte, k: byte)
    ensures Xor(Xor(a, k), k) == a
  {
    Pow2Eight();
    XorBitsTwice(a, k, 8);
  }

  /** The unsigned value of `s` read most significant byte first. */
  function FromBigEndian(s: seq<byte>): (n: nat)
    ensures n < Pow256(|s|)
  {
    if |s| == 0 then 0
    else FromBigEndian(s[..|s| - 1]) * 256 + s[|s| - 1]
  }

  /** `n` written as exactly `width` bytes, most significant first. */
  function ToBigEndian(n: nat, width: nat): (s: seq<byte>)
    requires n < Pow256(width)
    ensures |s| == width
    ensures FromBigEndian(s) == n
  {
    if width == 0 then []
    else
      DivBound(n, width);
      var init := ToBigEndian(n / 256, width - 1);
      var s := init + [n % 256];
      assert s[..|s| - 1] == init;
      s
  }

  lemma DivBound(n: nat, width: nat)
    requires width > 0 && n < Pow256(width)
    ensures n / 256 < Pow256(width - 1)
  {
  }

  /** Reading a byte string as a number and writing it back at the same width gives the string back. */
  lemma {:induction false} BigEndianInjective(s: seq<byte>)
    ensures ToBigEndian(FromBigEndian(s), |s|) == s
  {
    if |s| > 0 {
      var init := s[..|s| - 1];
      BigEndianInjective(init);
      var n := FromBigEndian(s);
      assert n / 256 == FromBigEndian(init);
      assert n % 256 == s[|s| - 1];
      assert s == init + [s[|s| - 1]];
    }
  }
}
