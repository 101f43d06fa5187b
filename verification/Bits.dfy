/** Bitwise exclusive or on unsigned integers of a given width, bit by bit. */
module Bits {
  import opened Prelude

  function Pow2(n: nat): (p: nat)
    ensures p > 0
  {
    if n == 0 then 1 else 2 * Pow2(n - 1)
  }

  function XorBits(a: nat, b: nat, width: nat): (x: nat)
    ensures x < Pow2(width)
  {
    if width == 0 then 0
    else 2 * XorBits(a / 2, b / 2, width - 1) + (if a % 2 == b % 2 then 0 else 1)
  }

  /** Bit `i` of `n`, counted from the least significant one. */
  predicate Bit(n: nat, i: nat) {
    if i == 0 then n % 2 == 1 else Bit(n / 2, i - 1)
  }

  /** A bit of the exclusive or is set iff exactly one of the two bits is. */
  lemma {:induction false} XorBit(a: nat, b: nat, width: nat, i: nat)
    requires i < width
    ensures Bit(XorBits(a, b, width), i) <==> Bit(a, i) != Bit(b, i)
  {
    var x, bit := XorBits(a / 2, b / 2, width - 1), if a % 2 == b % 2 then 0 else 1;
    assert (2 * x + bit) / 2 == x && (2 * x + bit) % 2 == bit;
    if i > 0 {
      XorBit(a / 2, b / 2, width - 1, i - 1);
    }
  }

  /** A number is determined by its bits. */
  lemma {:induction false} SameBits(x: nat, y: nat, width: nat)
    requires x < Pow2(width) && y < Pow2(width) && forall i: nat | i < width :: Bit(x, i) == Bit(y, i)
    ensures x == y
  {
    if width > 0 {
      forall i: nat | i < width - 1 ensures Bit(x / 2, i) == Bit(y / 2, i) {
        assert Bit(x, i + 1) == Bit(y, i + 1);
      }
      SameBits(x / 2, y / 2, width - 1);
      assert Bit(x, 0) == Bit(y, 0);
    }
  }

  /** `x` differs from `a` in exactly the bits that are set in `k`. */
  ghost predicate DiffersIn(a: nat, k: nat, width: nat, x: nat) {
    forall i: nat | i < width :: Bit(x, i) <==> Bit(a, i) != Bit(k, i)
  }

  lemma XorDiffers(a: nat, k: nat, width: nat)
    ensures DiffersIn(a, k, width, XorBits(a, k, width))
  {
    forall i: nat | i < width ensures Bit(XorBits(a, k, width), i) <==> Bit(a, i) != Bit(k, i) {
      XorBit(a, k, width, i);
    }
  }

  lemma {:induction false} XorInvolutive(a: nat, k: nat, width: nat)
    requires a < Pow2(width)
    ensures XorBits(XorBits(a, k, width), k, width) == a
  {
    if width > 0 {
      var x := XorBits(a / 2, k / 2, width - 1);
      XorInvolutive(a / 2, k / 2, width - 1);
      var bit := if a % 2 == k % 2 then 0 else 1;
      assert (2 * x + bit) / 2 == x && (2 * x + bit) % 2 == bit;
    }
  }

  lemma {:induction false} XorZeroIffEqual(a: nat, b: nat, width: nat)
    requires a < Pow2(width) && b < Pow2(width)
    ensures XorBits(a, b, width) == 0 <==> a == b
  {
    if width > 0 {
      XorZeroIffEqual(a / 2, b / 2, width - 1);
      assert a == 2 * (a / 2) + a % 2 && b == 2 * (b / 2) + b % 2;
    }
  }

  lemma {:induction false} XorCancels(k: nat, a: nat, b: nat, width: nat)
    requires a < Pow2(width) && b < Pow2(width) && XorBits(k, a, width) == XorBits(k, b, width)
    ensures a == b
  {
    if width > 0 {
      var x, y := XorBits(k / 2, a / 2, width - 1), XorBits(k / 2, b / 2, width - 1);
      assert x == XorBits(k, a, width) / 2 && y == XorBits(k, b, width) / 2;
      XorCancels(k / 2, a / 2, b / 2, width - 1);
    }
  }

  lemma PowersUsed()
    ensures Pow2(8) == 256 && Pow2(16) == 0x1_0000
  {
  }

  /** `a ^ b` on octets. */
  function Xor(a: byte, b: byte): byte {
    PowersUsed();
    XorBits(a, b, 8)
  }

  lemma XorTwice(a: byte, k: byte)
    ensures Xor(Xor(a, k), k) == a
  {
    PowersUsed();
    XorInvolutive(a, k, 8);
  }

  lemma XorZero(a: byte, b: byte)
    ensures Xor(a, b) == 0 <==> a == b
  {
    PowersUsed();
    XorZeroIffEqual(a, b, 8);
  }

  lemma XorInjective(k: byte, a: byte, b: byte)
    requires Xor(k, a) == Xor(k, b)
    ensures a == b
  {
    PowersUsed();
    XorCancels(k, a, b, 8);
  }
}
