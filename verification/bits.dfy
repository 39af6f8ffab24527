/**
 * Bitwise operations on naturals, lowest bit first: exclusive or, shifts
 * and the low bits of a value, with the algebra the checksum and cipher
 * proofs need.  Register values of a given width are naturals below a power
 * of two.
 */
module Bits {
  import opened Arith

  function Pow2(n: nat): (r: nat)
    ensures r >= 1
  {
    if n == 0 then 1 else 2 * Pow2(n - 1)
  }

  /** Bitwise exclusive or of two naturals, lowest bit first. */
  function Xor(a: nat, b: nat): nat
    decreases a
  {
    if a == 0 then b
    else if b == 0 then a
    else 2 * Xor(a / 2, b / 2) + (a + b) % 2
  }

  /** A natural is fixed by its lowest bit and the rest. */
  lemma Halves(x: nat, y: nat)
    requires x % 2 == y % 2 && x / 2 == y / 2
    ensures x == y
  {
  }

  /** The lowest bit of `a ^ b` is the sum of the lowest bits, and the rest is the xor of the rests. */
  lemma XorBit(a: nat, b: nat)
    ensures Xor(a, b) % 2 == if a % 2 == b % 2 then 0 else 1
    ensures Xor(a, b) / 2 == Xor(a / 2, b / 2)
  {
    if a != 0 && b != 0 {
      var r := (a + b) % 2;
      assert r == if a % 2 == b % 2 then 0 else 1;
      DivModUnique(Xor(a, b), 2, Xor(a / 2, b / 2), r);
    }
  }

  lemma {:induction false} XorComm(a: nat, b: nat)
    ensures Xor(a, b) == Xor(b, a)
    decreases a + b
  {
    if a != 0 && b != 0 {
      XorBit(a, b);
      XorBit(b, a);
      XorComm(a / 2, b / 2);
      Halves(Xor(a, b), Xor(b, a));
    }
  }

  lemma {:induction false} XorAssoc(a: nat, b: nat, c: nat)
    ensures Xor(Xor(a, b), c) == Xor(a, Xor(b, c))
    decreases a + b + c
  {
    if a != 0 && b != 0 && c != 0 {
      XorBit(Xor(a, b), c);
      XorBit(a, b);
      XorBit(a, Xor(b, c));
      XorBit(b, c);
      XorAssoc(a / 2, b / 2, c / 2);
      Halves(Xor(Xor(a, b), c), Xor(a, Xor(b, c)));
    }
  }

  lemma {:induction false} XorSelf(a: nat)
    ensures Xor(a, a) == 0
    decreases a
  {
    if a != 0 {
      XorBit(a, a);
      XorSelf(a / 2);
      Halves(Xor(a, a), 0);
    }
  }

  /** `x << n`, unbounded. */
  function Shl(x: nat, n: nat): nat
    decreases n
  {
    if n == 0 then x else 2 * Shl(x, n - 1)
  }

  /** `x >> n`. */
  function Shr(x: nat, n: nat): nat
    decreases n
  {
    if n == 0 then x else Shr(x / 2, n - 1)
  }

  /** Xor with a value below 2^n fills the n zero bits of a left-shifted value. */
  lemma {:induction false} XorLow(a: nat, b: nat, n: nat)
    requires b < Pow2(n)
    ensures Xor(Shl(a, n), b) == Shl(a, n) + b
    decreases n
  {
    if n != 0 {
      var h := Shl(a, n - 1);
      assert b / 2 < Pow2(n - 1);
      XorBit(2 * h, b);
      XorLow(a, b / 2, n - 1);
      DivModUnique(2 * h, 2, h, 0);
      DivModUnique(2 * h + b, 2, h + b / 2, b % 2);
      Halves(Xor(2 * h, b), 2 * h + b);
    }
  }

  /** Shifting right distributes over xor. */
  lemma {:induction false} XorShift(a: nat, b: nat, n: nat)
    ensures Shr(Xor(a, b), n) == Xor(Shr(a, n), Shr(b, n))
    decreases n
  {
    if n != 0 {
      XorBit(a, b);
      XorShift(a / 2, b / 2, n - 1);
    }
  }

  /** A value is its high part shifted back, filled with its low part. */
  lemma {:induction false} ShrShl(x: nat, n: nat)
    ensures x == Shl(Shr(x, n), n) + Low(x, n) && Low(x, n) < Pow2(n)
    decreases n
  {
    if n != 0 {
      ShrShl(x / 2, n - 1);
      ShlHalf(Shr(x / 2, n - 1), n);
    }
  }

  lemma ShlHalf(h: nat, n: nat)
    requires n != 0
    ensures Shl(h, n) == 2 * Shl(h, n - 1)
  {
  }

  /** The n low bits of `x`. */
  function Low(x: nat, n: nat): nat
    decreases n
  {
    if n == 0 then 0 else 2 * Low(x / 2, n - 1) + x % 2
  }

  lemma {:induction false} XorBelow(a: nat, b: nat, n: nat)
    requires a < Pow2(n) && b < Pow2(n)
    ensures Xor(a, b) < Pow2(n)
    decreases n
  {
    if n != 0 && a != 0 && b != 0 {
      XorBelow(a / 2, b / 2, n - 1);
    }
  }

  /** Xor with the same value twice is the identity. */
  lemma XorTwice(a: nat, b: nat)
    ensures Xor(Xor(a, b), b) == a
  {
    XorAssoc(a, b, b);
    XorSelf(b);
  }

  /** The powers of two that name the register widths. */
  lemma Pow2Values()
    ensures Pow2(2) == 4 && Pow2(8) == 256 && Pow2(32) == 0x1_0000_0000
  {
    assert Pow2(4) == 16;
    assert Pow2(8) == 256;
    assert Pow2(12) == 4096;
    assert Pow2(16) == 65536;
    assert Pow2(20) == 1048576;
    assert Pow2(24) == 16777216;
    assert Pow2(28) == 268435456;
    assert Pow2(32) == 4294967296;
  }
}
