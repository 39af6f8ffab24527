/**
 * The CRC-32 that frames every Nreal Air report: the reflected polynomial
 * 0xEDB88320 of ISO/IEC 3309 (IEEE 802.3), register preset to all ones and
 * complemented at the end, computed a byte at a time through a 256-entry
 * table.  Register values are naturals below 2^32 and `^` is `Xor`.
 */
module NrealCrc {
  import opened Bytes
  import opened Arith
  import opened Bits

  const CRC32_POLY: nat := 0xEDB8_8320

  /** Eight halvings, eight doublings and the eight low bits are the byte arithmetic of the C code. */
  lemma ByteShifts(x: nat)
    ensures Shr(x, 8) == x / TWO_8 && Low(x, 8) == x % TWO_8 && Pow2(8) == TWO_8
  {
    var x1 := x / 2;
    var x2 := x1 / 2;
    var x3 := x2 / 2;
    var x4 := x3 / 2;
    var x5 := x4 / 2;
    var x6 := x5 / 2;
    var x7 := x6 / 2;
    var x8 := x7 / 2;
    assert Shr(x, 8) == x8;
    var l := Low(x, 8);
    ShrShl(x, 8);
    ShlByte(x8);
    DivModUnique(x, TWO_8, x8, l);
  }

  lemma ShlByte(h: nat)
    ensures Shl(h, 8) == 256 * h
  {
    assert Shl(h, 1) == 2 * h;
    assert Shl(h, 2) == 4 * h;
    assert Shl(h, 3) == 8 * h;
    assert Shl(h, 4) == 16 * h;
    assert Shl(h, 5) == 32 * h;
    assert Shl(h, 6) == 64 * h;
    assert Shl(h, 7) == 128 * h;
    assert Shl(h, 8) == 256 * h;
  }

  /** One shift of the reflected register: the bit shifted out decides whether the polynomial is added. */
  function Step(c: nat): nat
  {
    if c % 2 == 1 then Xor(c / 2, CRC32_POLY) else c / 2
  }

  function Steps(c: nat, n: nat): nat
    decreases n
  {
    if n == 0 then c else Steps(Step(c), n - 1)
  }

  /** The bitwise definition of feeding one byte: add it at the low end, then eight shifts. */
  function Feed(c: nat, b: Byte): nat
  {
    Steps(Xor(c, b), 8)
  }

  /** The register after the bytes of `s`, from the preset value. */
  function Register(s: seq<Byte>): nat
    decreases |s|
  {
    if |s| == 0 then TWO_32 - 1 else Feed(Register(s[..|s| - 1]), s[|s| - 1])
  }

  /** The checksum of `s`: the register complemented in 32 bits. */
  function Crc32(s: seq<Byte>): (r: nat)
    ensures r < TWO_32
  {
    RegisterBelow(s);
    TWO_32 - 1 - Register(s)
  }

  /** Entry `t` of `crc32_table`: the register after eight shifts of `t` alone. */
  function Crc32Table(t: Byte): nat
  {
    Steps(t, 8)
  }

  lemma StepBelow(c: nat)
    requires c < TWO_32
    ensures Step(c) < TWO_32
  {
    Pow2Values();
    if c % 2 == 1 {
      XorBelow(c / 2, CRC32_POLY, 32);
    }
  }

  lemma {:induction false} StepsBelow(c: nat, n: nat)
    requires c < TWO_32
    ensures Steps(c, n) < TWO_32
    decreases n
  {
    if n != 0 {
      StepBelow(c);
      StepsBelow(Step(c), n - 1);
    }
  }

  /** The register stays a 32-bit value. */
  lemma {:induction false} RegisterBelow(s: seq<Byte>)
    ensures Register(s) < TWO_32
    decreases |s|
  {
    if |s| != 0 {
      var c := Register(s[..|s| - 1]);
      RegisterBelow(s[..|s| - 1]);
      Pow2Values();
      XorBelow(c, s[|s| - 1], 32);
      StepsBelow(Xor(c, s[|s| - 1]), 8);
    }
  }

  /** A shift is linear: shifting a sum is the sum of the shifts. */
  lemma StepLinear(a: nat, b: nat)
    ensures Step(Xor(a, b)) == Xor(Step(a), Step(b))
  {
    var x, p := Xor(a, b), CRC32_POLY;
    var a2, b2 := a / 2, b / 2;
    XorBit(a, b);
    assert x / 2 == Xor(a2, b2);
    if a % 2 == 1 && b % 2 == 1 {
      // (a2 ^ p) ^ (b2 ^ p) == a2 ^ b2
      XorAssoc(a2, p, Xor(b2, p));
      XorComm(b2, p);
      XorAssoc(p, p, b2);
      XorSelf(p);
    } else if a % 2 == 1 {
      // (a2 ^ b2) ^ p == (a2 ^ p) ^ b2
      XorAssoc(a2, b2, p);
      XorComm(b2, p);
      XorAssoc(a2, p, b2);
    } else if b % 2 == 1 {
      XorAssoc(a2, b2, p);
    }
  }

  lemma {:induction false} StepsLinear(a: nat, b: nat, n: nat)
    ensures Steps(Xor(a, b), n) == Xor(Steps(a, n), Steps(b, n))
    decreases n
  {
    if n != 0 {
      StepLinear(a, b);
      StepsLinear(Step(a), Step(b), n - 1);
    }
  }

  /** Shifting a multiple of 2^n n times adds no polynomial. */
  lemma {:induction false} StepsShift(h: nat, n: nat)
    ensures Steps(Shl(h, n), n) == h
    decreases n
  {
    if n != 0 {
      assert Step(Shl(h, n)) == Shl(h, n - 1);
      StepsShift(h, n - 1);
    }
  }

  /** n shifts of a register are its high part shifted down plus n shifts of its n low bits. */
  lemma ShiftSplit(x: nat, n: nat)
    ensures Steps(x, n) == Xor(Shr(x, n), Steps(Low(x, n), n))
  {
    var hi, lo := Shr(x, n), Low(x, n);
    ShrShl(x, n);
    XorLow(hi, lo, n);
    StepsLinear(Shl(hi, n), lo, n);
    StepsShift(hi, n);
  }

  lemma ByteSplit(x: nat)
    ensures Steps(x, 8) == Xor(x / TWO_8, Steps(x % TWO_8, 8))
  {
    ShiftSplit(x, 8);
    ByteShifts(x);
  }

  /** The byte fed in does not reach the high part, and the C mask keeps all of it. */
  lemma ByteHigh(c: nat, b: Byte)
    requires c < TWO_32
    ensures Xor(c, b) / TWO_8 == c / TWO_8 % TWO_24
  {
    ByteShifts(Xor(c, b));
    ByteShifts(c);
    ByteShifts(b);
    XorShift(c, b, 8);
    var h := c / TWO_8;
    assert h < TWO_24;
    DivModUnique(h, TWO_24, 0, h);
  }

  /**
   * The table step of `crc32_checksum` is the bitwise one: the register
   * shifted right by a byte and masked to 24 bits, xor the table entry of
   * the byte that falls out.
   */
  lemma TableStep(c: nat, b: Byte)
    requires c < TWO_32
    ensures Xor(c / TWO_8 % TWO_24, Crc32Table(Xor(c, b) % TWO_8)) == Feed(c, b)
  {
    ByteSplit(Xor(c, b));
    ByteHigh(c, b);
  }

  /**
   * `crc32_checksum`: the table-driven loop over the first `len` bytes of
   * `buf`, which computes the bitwise CRC-32 of those bytes.
   */
  method Crc32Checksum(buf: seq<Byte>, len: nat) returns (r: nat)
    requires len <= |buf|
    ensures r == Crc32(buf[..len]) && r < TWO_32
  {
    var data: nat := TWO_32 - 1;
    var i := 0;
    while i < len
      invariant i <= len && data == Register(buf[..i])
    {
      RegisterBelow(buf[..i]);
      var t := Xor(data, buf[i]) % TWO_8;
      TableStep(data, buf[i]);
      assert buf[..i + 1][..i] == buf[..i];
      data := Xor(data / TWO_8 % TWO_24, Crc32Table(t));
      i := i + 1;
    }
    assert buf[..len] == buf[..i];
    RegisterBelow(buf[..len]);
    return TWO_32 - 1 - data;
  }

  lemma {:induction false} StepsAdd(c: nat, m: nat, n: nat)
    ensures Steps(c, m + n) == Steps(Steps(c, m), n)
    decreases m
  {
    if m != 0 {
      StepsAdd(Step(c), m - 1, n);
    }
  }

  /** Entry 2^k for k >= 2: the bit reaches the bottom after k shifts, the polynomial then halves. */
  lemma PolyHalvings()
    ensures Steps(CRC32_POLY, 0) == 0xEDB8_8320
    ensures Steps(CRC32_POLY, 1) == 0x76DC_4190
    ensures Steps(CRC32_POLY, 2) == 0x3B6E_20C8
    ensures Steps(CRC32_POLY, 3) == 0x1DB7_1064
    ensures Steps(CRC32_POLY, 4) == 0x0EDB_8832
    ensures Steps(CRC32_POLY, 5) == 0x076D_C419
  {
    StepsAdd(CRC32_POLY, 0, 1);
    StepsAdd(CRC32_POLY, 1, 1);
    StepsAdd(CRC32_POLY, 2, 1);
    StepsAdd(CRC32_POLY, 3, 1);
    StepsAdd(CRC32_POLY, 4, 1);
  }

  /** The generated entries agree with the table as printed at zero and at the powers of two from 0x04 up. */
  lemma TableEntries()
    ensures Crc32Table(0x00) == 0x0000_0000
    ensures Crc32Table(0x04) == 0x076D_C419 && Crc32Table(0x08) == 0x0EDB_8832
    ensures Crc32Table(0x10) == 0x1DB7_1064 && Crc32Table(0x20) == 0x3B6E_20C8
    ensures Crc32Table(0x40) == 0x76DC_4190 && Crc32Table(0x80) == 0xEDB8_8320
  {
    PolyHalvings();
    StepsShift(1, 2);
    assert Shl(1, 2) == 0x4;
    assert Steps(1, 6) == Steps(CRC32_POLY, 5);
    StepsAdd(0x4, 2, 6);
    StepsShift(1, 3);
    assert Shl(1, 3) == 0x8;
    assert Steps(1, 5) == Steps(CRC32_POLY, 4);
    StepsAdd(0x8, 3, 5);
    StepsShift(1, 4);
    assert Shl(1, 4) == 0x10;
    assert Steps(1, 4) == Steps(CRC32_POLY, 3);
    StepsAdd(0x10, 4, 4);
    StepsShift(1, 5);
    assert Shl(1, 5) == 0x20;
    assert Steps(1, 3) == Steps(CRC32_POLY, 2);
    StepsAdd(0x20, 5, 3);
    StepsShift(1, 6);
    assert Shl(1, 6) == 0x40;
    assert Steps(1, 2) == Steps(CRC32_POLY, 1);
    StepsAdd(0x40, 6, 2);
    StepsShift(1, 7);
    assert Shl(1, 7) == 0x80;
    assert Steps(1, 1) == Steps(CRC32_POLY, 0);
    StepsAdd(0x80, 7, 1);
  }
}
