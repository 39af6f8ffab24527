/**
 * Shared vocabulary for the byte-level protocol code: bytes, optional
 * results, and the little/big-endian field readers and writers that every
 * packet decoder and encoder uses.
 */
module Bytes {
  import opened Arith

  /** An octet as the C code sees an `unsigned char`. */
  type Byte = x: int | 0 <= x < 256

  datatype Option<T> = None | Some(value: T)

  /** Three signed integer axes (`vec3i` and the int16/int32 triples of the sensor structs). */
  datatype Vec3i = Vec3i(x: int, y: int, z: int)

  const TWO_8: nat := 0x100
  const TWO_16: nat := 0x1_0000
  const TWO_24: nat := 0x100_0000
  const TWO_32: nat := 0x1_0000_0000
  const TWO_64: nat := 0x1_0000_0000_0000_0000

  // ---------------------------------------------------------------------
  // Unsigned readers at an offset
  // ---------------------------------------------------------------------

  function U16(s: seq<Byte>, i: nat): (r: nat)
    requires i + 2 <= |s|
    ensures r < TWO_16
    ensures r % TWO_8 == s[i] && r / TWO_8 == s[i + 1]
  {
    s[i] + TWO_8 * s[i + 1]
  }

  function U24(s: seq<Byte>, i: nat): (r: nat)
    requires i + 3 <= |s|
    ensures r < TWO_24
    ensures r % TWO_16 == U16(s, i) && r / TWO_16 == s[i + 2]
  {
    DivModUnique(U16(s, i) + TWO_16 * s[i + 2], TWO_16, s[i + 2], U16(s, i));
    U16(s, i) + TWO_16 * s[i + 2]
  }

  function U32(s: seq<Byte>, i: nat): (r: nat)
    requires i + 4 <= |s|
    ensures r < TWO_32
    ensures r % TWO_16 == U16(s, i) && r / TWO_16 == U16(s, i + 2)
  {
    DivModUnique(U16(s, i) + TWO_16 * U16(s, i + 2), TWO_16, U16(s, i + 2), U16(s, i));
    U16(s, i) + TWO_16 * U16(s, i + 2)
  }

  function U64(s: seq<Byte>, i: nat): (r: nat)
    requires i + 8 <= |s|
    ensures r < TWO_64
    ensures r % TWO_32 == U32(s, i) && r / TWO_32 == U32(s, i + 4)
  {
    DivModUnique(U32(s, i) + TWO_32 * U32(s, i + 4), TWO_32, U32(s, i + 4), U32(s, i));
    U32(s, i) + TWO_32 * U32(s, i + 4)
  }

  /** Big-endian 16-bit value: the first byte is the most significant. */
  function U16Be(s: seq<Byte>, i: nat): (r: nat)
    requires i + 2 <= |s|
    ensures r < TWO_16
    ensures r / TWO_8 == s[i] && r % TWO_8 == s[i + 1]
  {
    TWO_8 * s[i] + s[i + 1]
  }

  /** Big-endian 32-bit value. */
  function U32Be(s: seq<Byte>, i: nat): (r: nat)
    requires i + 4 <= |s|
    ensures r < TWO_32
    ensures r / TWO_16 == U16Be(s, i) && r % TWO_16 == U16Be(s, i + 2)
  {
    DivModUnique(TWO_16 * U16Be(s, i) + U16Be(s, i + 2), TWO_16, U16Be(s, i), U16Be(s, i + 2));
    TWO_16 * U16Be(s, i) + U16Be(s, i + 2)
  }

  /** A big-endian field is the little-endian reading of its bytes reversed. */
  lemma BigEndianIsReversedLittle(s: seq<Byte>, i: nat)
    requires i + 4 <= |s|
    ensures U16Be(s, i) == U16([s[i + 1], s[i]], 0)
    ensures U32Be(s, i) == U32([s[i + 3], s[i + 2], s[i + 1], s[i]], 0)
  {
  }

  // ---------------------------------------------------------------------
  // Two's complement reinterpretation (the C casts to intN_t)
  // ---------------------------------------------------------------------

  /** `(int8_t)v` */
  function ToInt8(v: nat): (r: int)
    requires v < TWO_8
    ensures -0x80 <= r < 0x80 && (r - v) % TWO_8 == 0
  {
    if v < 0x80 then v else v - TWO_8
  }

  /** `(int16_t)v` */
  function ToInt16(v: nat): (r: int)
    requires v < TWO_16
    ensures -0x8000 <= r < 0x8000 && (r - v) % TWO_16 == 0
  {
    if v < 0x8000 then v else v - TWO_16
  }

  /** Sign extension of a 24-bit field to a wider signed integer. */
  function ToInt24(v: nat): (r: int)
    requires v < TWO_24
    ensures -0x80_0000 <= r < 0x80_0000 && (r - v) % TWO_24 == 0
  {
    if v < 0x80_0000 then v else v - TWO_24
  }

  /** `(int32_t)v` */
  function ToInt32(v: nat): (r: int)
    requires v < TWO_32
    ensures -0x8000_0000 <= r < 0x8000_0000 && (r - v) % TWO_32 == 0
  {
    if v < 0x8000_0000 then v else v - TWO_32
  }

  /** `(int64_t)v` */
  function ToInt64(v: nat): (r: int)
    requires v < TWO_64
    ensures -0x8000_0000_0000_0000 <= r < 0x8000_0000_0000_0000 && (r - v) % TWO_64 == 0
  {
    if v < 0x8000_0000_0000_0000 then v else v - TWO_64
  }

  // ---------------------------------------------------------------------
  // Writers, and the casts they undo
  // ---------------------------------------------------------------------

  function Le16(v: nat): (r: seq<Byte>)
    requires v < TWO_16
    ensures |r| == 2 && U16(r, 0) == v
  {
    [v % TWO_8, v / TWO_8]
  }

  function Le32(v: nat): (r: seq<Byte>)
    requires v < TWO_32
    ensures |r| == 4 && U32(r, 0) == v
  {
    Le16(v % TWO_16) + Le16(v / TWO_16)
  }

  function Le24(v: nat): (r: seq<Byte>)
    requires v < TWO_24
    ensures |r| == 3 && U24(r, 0) == v
  {
    DivModUnique(v, TWO_16, v / TWO_16, v % TWO_16);
    Le16(v % TWO_16) + [v / TWO_16]
  }

  function Be16(v: nat): (r: seq<Byte>)
    requires v < TWO_16
    ensures |r| == 2 && U16Be(r, 0) == v
  {
    [v / TWO_8, v % TWO_8]
  }

  function Be32(v: nat): (r: seq<Byte>)
    requires v < TWO_32
    ensures |r| == 4 && U32Be(r, 0) == v
  {
    var r := Be16(v / TWO_16) + Be16(v % TWO_16);
    assert U16Be(r, 2) == U16Be(Be16(v % TWO_16), 0);
    r
  }

  /** Each cast to a signed type undoes the wrap of a value of that width into its unsigned range. */
  lemma Wrap16(v: int)
    requires -0x8000 <= v < 0x8000
    ensures ToInt16(v % TWO_16) == v
  {
    if v < 0 {
      DivModUnique(v, TWO_16, -1, v + TWO_16);
    } else {
      DivModUnique(v, TWO_16, 0, v);
    }
  }

  lemma Wrap24(v: int)
    requires -0x80_0000 <= v < 0x80_0000
    ensures ToInt24(v % TWO_24) == v
  {
    if v < 0 {
      DivModUnique(v, TWO_24, -1, v + TWO_24);
    } else {
      DivModUnique(v, TWO_24, 0, v);
    }
  }

  lemma Wrap32(v: int)
    requires -0x8000_0000 <= v < 0x8000_0000
    ensures ToInt32(v % TWO_32) == v
  {
    if v < 0 {
      DivModUnique(v, TWO_32, -1, v + TWO_32);
    } else {
      DivModUnique(v, TWO_32, 0, v);
    }
  }

  /** `n` zero bytes, as left by `memset`/`calloc`. */
  function Zeros(n: nat): (r: seq<Byte>)
    ensures |r| == n && forall i :: 0 <= i < n ==> r[i] == 0
  {
    seq(n, _ => 0)
  }
}
