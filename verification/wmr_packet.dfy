/**
 * Windows Mixed Reality report decoding (src/drv_wmr/packet.c): the 45-byte
 * motion controller report, with its two 12-bit stick axes packed into
 * three bytes and its 24-bit accelerometer and gyro axes, and the HoloLens
 * sensor report of 497 or 381 bytes, read field by field through a cursor.
 */
module WmrPacket {
  import opened Bytes
  import Arith

  const MOTION_CONTROLLER_SIZE: nat := 45
  const HOLOLENS_SIZE: nat := 497
  const HOLOLENS_SHORT_SIZE: nat := 381
  /** The bytes the HoloLens decoder reads, from the id to the last video timestamp. */
  const HOLOLENS_READ: nat := 345

  // -----------------------------------------------------------------------
  // The readers
  // -----------------------------------------------------------------------

  /**
   * `read24`: the three bytes shifted into the top of an `int32_t`, then
   * shifted right by 8 (arithmetic, rounding towards minus infinity): the
   * 24-bit value sign-extended.
   */
  function Read24(s: seq<Byte>, i: nat): (r: int)
    requires i + 3 <= |s|
    ensures r == ToInt24(U24(s, i))
    ensures -0x80_0000 <= r < 0x80_0000
  {
    var w := ToInt32(U24(s, i) * TWO_8);
    w / TWO_8
  }

  /** `read_u32` returns an `int32_t` that the caller stores into a `uint32_t`: the value is the plain unsigned reading. */
  function ReadU32(s: seq<Byte>, i: nat): (r: nat)
    requires i + 4 <= |s|
    ensures r == U32(s, i)
  {
    var w := ToInt32(U32(s, i));
    Wrap32Back(U32(s, i));
    w % TWO_32
  }

  /** Storing an `int32_t` reading back into 32 unsigned bits gives the bits read. */
  lemma Wrap32Back(v: nat)
    requires v < TWO_32
    ensures ToInt32(v) % TWO_32 == v
  {
    if v >= 0x8000_0000 {
      Arith.DivModUnique(v - TWO_32, TWO_32, -1, v);
    }
  }

  /** `read16` into a `uint16_t` field: the plain unsigned reading. */
  function ReadU16(s: seq<Byte>, i: nat): (r: nat)
    requires i + 2 <= |s|
    ensures r == U16(s, i)
  {
    var w := ToInt16(U16(s, i));
    if w < 0 then w + TWO_16 else w
  }

  // -----------------------------------------------------------------------
  // The stick: two 12-bit axes in three bytes
  // -----------------------------------------------------------------------

  /** `stick[0] | (stick[1] & 0xf) << 8` */
  function StickX(b0: Byte, b1: Byte): (r: nat)
    ensures r < 0x1000
  {
    var lo: nat, hi: nat := b0, b1;
    lo + (hi % 16) * TWO_8
  }

  /** `(stick[1] & 0xf0) >> 4 | stick[2] << 4` */
  function StickY(b1: Byte, b2: Byte): (r: nat)
    ensures r < 0x1000
  {
    var lo: nat, hi: nat := b1, b2;
    lo / 16 + hi * 16
  }

  /** How a controller packs two 12-bit axes into three bytes. */
  function StickBytes(x: nat, y: nat): (r: seq<Byte>)
    requires x < 0x1000 && y < 0x1000
    ensures |r| == 3
  {
    [x % TWO_8, x / TWO_8 + (y % 16) * 16, y / 16]
  }

  /** Both axes come back from their three bytes. */
  lemma StickRoundTrip(x: nat, y: nat)
    requires x < 0x1000 && y < 0x1000
    ensures var b := StickBytes(x, y); StickX(b[0], b[1]) == x && StickY(b[1], b[2]) == y
  {
    var b := StickBytes(x, y);
    var m: nat := b[1];
    Arith.DivModUnique(m, 16, y % 16, x / TWO_8);
    Arith.DivModUnique(x, TWO_8, x / TWO_8, x % TWO_8);
    Arith.DivModUnique(y, 16, y / 16, y % 16);
  }

  /** The three bytes come back from the two axes: the packing loses nothing. */
  lemma StickLossless(b0: Byte, b1: Byte, b2: Byte)
    ensures StickBytes(StickX(b0, b1), StickY(b1, b2)) == [b0, b1, b2]
  {
    var m: nat := b1;
    Arith.DivModUnique(StickX(b0, b1), TWO_8, m % 16, b0);
    Arith.DivModUnique(StickY(b1, b2), 16, b2, m / 16);
  }

  // -----------------------------------------------------------------------
  // motion_controller_decode_packet
  // -----------------------------------------------------------------------

  datatype MotionControllerPacket = MotionControllerPacket(
    id: Byte, buttons: Byte, stickX: nat, stickY: nat, trigger: Byte, touchpadX: Byte, touchpadY: Byte,
    battery: Byte, accel: Vec3i, gyro: Vec3i, timestamp: nat)

  /** The report's fields at their offsets; two bytes between the accelerometer and the gyro are skipped. */
  function MotionControllerAt(s: seq<Byte>): MotionControllerPacket
    requires |s| >= 33
  {
    MotionControllerPacket(s[0], s[1], StickX(s[2], s[3]), StickY(s[3], s[4]), s[5], s[6], s[7], s[8],
                           Vec3i(Read24(s, 9), Read24(s, 12), Read24(s, 15)),
                           Vec3i(Read24(s, 20), Read24(s, 23), Read24(s, 26)),
                           ReadU32(s, 29))
  }

  /** `motion_controller_decode_packet`: a report of exactly 45 bytes, read through the cursor. */
  method DecodeMotionController(buffer: seq<Byte>) returns (r: Option<MotionControllerPacket>)
    ensures r.Some? <==> |buffer| == MOTION_CONTROLLER_SIZE
    ensures r.Some? ==> r.value == MotionControllerAt(buffer)
  {
    if |buffer| != MOTION_CONTROLLER_SIZE {
      return None;
    }
    var pos := 0;
    var id := buffer[pos];
    var buttons := buffer[pos + 1];
    var s0, s1, s2 := buffer[pos + 2], buffer[pos + 3], buffer[pos + 4];
    pos := pos + 5;
    var stickX := StickX(s0, s1);
    var stickY := StickY(s1, s2);
    var trigger := buffer[pos];
    var touchX := buffer[pos + 1];
    var touchY := buffer[pos + 2];
    var battery := buffer[pos + 3];
    pos := pos + 4;
    var ax := Read24(buffer, pos);
    var ay := Read24(buffer, pos + 3);
    var az := Read24(buffer, pos + 6);
    pos := pos + 9;
    pos := pos + 2;
    var gx := Read24(buffer, pos);
    var gy := Read24(buffer, pos + 3);
    var gz := Read24(buffer, pos + 6);
    pos := pos + 9;
    var timestamp := ReadU32(buffer, pos);
    r := Some(MotionControllerPacket(id, buttons, stickX, stickY, trigger, touchX, touchY, battery,
                                     Vec3i(ax, ay, az), Vec3i(gx, gy, gz), timestamp));
  }

  /** A packet whose fields fit the widths a controller sends them in. */
  predicate MotionFits(p: MotionControllerPacket)
  {
    p.stickX < 0x1000 && p.stickY < 0x1000 && Fits24(p.accel) && Fits24(p.gyro) && p.timestamp < TWO_32
  }

  predicate Fits24(v: Vec3i)
  {
    -0x80_0000 <= v.x < 0x80_0000 && -0x80_0000 <= v.y < 0x80_0000 && -0x80_0000 <= v.z < 0x80_0000
  }

  function Axes24(v: Vec3i): (r: seq<Byte>)
    requires Fits24(v)
    ensures |r| == 9
  {
    Le24(v.x % TWO_24) + Le24(v.y % TWO_24) + Le24(v.z % TWO_24)
  }

  /** The 45 bytes a controller sends for a packet (the skipped and trailing bytes zero). */
  function MotionControllerBytes(p: MotionControllerPacket): (r: seq<Byte>)
    requires MotionFits(p)
    ensures |r| == MOTION_CONTROLLER_SIZE
  {
    [p.id, p.buttons] + StickBytes(p.stickX, p.stickY) + [p.trigger, p.touchpadX, p.touchpadY, p.battery] +
    Axes24(p.accel) + [0, 0] + Axes24(p.gyro) + Le32(p.timestamp) + Zeros(12)
  }

  lemma Axes24RoundTrip(v: Vec3i, s: seq<Byte>, i: nat)
    requires Fits24(v) && i + 9 <= |s| && s[i..i + 9] == Axes24(v)
    ensures Read24(s, i) == v.x && Read24(s, i + 3) == v.y && Read24(s, i + 6) == v.z
  {
    var a := Axes24(v);
    assert U24(s, i) == U24(a, 0) && U24(s, i + 3) == U24(a, 3) && U24(s, i + 6) == U24(a, 6);
    assert U24(a, 3) == U24(Le24(v.y % TWO_24), 0);
    assert U24(a, 6) == U24(Le24(v.z % TWO_24), 0);
    Wrap24(v.x);
    Wrap24(v.y);
    Wrap24(v.z);
  }

  /** Decoding gives back every packet a controller can send. */
  lemma MotionControllerRoundTrip(p: MotionControllerPacket)
    requires MotionFits(p)
    ensures MotionControllerAt(MotionControllerBytes(p)) == p
  {
    var s := MotionControllerBytes(p);
    assert s[2..5] == StickBytes(p.stickX, p.stickY);
    StickRoundTrip(p.stickX, p.stickY);
    assert s[9..18] == Axes24(p.accel);
    assert s[20..29] == Axes24(p.gyro);
    Axes24RoundTrip(p.accel, s, 9);
    Axes24RoundTrip(p.gyro, s, 20);
    assert U32(s, 29) == U32(Le32(p.timestamp), 0);
  }

  // -----------------------------------------------------------------------
  // hololens_sensors_decode_packet
  // -----------------------------------------------------------------------

  /**
   * The HoloLens sensor report: four temperatures, four gyro timestamps,
   * 3 x 32 gyro samples, four accelerometer timestamps, 3 x 4 accelerometer
   * samples and four video timestamps.
   */
  datatype HololensPacket = HololensPacket(
    id: Byte, temperature: seq<nat>, gyroTimestamp: seq<nat>, gyro: seq<seq<int>>,
    accelTimestamp: seq<nat>, accel: seq<seq<int>>, videoTimestamp: seq<nat>)

  const GYRO_TS_AT: nat := 9
  const GYRO_AT: nat := 41
  const ACCEL_TS_AT: nat := 233
  const ACCEL_AT: nat := 265
  const VIDEO_TS_AT: nat := 313

  /** Four little-endian 64-bit timestamps from `at`. */
  function Stamps(s: seq<Byte>, at: nat): (r: seq<nat>)
    requires at + 32 <= |s|
    ensures |r| == 4 && forall k :: 0 <= k < 4 ==> r[k] == U64(s, at + 8 * k) && r[k] < TWO_64
  {
    seq(4, k requires 0 <= k < 4 => U64(s, at + 8 * k))
  }

  function GyroSample(s: seq<Byte>, a: nat, c: nat): (r: int)
    requires a < 3 && c < 32 && |s| >= HOLOLENS_READ
    ensures -0x8000 <= r < 0x8000
  {
    ToInt16(U16(s, GYRO_AT + 64 * a + 2 * c))
  }

  function AccelSample(s: seq<Byte>, a: nat, c: nat): (r: int)
    requires a < 3 && c < 4 && |s| >= HOLOLENS_READ
    ensures -0x8000_0000 <= r < 0x8000_0000
  {
    ToInt32(U32(s, ACCEL_AT + 16 * a + 4 * c))
  }

  /** The report's fields at their offsets, in the order the decoder reads them. */
  function HololensAt(s: seq<Byte>): HololensPacket
    requires |s| >= HOLOLENS_READ
  {
    HololensPacket(
      s[0],
      seq(4, k requires 0 <= k < 4 => U16(s, 1 + 2 * k)),
      Stamps(s, GYRO_TS_AT),
      seq(3, a requires 0 <= a < 3 => seq(32, c requires 0 <= c < 32 => GyroSample(s, a, c))),
      Stamps(s, ACCEL_TS_AT),
      seq(3, a requires 0 <= a < 3 => seq(4, c requires 0 <= c < 4 => AccelSample(s, a, c))),
      Stamps(s, VIDEO_TS_AT))
  }

  /**
   * `hololens_sensors_decode_packet`: a report of 497 or 381 bytes; the
   * fields are read in their loops through the cursor, which stops at byte
   * 345, inside either size.
   */
  method DecodeHololens(buffer: seq<Byte>) returns (r: Option<HololensPacket>)
    ensures r.Some? <==> |buffer| == HOLOLENS_SIZE || |buffer| == HOLOLENS_SHORT_SIZE
    ensures r.Some? ==> r.value == HololensAt(buffer)
  {
    if |buffer| != HOLOLENS_SIZE && |buffer| != HOLOLENS_SHORT_SIZE {
      return None;
    }
    var pos := 0;
    var id := buffer[pos];
    pos := pos + 1;
    var temperature: seq<nat> := [];
    for k := 0 to 4
      invariant pos == 1 + 2 * k && temperature == seq(k, j requires 0 <= j < k => U16(buffer, 1 + 2 * j))
    {
      temperature := temperature + [ReadU16(buffer, pos)];
      pos := pos + 2;
    }
    var gyroTs;
    gyroTs, pos := ReadStamps(buffer, pos);
    var gyro: seq<seq<int>> := [];
    for a := 0 to 3
      invariant pos == GYRO_AT + 64 * a
      invariant gyro == seq(a, i requires 0 <= i < a => seq(32, c requires 0 <= c < 32 => GyroSample(buffer, i, c)))
    {
      var row;
      row, pos := ReadGyroRow(buffer, a, pos);
      gyro := gyro + [row];
    }
    var accelTs;
    accelTs, pos := ReadStamps(buffer, pos);
    var accel: seq<seq<int>> := [];
    for a := 0 to 3
      invariant pos == ACCEL_AT + 16 * a
      invariant accel == seq(a, i requires 0 <= i < a => seq(4, c requires 0 <= c < 4 => AccelSample(buffer, i, c)))
    {
      var row: seq<int> := [];
      for c := 0 to 4
        invariant pos == ACCEL_AT + 16 * a + 4 * c
        invariant row == seq(c, j requires 0 <= j < c => AccelSample(buffer, a, j))
      {
        row := row + [ToInt32(U32(buffer, pos))];
        pos := pos + 4;
      }
      accel := accel + [row];
    }
    var videoTs;
    videoTs, pos := ReadStamps(buffer, pos);
    assert pos == HOLOLENS_READ;
    r := Some(HololensPacket(id, temperature, gyroTs, gyro, accelTs, accel, videoTs));
  }

  /** One of the loops reading four 64-bit timestamps. */
  method ReadStamps(buffer: seq<Byte>, pos: nat) returns (stamps: seq<nat>, next: nat)
    requires pos + 32 <= |buffer|
    ensures stamps == Stamps(buffer, pos) && next == pos + 32
  {
    stamps := [];
    next := pos;
    for k := 0 to 4
      invariant next == pos + 8 * k && stamps == seq(k, j requires 0 <= j < k => U64(buffer, pos + 8 * j))
    {
      stamps := stamps + [U64(buffer, next)];
      next := next + 8;
    }
  }

  /** The inner loop reading the 32 samples of gyro axis `a`. */
  method ReadGyroRow(buffer: seq<Byte>, a: nat, pos: nat) returns (row: seq<int>, next: nat)
    requires a < 3 && |buffer| >= HOLOLENS_READ && pos == GYRO_AT + 64 * a
    ensures row == seq(32, c requires 0 <= c < 32 => GyroSample(buffer, a, c)) && next == pos + 64
  {
    row := [];
    next := pos;
    for c := 0 to 32
      invariant next == pos + 2 * c && row == seq(c, j requires 0 <= j < c => GyroSample(buffer, a, j))
    {
      row := row + [ToInt16(U16(buffer, next))];
      next := next + 2;
    }
  }

  /** The decoder reads only the first 345 bytes: both report sizes decode alike on a common prefix. */
  lemma HololensPrefixOnly(s: seq<Byte>, t: seq<Byte>)
    requires |s| >= HOLOLENS_READ && |t| >= HOLOLENS_READ && s[..HOLOLENS_READ] == t[..HOLOLENS_READ]
    ensures HololensAt(s) == HololensAt(t)
  {
    forall j | 0 <= j < HOLOLENS_READ
      ensures s[j] == t[j]
    {
      assert s[..HOLOLENS_READ][j] == t[..HOLOLENS_READ][j];
    }
    forall k | 0 <= k < 4
      ensures U16(s, 1 + 2 * k) == U16(t, 1 + 2 * k)
    {
    }
    SameStamps(s, t, GYRO_TS_AT);
    SameStamps(s, t, ACCEL_TS_AT);
    SameStamps(s, t, VIDEO_TS_AT);
    forall a, c | 0 <= a < 3 && 0 <= c < 32
      ensures GyroSample(s, a, c) == GyroSample(t, a, c)
    {
    }
    forall a, c | 0 <= a < 3 && 0 <= c < 4
      ensures AccelSample(s, a, c) == AccelSample(t, a, c)
    {
      SameU32(s, t, ACCEL_AT + 16 * a + 4 * c);
    }
    var p, q := HololensAt(s), HololensAt(t);
    assert p.gyro == q.gyro by {
      forall a | 0 <= a < 3
        ensures p.gyro[a] == q.gyro[a]
      {
      }
    }
    assert p.accel == q.accel by {
      forall a | 0 <= a < 3
        ensures p.accel[a] == q.accel[a]
      {
      }
    }
  }

  lemma SameU32(s: seq<Byte>, t: seq<Byte>, i: nat)
    requires i + 4 <= |s| && i + 4 <= |t| && forall j :: i <= j < i + 4 ==> s[j] == t[j]
    ensures U32(s, i) == U32(t, i)
  {
    assert U16(s, i) == U16(t, i) && U16(s, i + 2) == U16(t, i + 2);
  }

  lemma SameStamps(s: seq<Byte>, t: seq<Byte>, at: nat)
    requires at + 32 <= |s| && at + 32 <= |t| && forall j :: at <= j < at + 32 ==> s[j] == t[j]
    ensures Stamps(s, at) == Stamps(t, at)
  {
    forall k | 0 <= k < 4
      ensures U64(s, at + 8 * k) == U64(t, at + 8 * k)
    {
      SameU32(s, t, at + 8 * k);
      SameU32(s, t, at + 8 * k + 4);
    }
  }
}
