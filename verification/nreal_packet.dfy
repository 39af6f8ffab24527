/**
 * Nreal Air report parsing: the 64-byte IMU report with its 42-byte sample
 * of gyro, accelerometer and magnetometer readings, the sensor control data
 * report and the MCU control report.  Each parser reads through a cursor
 * that it advances past every field, and succeeds only when the cursor has
 * consumed exactly the 64 bytes of the report.
 */
module NrealPacket {
  import opened Bytes
  import opened Arith

  const REPORT_SIZE: nat := 64
  const SAMPLE_SIZE: nat := 42

  datatype NaSample = NaSample(gyroMultiplier: int, gyroDivisor: int, gyro: Vec3i,
                               accelMultiplier: int, accelDivisor: int, accel: Vec3i,
                               magMultiplier: int, magDivisor: int, mag: Vec3i)

  datatype NaSensor = NaSensor(temperature: int, timestamp: nat, sample: NaSample)

  datatype NaSensorControlData = NaSensorControlData(length: nat, msgid: Byte, data: seq<Byte>)

  datatype NaControl = NaControl(length: nat, timestamp: nat, action: nat, data: seq<Byte>)

  // -----------------------------------------------------------------------
  // The read_* helpers that are more than a cast of a plain reader
  // -----------------------------------------------------------------------

  /**
   * `read_i24_to_i32`: the three bytes little-endian, and the top byte of
   * the 32-bit result set when bit 7 of the third byte is; that is, the
   * 24-bit value sign-extended.
   */
  function ReadI24(s: seq<Byte>, i: nat): (r: int)
    requires i + 3 <= |s|
    ensures r == ToInt24(U24(s, i))
    ensures -0x80_0000 <= r < 0x80_0000
  {
    var v := U24(s, i);
    if s[i + 2] >= 0x80 then ToInt32(v + 0xFF00_0000) else v
  }

  /**
   * `read_i15_to_i32`: the 16-bit value read as an `int16_t`, its bit 15
   * flipped through the sign-extended `int`, and the result stored back into
   * an `int16_t`.  This decodes offset binary: the unsigned reading less 2^15.
   */
  function ReadI15(s: seq<Byte>, i: nat): (r: int)
    requires i + 2 <= |s|
    ensures r == U16(s, i) - 0x8000
    ensures -0x8000 <= r < 0x8000
  {
    var v := ToInt16(U16(s, i));
    var flipped := if v >= 0 then v + 0x8000 else v - 0x8000;
    ToInt16(flipped % TWO_16)
  }

  // -----------------------------------------------------------------------
  // read_sample
  // -----------------------------------------------------------------------

  /** The sample at `i`: for each sensor a 16-bit multiplier, a 32-bit divisor and three axes. */
  function SampleAt(s: seq<Byte>, i: nat): NaSample
    requires i + SAMPLE_SIZE <= |s|
  {
    NaSample(ToInt16(U16(s, i)), ToInt32(U32(s, i + 2)),
             Vec3i(ReadI24(s, i + 6), ReadI24(s, i + 9), ReadI24(s, i + 12)),
             ToInt16(U16(s, i + 15)), ToInt32(U32(s, i + 17)),
             Vec3i(ReadI24(s, i + 21), ReadI24(s, i + 24), ReadI24(s, i + 27)),
             ToInt16(U16Be(s, i + 30)), ToInt32(U32Be(s, i + 32)),
             Vec3i(ReadI15(s, i + 36), ReadI15(s, i + 38), ReadI15(s, i + 40)))
  }

  /** `read_sample`: fifteen fields, in order, through the cursor. */
  method ReadSample(buffer: seq<Byte>, pos: nat) returns (sample: NaSample, next: nat)
    requires pos + SAMPLE_SIZE <= |buffer|
    ensures next == pos + SAMPLE_SIZE
    ensures sample == SampleAt(buffer, pos)
  {
    var p := pos;
    var gyroMul := ToInt16(U16(buffer, p));
    p := p + 2;
    var gyroDiv := ToInt32(U32(buffer, p));
    p := p + 4;
    var gx := ReadI24(buffer, p);
    p := p + 3;
    var gy := ReadI24(buffer, p);
    p := p + 3;
    var gz := ReadI24(buffer, p);
    p := p + 3;
    var accelMul := ToInt16(U16(buffer, p));
    p := p + 2;
    var accelDiv := ToInt32(U32(buffer, p));
    p := p + 4;
    var ax := ReadI24(buffer, p);
    p := p + 3;
    var ay := ReadI24(buffer, p);
    p := p + 3;
    var az := ReadI24(buffer, p);
    p := p + 3;
    var magMul := ToInt16(U16Be(buffer, p));
    p := p + 2;
    var magDiv := ToInt32(U32Be(buffer, p));
    p := p + 4;
    var mx := ReadI15(buffer, p);
    p := p + 2;
    var my := ReadI15(buffer, p);
    p := p + 2;
    var mz := ReadI15(buffer, p);
    p := p + 2;
    sample := NaSample(gyroMul, gyroDiv, Vec3i(gx, gy, gz), accelMul, accelDiv, Vec3i(ax, ay, az),
                       magMul, magDiv, Vec3i(mx, my, mz));
    next := p;
  }

  /** A sample whose fields fit the widths the device sends them in. */
  predicate SampleFits(x: NaSample)
  {
    -0x8000 <= x.gyroMultiplier < 0x8000 && -0x8000_0000 <= x.gyroDivisor < 0x8000_0000 &&
    Fits24(x.gyro) &&
    -0x8000 <= x.accelMultiplier < 0x8000 && -0x8000_0000 <= x.accelDivisor < 0x8000_0000 &&
    Fits24(x.accel) &&
    -0x8000 <= x.magMultiplier < 0x8000 && -0x8000_0000 <= x.magDivisor < 0x8000_0000 &&
    -0x8000 <= x.mag.x < 0x8000 && -0x8000 <= x.mag.y < 0x8000 && -0x8000 <= x.mag.z < 0x8000
  }

  predicate Fits24(v: Vec3i)
  {
    -0x80_0000 <= v.x < 0x80_0000 && -0x80_0000 <= v.y < 0x80_0000 && -0x80_0000 <= v.z < 0x80_0000
  }

  function Axes24(v: Vec3i): (r: seq<Byte>)
    requires Fits24(v)
    ensures |r| == 9
  {
    Le24(v.x % TWO_24) + Le24(v.y % TWO_24) + Le24(v.z % TWO_24)
  }

  /** A gyro or accelerometer block: little-endian multiplier and divisor, three 24-bit axes. */
  function ImuBytes(mul: int, div: int, v: Vec3i): (r: seq<Byte>)
    requires -0x8000 <= mul < 0x8000 && -0x8000_0000 <= div < 0x8000_0000 && Fits24(v)
    ensures |r| == 15
  {
    Le16(mul % TWO_16) + Le32(div % TWO_32) + Axes24(v)
  }

  /** The magnetometer block: big-endian multiplier and divisor, three offset-binary axes. */
  function MagBytes(mul: int, div: int, v: Vec3i): (r: seq<Byte>)
    requires -0x8000 <= mul < 0x8000 && -0x8000_0000 <= div < 0x8000_0000
    requires -0x8000 <= v.x < 0x8000 && -0x8000 <= v.y < 0x8000 && -0x8000 <= v.z < 0x8000
    ensures |r| == 12
  {
    Be16(mul % TWO_16) + Be32(div % TWO_32) + Le16(v.x + 0x8000) + Le16(v.y + 0x8000) + Le16(v.z + 0x8000)
  }

  /** The 42 bytes a device sends for a sample. */
  function SampleBytes(x: NaSample): (r: seq<Byte>)
    requires SampleFits(x)
    ensures |r| == SAMPLE_SIZE
  {
    ImuBytes(x.gyroMultiplier, x.gyroDivisor, x.gyro) + ImuBytes(x.accelMultiplier, x.accelDivisor, x.accel) +
    MagBytes(x.magMultiplier, x.magDivisor, x.mag)
  }

  lemma AxesRoundTrip(v: Vec3i, s: seq<Byte>, i: nat)
    requires Fits24(v) && i + 9 <= |s| && s[i..i + 9] == Axes24(v)
    ensures ReadI24(s, i) == v.x && ReadI24(s, i + 3) == v.y && ReadI24(s, i + 6) == v.z
  {
    var a := Axes24(v);
    assert U24(s, i) == U24(a, 0) && U24(s, i + 3) == U24(a, 3) && U24(s, i + 6) == U24(a, 6);
    assert U24(a, 3) == U24(Le24(v.y % TWO_24), 0);
    assert U24(a, 6) == U24(Le24(v.z % TWO_24), 0);
    Wrap24(v.x);
    Wrap24(v.y);
    Wrap24(v.z);
  }

  lemma ImuRoundTrip(mul: int, div: int, v: Vec3i, s: seq<Byte>, i: nat)
    requires -0x8000 <= mul < 0x8000 && -0x8000_0000 <= div < 0x8000_0000 && Fits24(v)
    requires i + 15 <= |s| && s[i..i + 15] == ImuBytes(mul, div, v)
    ensures ToInt16(U16(s, i)) == mul && ToInt32(U32(s, i + 2)) == div
    ensures Vec3i(ReadI24(s, i + 6), ReadI24(s, i + 9), ReadI24(s, i + 12)) == v
  {
    assert U16(s, i) == U16(Le16(mul % TWO_16), 0);
    assert U32(s, i + 2) == U32(Le32(div % TWO_32), 0);
    assert s[i + 6..i + 15] == s[i..i + 15][6..];
    AxesRoundTrip(v, s, i + 6);
    Wrap16(mul);
    Wrap32(div);
  }

  lemma MagRoundTrip(mul: int, div: int, v: Vec3i, s: seq<Byte>, i: nat)
    requires -0x8000 <= mul < 0x8000 && -0x8000_0000 <= div < 0x8000_0000
    requires -0x8000 <= v.x < 0x8000 && -0x8000 <= v.y < 0x8000 && -0x8000 <= v.z < 0x8000
    requires i + 12 <= |s| && s[i..i + 12] == MagBytes(mul, div, v)
    ensures ToInt16(U16Be(s, i)) == mul && ToInt32(U32Be(s, i + 2)) == div
    ensures Vec3i(ReadI15(s, i + 6), ReadI15(s, i + 8), ReadI15(s, i + 10)) == v
  {
    assert U16Be(s, i) == U16Be(Be16(mul % TWO_16), 0);
    assert U32Be(s, i + 2) == U32Be(Be32(div % TWO_32), 0);
    assert U16(s, i + 6) == U16(Le16(v.x + 0x8000), 0);
    assert U16(s, i + 8) == U16(Le16(v.y + 0x8000), 0);
    assert U16(s, i + 10) == U16(Le16(v.z + 0x8000), 0);
    Wrap16(mul);
    Wrap32(div);
  }

  /** Reading a sample gives back every sample a device can send. */
  lemma SampleRoundTrip(x: NaSample)
    requires SampleFits(x)
    ensures SampleAt(SampleBytes(x), 0) == x
  {
    var s := SampleBytes(x);
    assert s[0..15] == ImuBytes(x.gyroMultiplier, x.gyroDivisor, x.gyro);
    assert s[15..30] == ImuBytes(x.accelMultiplier, x.accelDivisor, x.accel);
    assert s[30..42] == MagBytes(x.magMultiplier, x.magDivisor, x.mag);
    ImuRoundTrip(x.gyroMultiplier, x.gyroDivisor, x.gyro, s, 0);
    ImuRoundTrip(x.accelMultiplier, x.accelDivisor, x.accel, s, 15);
    MagRoundTrip(x.magMultiplier, x.magDivisor, x.mag, s, 30);
  }

  // -----------------------------------------------------------------------
  // The three report parsers
  // -----------------------------------------------------------------------

  /**
   * `na_parse_sensor_packet`: a 64-byte report with report id 1; the
   * temperature at 2, the 64-bit timestamp at 4, the sample at 12, then the
   * checksum and six unknown bytes skipped.
   */
  method ParseSensorPacket(buffer: seq<Byte>) returns (r: Option<NaSensor>)
    ensures r.Some? <==> |buffer| == REPORT_SIZE && buffer[0] == 1
    ensures r.Some? ==> r.value.temperature == ToInt16(U16(buffer, 2)) && r.value.timestamp == U64(buffer, 4)
    ensures r.Some? ==> r.value.sample == SampleAt(buffer, 12)
  {
    if |buffer| != REPORT_SIZE {
      return None;
    }
    if buffer[0] != 1 {
      return None;
    }
    var pos := 2;
    var temperature := ToInt16(U16(buffer, pos));
    pos := pos + 2;
    var timestamp := U64(buffer, pos);
    pos := pos + 8;
    var sample;
    sample, pos := ReadSample(buffer, pos);
    pos := pos + 4;
    pos := pos + 6;
    r := if pos == REPORT_SIZE then Some(NaSensor(temperature, timestamp, sample)) else None;
  }

  /**
   * `na_parse_sensor_control_data_packet`: a 64-byte report; header and
   * checksum skipped, the length at 5, the message id at 7 and the 56 data
   * bytes that follow.  The report id is not checked.
   */
  method ParseSensorControlData(buffer: seq<Byte>) returns (r: Option<NaSensorControlData>)
    ensures r.Some? <==> |buffer| == REPORT_SIZE
    ensures r.Some? ==> r.value.length == U16(buffer, 5) && r.value.msgid == buffer[7]
    ensures r.Some? ==> r.value.data == buffer[8..REPORT_SIZE] && |r.value.data| == 56
  {
    if |buffer| != REPORT_SIZE {
      return None;
    }
    var pos := 1;
    pos := pos + 4;
    var length := U16(buffer, pos);
    pos := pos + 2;
    var msgid := buffer[pos];
    pos := pos + 1;
    var data := buffer[pos..pos + 56];
    pos := pos + 56;
    r := if pos == REPORT_SIZE then Some(NaSensorControlData(length, msgid, data)) else None;
  }

  /**
   * `na_parse_control_packet`: a 64-byte report; the length at 5, the
   * 64-bit timestamp at 7, the action at 15, five reserved bytes, and the 42
   * data bytes from 22.  The report id is not checked.
   */
  method ParseControl(buffer: seq<Byte>) returns (r: Option<NaControl>)
    ensures r.Some? <==> |buffer| == REPORT_SIZE
    ensures r.Some? ==> r.value.length == U16(buffer, 5) && r.value.timestamp == U64(buffer, 7)
    ensures r.Some? ==> r.value.action == U16(buffer, 15)
    ensures r.Some? ==> r.value.data == buffer[22..REPORT_SIZE] && |r.value.data| == 42
  {
    if |buffer| != REPORT_SIZE {
      return None;
    }
    var pos := 1;
    pos := pos + 4;
    var length := U16(buffer, pos);
    pos := pos + 2;
    var timestamp := U64(buffer, pos);
    pos := pos + 8;
    var action := U16(buffer, pos);
    pos := pos + 2;
    pos := pos + 5;
    var data := buffer[pos..pos + 42];
    pos := pos + 42;
    r := if pos == REPORT_SIZE then Some(NaControl(length, timestamp, action, data)) else None;
  }
}
