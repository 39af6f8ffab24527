/**
 * Oculus Rift (DK1/DK2) feature and interrupt reports: the sensor range and
 * sensor configuration feature reports, the keep-alive report, and the
 * tracker message with its three packed 21-bit samples.
 */
module RiftPacket {
  import opened Bytes
  import opened Arith
  import opened Cursor

  const CMD_SENSOR_CONFIG: Byte := 2
  const CMD_RANGE: Byte := 4
  const CMD_KEEP_ALIVE: Byte := 8

  datatype SensorRange = SensorRange(commandId: nat, accelScale: nat, gyroScale: nat, magScale: nat)

  datatype SensorConfig = SensorConfig(commandId: nat, flags: nat, packetInterval: nat, keepAliveInterval: nat)

  datatype KeepAlive = KeepAlive(commandId: nat, keepAliveInterval: nat)

  datatype TrackerSample = TrackerSample(accel: Vec3i, gyro: Vec3i)

  datatype TrackerSensor = TrackerSensor(numSamples: nat, timestamp: nat, lastCommandId: nat,
                                         temperature: int, samples: seq<TrackerSample>, mag: Vec3i)

  /** The `uint16_t` fields hold 16 bits and `flags` 8. */
  predicate ConfigFits(c: SensorConfig)
  {
    c.commandId < TWO_16 && c.flags < TWO_8 && c.packetInterval < TWO_16 && c.keepAliveInterval < TWO_16
  }

  // -----------------------------------------------------------------------
  // decode_sensor_range
  // -----------------------------------------------------------------------

  /**
   * `decode_sensor_range`: 8 or 9 bytes, the command byte skipped, then the
   * command id, a one-byte accelerometer scale and the gyro and magnetometer
   * scales, all little-endian.
   */
  function SensorRangeOf(s: seq<Byte>): (r: Option<SensorRange>)
    ensures r.Some? <==> |s| == 8 || |s| == 9
  {
    if !(|s| == 8 || |s| == 9) then None
    else Some(SensorRange(U16(s, 1), s[3], U16(s, 4), U16(s, 6)))
  }

  method DecodeSensorRange(buffer: seq<Byte>) returns (r: Option<SensorRange>)
    ensures r == SensorRangeOf(buffer)
  {
    if !(|buffer| == 8 || |buffer| == 9) {
      return None;
    }
    var pos := 1;
    var commandId := U16(buffer, pos);
    pos := pos + 2;
    var accel := buffer[pos];
    pos := pos + 1;
    var gyro := U16(buffer, pos);
    pos := pos + 2;
    var mag := U16(buffer, pos);
    return Some(SensorRange(commandId, accel, gyro, mag));
  }

  /** The report a device sends for a range (the last byte of a 9-byte report is padding). */
  function SensorRangeBytes(r: SensorRange): seq<Byte>
    requires r.commandId < TWO_16 && r.accelScale < TWO_8 && r.gyroScale < TWO_16 && r.magScale < TWO_16
  {
    [CMD_RANGE] + Le16(r.commandId) + [r.accelScale] + Le16(r.gyroScale) + Le16(r.magScale)
  }

  /** Decoding gives back every range a device can send, with or without the padding byte. */
  lemma SensorRangeRoundTrip(r: SensorRange, pad: seq<Byte>)
    requires r.commandId < TWO_16 && r.accelScale < TWO_8 && r.gyroScale < TWO_16 && r.magScale < TWO_16
    requires |pad| <= 1
    ensures SensorRangeOf(SensorRangeBytes(r) + pad) == Some(r)
  {
    var s := SensorRangeBytes(r) + pad;
    assert U16(s, 1) == U16(Le16(r.commandId), 0);
    assert U16(s, 4) == U16(Le16(r.gyroScale), 0);
    assert U16(s, 6) == U16(Le16(r.magScale), 0);
  }

  // -----------------------------------------------------------------------
  // decode_sensor_config, encode_sensor_config, encode_keep_alive
  // -----------------------------------------------------------------------

  /**
   * `decode_sensor_config`: 7 or 8 bytes: command id, flags, a one-byte
   * packet interval and the keep-alive interval.
   */
  function SensorConfigOf(s: seq<Byte>): (r: Option<SensorConfig>)
    ensures r.Some? <==> |s| == 7 || |s| == 8
    ensures r.Some? ==> ConfigFits(r.value) && r.value.packetInterval < TWO_8
  {
    if !(|s| == 7 || |s| == 8) then None
    else Some(SensorConfig(U16(s, 1), s[3], s[4], U16(s, 5)))
  }

  method DecodeSensorConfig(buffer: seq<Byte>) returns (r: Option<SensorConfig>)
    ensures r == SensorConfigOf(buffer)
  {
    if !(|buffer| == 7 || |buffer| == 8) {
      return None;
    }
    var pos := 1;
    var commandId := U16(buffer, pos);
    pos := pos + 2;
    var flags := buffer[pos];
    pos := pos + 1;
    var interval := buffer[pos];
    pos := pos + 1;
    var keepAlive := U16(buffer, pos);
    return Some(SensorConfig(commandId, flags, interval, keepAlive));
  }

  /** The 7 bytes `encode_sensor_config` writes; the packet interval goes out as one byte. */
  function SensorConfigBytes(c: SensorConfig): (r: seq<Byte>)
    requires ConfigFits(c)
    ensures |r| == 7
  {
    [CMD_SENSOR_CONFIG] + Le16(c.commandId) + [c.flags, c.packetInterval % TWO_8] + Le16(c.keepAliveInterval)
  }

  /** `encode_sensor_config`: write the report at the start of `buffer` and return its size. */
  method EncodeSensorConfig(buffer: array<Byte>, c: SensorConfig) returns (n: nat)
    requires buffer.Length >= 7 && ConfigFits(c)
    modifies buffer
    ensures n == 7 && buffer[..7] == SensorConfigBytes(c) && buffer[7..] == old(buffer[7..])
  {
    var pos := Put8(buffer, 0, CMD_SENSOR_CONFIG);
    assert buffer[..1] == [CMD_SENSOR_CONFIG];
    pos := Put16(buffer, pos, c.commandId);
    assert buffer[..3] == [CMD_SENSOR_CONFIG] + Le16(c.commandId);
    pos := Put8(buffer, pos, c.flags);
    pos := Put8(buffer, pos, c.packetInterval);
    assert buffer[..5] == [CMD_SENSOR_CONFIG] + Le16(c.commandId) + [c.flags, c.packetInterval % TWO_8];
    pos := Put16(buffer, pos, c.keepAliveInterval);

    return 7;
  }

  /**
   * Decoding inverts encoding exactly when the packet interval fits in the
   * byte it is sent as; a wider interval comes back truncated.
   */
  lemma SensorConfigRoundTrip(c: SensorConfig)
    requires ConfigFits(c)
    ensures SensorConfigOf(SensorConfigBytes(c)) == Some(c) <==> c.packetInterval < TWO_8
    ensures SensorConfigOf(SensorConfigBytes(c)) == Some(c.(packetInterval := c.packetInterval % TWO_8))
  {
    var s := SensorConfigBytes(c);
    assert U16(s, 1) == U16(Le16(c.commandId), 0);
    assert U16(s, 5) == U16(Le16(c.keepAliveInterval), 0);
  }

  /** Encoding inverts decoding: a received configuration is sent back unchanged. */
  lemma SensorConfigResend(s: seq<Byte>)
    requires |s| == 7 && s[0] == CMD_SENSOR_CONFIG && SensorConfigOf(s).Some?
    ensures SensorConfigBytes(SensorConfigOf(s).value) == s
  {
  }

  /** The 5 bytes `encode_keep_alive` writes. */
  function KeepAliveBytes(k: KeepAlive): (r: seq<Byte>)
    requires k.commandId < TWO_16 && k.keepAliveInterval < TWO_16
    ensures |r| == 5
  {
    [CMD_KEEP_ALIVE] + Le16(k.commandId) + Le16(k.keepAliveInterval)
  }

  method EncodeKeepAlive(buffer: array<Byte>, k: KeepAlive) returns (n: nat)
    requires buffer.Length >= 5 && k.commandId < TWO_16 && k.keepAliveInterval < TWO_16
    modifies buffer
    ensures n == 5 && buffer[..5] == KeepAliveBytes(k) && buffer[5..] == old(buffer[5..])
  {
    var pos := Put8(buffer, 0, CMD_KEEP_ALIVE);
    pos := Put16(buffer, pos, k.commandId);
    pos := Put16(buffer, pos, k.keepAliveInterval);
    assert buffer[..5] == [CMD_KEEP_ALIVE] + Le16(k.commandId) + Le16(k.keepAliveInterval);
    return 5;
  }

  /** The keep-alive report carries the command id at 1 and the interval at 3, little-endian. */
  lemma KeepAliveFields(k: KeepAlive)
    requires k.commandId < TWO_16 && k.keepAliveInterval < TWO_16
    ensures KeepAliveBytes(k)[0] == CMD_KEEP_ALIVE
    ensures U16(KeepAliveBytes(k), 1) == k.commandId && U16(KeepAliveBytes(k), 3) == k.keepAliveInterval
  {
    var s := KeepAliveBytes(k);
    assert U16(s, 1) == U16(Le16(k.commandId), 0);
    assert U16(s, 3) == U16(Le16(k.keepAliveInterval), 0);
  }

  // -----------------------------------------------------------------------
  // decode_sample
  // -----------------------------------------------------------------------

  const TWO_20: int := 0x10_0000
  const TWO_21: int := 0x20_0000

  /** Sign extension of a 21-bit field. */
  function ToInt21(v: nat): (r: int)
    requires v < TWO_21
    ensures -TWO_20 <= r < TWO_20 && (r - v) % TWO_21 == 0
  {
    if v < TWO_20 then v else v - TWO_21
  }

  /**
   * `decode_sample` as written: each value is assembled in the top 21 bits
   * of a 32-bit `int` (the masks `& 0xF8`, `& 0x07`, `& 0xC0`, `& 0x3F` as
   * division and remainder) and brought down by an arithmetic shift of 11,
   * which rounds toward minus infinity like Euclidean division by 2048.
   */
  function DecodeSample(b: seq<Byte>, i: nat): (r: Vec3i)
    requires i + 8 <= |b|
    ensures -TWO_20 <= r.x < TWO_20 && -TWO_20 <= r.y < TWO_20 && -TWO_20 <= r.z < TWO_20
  {
    var b0: int, b1: int, b2: int, b3: int := b[i], b[i + 1], b[i + 2], b[i + 3];
    var b4: int, b5: int, b6: int, b7: int := b[i + 4], b[i + 5], b[i + 6], b[i + 7];
    var x := b0 * TWO_24 + b1 * TWO_16 + (b2 / 8 * 8) * TWO_8;
    var y := (b2 % 8) * 0x2000_0000 + b3 * 0x20_0000 + b4 * 0x2000 + (b5 / 64 * 64) * 32;
    var z := (b5 % 64) * 0x400_0000 + b6 * 0x4_0000 + b7 * 0x400;
    Vec3i(ToInt32(x) / 2048, ToInt32(y) / 2048, ToInt32(z) / 2048)
  }

  /** The three 21-bit fields of 8 packed bytes, most significant bit first; bit 0 of the last byte is unused. */
  function Fields21(b: seq<Byte>, i: nat): (r: (nat, nat, nat))
    requires i + 8 <= |b|
    ensures r.0 < TWO_21 && r.1 < TWO_21 && r.2 < TWO_21
  {
    var b0: int, b1: int, b2: int, b3: int := b[i], b[i + 1], b[i + 2], b[i + 3];
    var b4: int, b5: int, b6: int, b7: int := b[i + 4], b[i + 5], b[i + 6], b[i + 7];
    (b0 * 8192 + b1 * 32 + b2 / 8,
     (b2 % 8) * 0x4_0000 + b3 * 1024 + b4 * 4 + b5 / 64,
     (b5 % 64) * 0x8000 + b6 * 128 + b7 / 2)
  }

  /** A field shifted to the top of a 32-bit word and shifted back arithmetically is sign-extended. */
  lemma ShiftDown(f: nat, low: nat)
    requires f < TWO_21 && low < 2048
    ensures f * 2048 + low < TWO_32
    ensures ToInt32(f * 2048 + low) / 2048 == ToInt21(f)
  {
    if f < TWO_20 {
      DivModUnique(f * 2048 + low, 2048, f, low);
    } else {
      assert ToInt32(f * 2048 + low) == (f - TWO_21) * 2048 + low;
      DivModUnique((f - TWO_21) * 2048 + low, 2048, f - TWO_21, low);
    }
  }

  /** `decode_sample` yields the three packed 21-bit fields, sign-extended. */
  lemma DecodeSampleFields(b: seq<Byte>, i: nat)
    requires i + 8 <= |b|
    ensures var f := Fields21(b, i);
      DecodeSample(b, i) == Vec3i(ToInt21(f.0), ToInt21(f.1), ToInt21(f.2))
  {
    var f := Fields21(b, i);
    ShiftDown(f.0, 0);
    ShiftDown(f.1, 0);
    var b7: int := b[i + 7];
    ShiftDown(f.2, (b7 % 2) * 1024);
    assert b7 * 0x400 == (b7 / 2) * 2048 + (b7 % 2) * 1024;
  }

  /** How the tracker packs three signed 21-bit values into 8 bytes. */
  function PackSample(v: Vec3i): (r: seq<Byte>)
    requires -TWO_20 <= v.x < TWO_20 && -TWO_20 <= v.y < TWO_20 && -TWO_20 <= v.z < TWO_20
    ensures |r| == 8
  {
    var ux, uy, uz := v.x % TWO_21, v.y % TWO_21, v.z % TWO_21;
    [ux / 8192, ux / 32 % 256, (ux % 32) * 8 + uy / 0x4_0000,
     uy / 1024 % 256, uy / 4 % 256, (uy % 4) * 64 + uz / 0x8000,
     uz / 128 % 256, (uz % 128) * 2]
  }

  lemma ToInt21Mod(x: int)
    requires -TWO_20 <= x < TWO_20
    ensures x % TWO_21 < TWO_21 && ToInt21(x % TWO_21) == x
  {
    if x < 0 {
      DivModUnique(x, TWO_21, -1, x + TWO_21);
    } else {
      DivModUnique(x, TWO_21, 0, x);
    }
  }

  lemma PackedFields(v: Vec3i)
    requires -TWO_20 <= v.x < TWO_20 && -TWO_20 <= v.y < TWO_20 && -TWO_20 <= v.z < TWO_20
    ensures Fields21(PackSample(v), 0) == (v.x % TWO_21, v.y % TWO_21, v.z % TWO_21)
  {
    var ux, uy, uz := v.x % TWO_21, v.y % TWO_21, v.z % TWO_21;
    var b := PackSample(v);
    var b2: int, b5: int, b7: int := b[2], b[5], b[7];
    DivModUnique(b2, 8, ux % 32, uy / 0x4_0000);
    DivModUnique(b5, 64, uy % 4, uz / 0x8000);
    DivModUnique(b7, 2, uz % 128, 0);
    FieldX(ux);
    FieldY(uy);
    FieldZ(uz);
  }

  lemma FieldX(u: int)
    requires 0 <= u < TWO_21
    ensures u == (u / 8192) * 8192 + (u / 32 % 256) * 32 + u % 32
  {
    DivModUnique(u / 32, 256, u / 8192, u / 32 % 256);
  }

  lemma FieldY(u: int)
    requires 0 <= u < TWO_21
    ensures u == (u / 0x4_0000) * 0x4_0000 + (u / 1024 % 256) * 1024 + (u / 4 % 256) * 4 + u % 4
  {
    DivModUnique(u / 4, 256, u / 1024, u / 4 % 256);
    DivModUnique(u / 1024, 256, u / 0x4_0000, u / 1024 % 256);
  }

  lemma FieldZ(u: int)
    requires 0 <= u < TWO_21
    ensures u == (u / 0x8000) * 0x8000 + (u / 128 % 256) * 128 + u % 128
  {
    DivModUnique(u / 128, 256, u / 0x8000, u / 128 % 256);
  }

  /** Unpacking inverts packing for every triple of 21-bit values. */
  lemma SampleRoundTrip(v: Vec3i)
    requires -TWO_20 <= v.x < TWO_20 && -TWO_20 <= v.y < TWO_20 && -TWO_20 <= v.z < TWO_20
    ensures DecodeSample(PackSample(v), 0) == v
  {
    DecodeSampleFields(PackSample(v), 0);
    PackedFields(v);
    ToInt21Mod(v.x);
    ToInt21Mod(v.y);
    ToInt21Mod(v.z);
  }

  // -----------------------------------------------------------------------
  // decode_tracker_sensor_msg
  // -----------------------------------------------------------------------

  /** The accelerometer and gyro samples of the 16-byte slot at `at`. */
  function SampleAt(s: seq<Byte>, at: nat): TrackerSample
    requires at + 16 <= |s|
  {
    TrackerSample(DecodeSample(s, at), DecodeSample(s, at + 8))
  }

  /** The first `n` sample slots. */
  function Samples(s: seq<Byte>, n: nat): (r: seq<TrackerSample>)
    requires 8 + 16 * n <= |s|
    ensures |r| == n
  {
    if n == 0 then [] else Samples(s, n - 1) + [SampleAt(s, 8 + 16 * (n - 1))]
  }

  lemma SamplesNext(s: seq<Byte>, n: nat, x: TrackerSample)
    requires 8 + 16 * n + 16 <= |s| && x == SampleAt(s, 8 + 16 * n)
    ensures Samples(s, n) + [x] == Samples(s, n + 1)
  {
  }

  /** Slot `k` of the decoded samples is the `k`-th 16 bytes after the header. */
  lemma {:induction false} SamplesAt(s: seq<Byte>, n: nat, k: nat)
    requires 8 + 16 * n <= |s| && k < n
    ensures Samples(s, n)[k] == SampleAt(s, 8 + 16 * k)
  {
    if k < n - 1 {
      SamplesAt(s, n - 1, k);
    }
  }

  /**
   * `decode_tracker_sensor_msg`: 62 or 64 bytes; the header, then as many
   * of the three sample slots as `num_samples` says (at most three), then the
   * magnetometer after all three slots, wherever the samples stopped.
   */
  function TrackerSensorOf(s: seq<Byte>): (r: Option<TrackerSensor>)
    ensures r.Some? <==> |s| == 62 || |s| == 64
    ensures r.Some? ==> |r.value.samples| == (if s[1] < 3 then s[1] else 3)
    ensures r.Some? ==> r.value.mag == Vec3i(ToInt16(U16(s, 56)), ToInt16(U16(s, 58)), ToInt16(U16(s, 60)))
  {
    if !(|s| == 62 || |s| == 64) then None
    else
      var actual := if s[1] < 3 then s[1] else 3;
      Some(TrackerSensor(s[1], U16(s, 2), U16(s, 4), ToInt16(U16(s, 6)),
                         Samples(s, actual),
                         Vec3i(ToInt16(U16(s, 56)), ToInt16(U16(s, 58)), ToInt16(U16(s, 60)))))
  }

  lemma TrackerSensorParts(s: seq<Byte>)
    requires |s| == 62 || |s| == 64
    ensures TrackerSensorOf(s).Some?
    ensures var t := TrackerSensorOf(s).value;
      t.numSamples == s[1] && t.timestamp == U16(s, 2) && t.lastCommandId == U16(s, 4) &&
      t.temperature == ToInt16(U16(s, 6)) && t.samples == Samples(s, if s[1] < 3 then s[1] else 3)
  {
  }

  /** The sample loop of `decode_tracker_sensor_msg`: `actual` slots of accelerometer then gyro, from byte 8. */
  method DecodeSlots(buffer: seq<Byte>, actual: nat) returns (samples: seq<TrackerSample>, pos: nat)
    requires 8 + 16 * actual <= |buffer|
    ensures samples == Samples(buffer, actual) && pos == 8 + 16 * actual
  {
    samples := [];
    pos := 8;
    var i := 0;
    while i < actual
      invariant 0 <= i <= actual && pos == 8 + 16 * i
      invariant samples == Samples(buffer, i)
    {
      var accel := DecodeSample(buffer, pos);
      pos := pos + 8;
      var gyro := DecodeSample(buffer, pos);
      pos := pos + 8;
      SamplesNext(buffer, i, TrackerSample(accel, gyro));
      samples := samples + [TrackerSample(accel, gyro)];
      i := i + 1;
    }
  }

  method DecodeTrackerSensorMsg(buffer: seq<Byte>) returns (r: Option<TrackerSensor>)
    ensures r == TrackerSensorOf(buffer)
  {
    if !(|buffer| == 62 || |buffer| == 64) {
      return None;
    }
    var pos := 1;
    var numSamples := buffer[pos];
    pos := pos + 1;
    var timestamp := U16(buffer, pos);
    pos := pos + 2;
    var lastCommandId := U16(buffer, pos);
    pos := pos + 2;
    var temperature := ToInt16(U16(buffer, pos));
    pos := pos + 2;
    var actual := if numSamples < 3 then numSamples else 3;
    var samples;
    samples, pos := DecodeSlots(buffer, actual);
    TrackerSensorParts(buffer);
    // the magnetometer follows all three slots, however many were decoded
    pos := pos + (3 - actual) * 16;
    var mag := Vec3i(ToInt16(U16(buffer, pos)), ToInt16(U16(buffer, pos + 2)), ToInt16(U16(buffer, pos + 4)));
    return Some(TrackerSensor(numSamples, timestamp, lastCommandId, temperature, samples, mag));
  }
}
