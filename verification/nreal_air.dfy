/**
 * The Nreal Air driver logic above the report parsers: CRC-framed requests
 * to the sensor and control interfaces, the tick delta with its 24-bit
 * rollover, the calibration download in 56-byte segments, the sensor control
 * handshake (stream state, static id, calibration length), and the display
 * settings the control interface reports and the application asks for.
 */
module NrealAir {
  import opened Bytes
  import opened Cursor
  import opened NrealCrc
  import opened NrealPacket

  const SENSOR_HEAD: Byte := 0xAA
  const CONTROL_HEAD: Byte := 0xFD

  const MSG_R_BRIGHTNESS: nat := 0x03
  const MSG_W_BRIGHTNESS: nat := 0x04
  const MSG_R_DISP_MODE: nat := 0x07
  const MSG_W_DISP_MODE: nat := 0x08
  const MSG_P_START_HEARTBEAT: nat := 0x6C02
  const MSG_P_BUTTON_PRESSED: nat := 0x6C05
  const MSG_P_END_HEARTBEAT: nat := 0x6C12
  const MSG_P_ASYNC_TEXT_LOG: nat := 0x6C09

  const BUTTON_VIRT_DISPLAY_TOGGLE: Byte := 0x1
  const BUTTON_VIRT_MENU_TOGGLE: Byte := 0x3
  const BUTTON_VIRT_BRIGHTNESS_UP: Byte := 0x6
  const BUTTON_VIRT_BRIGHTNESS_DOWN: Byte := 0x7
  const BUTTON_VIRT_MODE_UP: Byte := 0x8
  const BUTTON_VIRT_MODE_DOWN: Byte := 0x9

  const BRIGHTNESS_MAX: nat := 7
  const DISPLAY_MODE_2D: Byte := 0x1
  const DISPLAY_MODE_3D: Byte := 0x3

  const MSG_GET_CAL_DATA_LENGTH: Byte := 0x14
  const MSG_CAL_DATA_GET_NEXT_SEGMENT: Byte := 0x15
  const MSG_ALLOCATE_CAL_DATA_BUFFER: Byte := 0x16
  const MSG_WRITE_CAL_DATA_SEGMENT: Byte := 0x17
  const MSG_FREE_CAL_BUFFER: Byte := 0x18
  const MSG_START_IMU_DATA: Byte := 0x19
  const MSG_GET_STATIC_ID: Byte := 0x1A

  const SEGMENT_SIZE: nat := 56

  // -----------------------------------------------------------------------
  // Framing: send_payload_to_sensor and send_payload_to_control
  // -----------------------------------------------------------------------

  /**
   * A frame a receiver accepts: the little-endian length at 5 counts the
   * bytes from 5 to the end, and the CRC-32 at 1 covers exactly those bytes.
   */
  predicate FrameIntact(p: seq<Byte>)
  {
    |p| >= 7 && 5 + U16(p, 5) == |p| && U32(p, 1) == Crc32(p[5..])
  }

  /** The checksum goes into bytes 1 to 4, least significant first; nothing else changes. */
  method PutChecksum(buf: array<Byte>, checksum: nat)
    requires 5 <= buf.Length && checksum < TWO_32
    modifies buf
    ensures buf[0] == old(buf[0]) && buf[1..5] == Le32(checksum)
    ensures buf[5..] == old(buf[5..])
  {
    var pos := Put16(buf, 1, checksum % TWO_16);
    pos := Put16(buf, 3, checksum / TWO_16);
    assert buf[1..5] == Le16(checksum % TWO_16) + Le16(checksum / TWO_16);
  }

  /**
   * A frame whose bytes from 5 on are `body`, which opens with its own
   * length, and whose bytes 1 to 4 hold the CRC-32 of `body`, is intact.
   */
  lemma FrameFields(p: seq<Byte>, body: seq<Byte>, checksum: nat)
    requires |p| == 5 + |body| && |body| >= 2 && p[5..] == body && U16(body, 0) == |body|
    requires checksum == Crc32(body) && p[1..5] == Le32(checksum)
    ensures p[1..5] == Le32(Crc32(p[5..])) && FrameIntact(p)
  {
    assert U16(p, 5) == U16(body, 0);
    assert U32(p, 1) == U32(Le32(checksum), 0);
  }

  /** `data` copied into the buffer from `at`; every other byte is unchanged. */
  method PutData(buf: array<Byte>, at: nat, data: seq<Byte>)
    requires at + |data| <= buf.Length
    modifies buf
    ensures buf[at..at + |data|] == data
    ensures forall k :: 0 <= k < buf.Length && !(at <= k < at + |data|) ==> buf[k] == old(buf[k])
  {
    forall k | 0 <= k < |data| {
      buf[at + k] := data[k];
    }
  }

  lemma Adjacent<T>(s: seq<T>, i: nat, j: nat, k: nat, a: seq<T>, b: seq<T>)
    requires i <= j <= k <= |s| && s[i..j] == a && s[j..k] == b
    ensures s[i..k] == a + b
  {
  }

  lemma SuffixKeeps<T>(a: seq<T>, b: seq<T>, i: nat, j: nat)
    requires i <= j <= |a| == |b| && a[i..] == b[i..]
    ensures a[i..j] == b[i..j]
  {
  }

  /**
   * Cutting a buffer that holds `body` from byte 5 and the body's CRC in
   * bytes 1 to 4 after the body gives an intact frame.
   */
  lemma FrameOfBuffer(b: seq<Byte>, body: seq<Byte>, checksum: nat)
    requires |b| >= 5 + |body| && |body| >= 2 && U16(body, 0) == |body| && b[5..5 + |body|] == body
    requires checksum == Crc32(body) && b[1..5] == Le32(checksum)
    ensures var p := b[..5 + |body|];
      p[0] == b[0] && p[5..] == body && p[1..5] == Le32(Crc32(p[5..])) && FrameIntact(p)
  {
    var p := b[..5 + |body|];
    assert p[5..] == b[5..5 + |body|];
    assert p[1..5] == b[1..5];
    FrameFields(p, body, checksum);
  }

  /**
   * `send_payload_to_sensor`: the bytes written to the sensor interface.
   * Head 0xAA, the CRC, the packet length 3 + len, the message id and the
   * data; the payload buffer holds 64 bytes, so at most 56 data bytes fit.
   */
  method SensorPayload(msgid: Byte, data: seq<Byte>) returns (payload: seq<Byte>)
    requires 8 + |data| <= REPORT_SIZE
    ensures |payload| == 8 + |data| && payload[0] == SENSOR_HEAD
    ensures payload[5..] == Le16(3 + |data|) + [msgid] + data
    ensures payload[1..5] == Le32(Crc32(payload[5..]))
    ensures FrameIntact(payload)
  {
    var buf := new Byte[REPORT_SIZE];
    var packetLen := 3 + |data|;
    buf[0] := SENSOR_HEAD;
    buf[5] := packetLen % TWO_8;
    buf[6] := packetLen / TWO_8;
    buf[7] := msgid;
    ghost var header := Le16(packetLen) + [msgid];
    assert buf[5..8] == header;
    PutData(buf, 8, data);
    assert buf[5..8] == header;
    Adjacent(buf[..], 5, 8, 5 + packetLen, header, data);
    ghost var body := header + data;
    var checksum := Crc32Checksum(buf[5..5 + packetLen], packetLen);
    assert buf[5..5 + packetLen][..packetLen] == body;
    ghost var before := buf[..];
    PutChecksum(buf, checksum);
    SuffixKeeps(buf[..], before, 5, 5 + packetLen);
    payload := buf[..5 + packetLen];
    FrameOfBuffer(buf[..], body, checksum);
  }

  /** The fixed part of a control packet: length, zero timestamp, message id, reserved zeros. */
  function ControlHeader(packetLen: nat, msgid: nat): (r: seq<Byte>)
    requires packetLen < TWO_16 && msgid < TWO_16
    ensures |r| == 17 && U16(r, 0) == packetLen && U16(r, 10) == msgid
  {
    var r := Le16(packetLen) + Zeros(8) + Le16(msgid) + Zeros(5);
    assert r[10..12] == Le16(msgid);
    r
  }

  /** Bytes 5 to 21 of a control payload, as `send_payload_to_control` fills them. */
  method PutControlHeader(buf: array<Byte>, packetLen: nat, msgid: nat)
    requires buf.Length == REPORT_SIZE && packetLen < TWO_16 && msgid < TWO_16
    modifies buf
    ensures buf[5..22] == ControlHeader(packetLen, msgid)
    ensures forall k :: 0 <= k < buf.Length && !(5 <= k < 22) ==> buf[k] == old(buf[k])
  {
    buf[5] := packetLen % TWO_8;
    buf[6] := packetLen / TWO_8;
    forall k | 7 <= k < 15 {
      buf[k] := 0;
    }
    buf[15] := msgid % TWO_8;
    buf[16] := msgid / TWO_8;
    forall k | 17 <= k < 22 {
      buf[k] := 0;
    }
    ghost var header := ControlHeader(packetLen, msgid);
    assert forall k | 0 <= k < 17 :: buf[5 + k] == header[k];
  }

  /**
   * `send_payload_to_control`: head 0xFD, the CRC, the packet length
   * 17 + len, a zero timestamp, the 16-bit message id, five reserved zero
   * bytes and the data from byte 22; at most 42 data bytes fit.
   */
  method ControlPayload(msgid: nat, data: seq<Byte>) returns (payload: seq<Byte>)
    requires msgid < TWO_16 && 22 + |data| <= REPORT_SIZE
    ensures |payload| == 22 + |data| && payload[0] == CONTROL_HEAD
    ensures payload[5..] == ControlHeader(17 + |data|, msgid) + data
    ensures payload[1..5] == Le32(Crc32(payload[5..]))
    ensures FrameIntact(payload)
  {
    var buf := new Byte[REPORT_SIZE];
    var packetLen := 17 + |data|;
    buf[0] := CONTROL_HEAD;
    PutControlHeader(buf, packetLen, msgid);
    ghost var header := ControlHeader(packetLen, msgid);
    PutData(buf, 22, data);
    assert buf[5..22] == header;
    Adjacent(buf[..], 5, 22, 5 + packetLen, header, data);
    ghost var body := header + data;
    var checksum := Crc32Checksum(buf[5..5 + packetLen], packetLen);
    assert buf[5..5 + packetLen][..packetLen] == body;
    ghost var before := buf[..];
    PutChecksum(buf, checksum);
    SuffixKeeps(buf[..], before, 5, 5 + packetLen);
    payload := buf[..5 + packetLen];
    FrameOfBuffer(buf[..], body, checksum);
  }

  // -----------------------------------------------------------------------
  // calc_delta_and_handle_rollover
  // -----------------------------------------------------------------------

  /**
   * `calc_delta_and_handle_rollover` on `uint32_t` ticks: the wrapped
   * difference, and when it exceeds 24 bits (the counter rolled over) 2^24
   * added, again modulo 2^32.
   */
  function CalcDelta(next: nat, last: nat): (r: nat)
    requires next < TWO_32 && last < TWO_32
    ensures r < TWO_32
  {
    var delta := (next - last) % TWO_32;
    if delta > 0xFF_FFFF then (delta + TWO_24) % TWO_32 else delta
  }

  /** Whatever the inputs, the delta agrees with the difference modulo the 24-bit counter period. */
  lemma CalcDeltaCongruent(next: nat, last: nat)
    requires next < TWO_32 && last < TWO_32
    ensures CalcDelta(next, last) % TWO_24 == (next - last) % TWO_24
  {
    var d := next - last;
    var delta := d % TWO_32;
    Arith.DivModUnique(d, TWO_32, if d < 0 then -1 else 0, if d < 0 then d + TWO_32 else d);
    if delta > 0xFF_FFFF {
      if delta + TWO_24 < TWO_32 {
        Arith.DivModUnique(delta + TWO_24, TWO_32, 0, delta + TWO_24);
      } else {
        Arith.DivModUnique(delta + TWO_24, TWO_32, 1, delta + TWO_24 - TWO_32);
      }
    }
    ModTwo24(d, CalcDelta(next, last));
  }

  lemma ModTwo24(d: int, r: nat)
    requires (r - d) % TWO_24 == 0
    ensures r % TWO_24 == d % TWO_24
  {
    var k := (r - d) / TWO_24;
    assert r == d + k * TWO_24;
    Arith.DivModUnique(r, TWO_24, d / TWO_24 + k, d % TWO_24);
  }

  /** For ticks of the 24-bit counter the delta is the forward distance from `last` to `next`. */
  lemma CalcDeltaRollover(next: nat, last: nat)
    requires next < TWO_24 && last < TWO_24
    ensures CalcDelta(next, last) == (next - last) % TWO_24
    ensures next >= last ==> CalcDelta(next, last) == next - last
    ensures next < last ==> CalcDelta(next, last) == next + TWO_24 - last
  {
    var d := next - last;
    if d >= 0 {
      Arith.DivModUnique(d, TWO_32, 0, d);
      Arith.DivModUnique(d, TWO_24, 0, d);
    } else {
      Arith.DivModUnique(d, TWO_32, -1, d + TWO_32);
      Arith.DivModUnique(d + TWO_32 + TWO_24, TWO_32, 1, d + TWO_24);
      Arith.DivModUnique(d, TWO_24, -1, d + TWO_24);
    }
  }

  // -----------------------------------------------------------------------
  // scale_brightness and unscale_brightness
  // -----------------------------------------------------------------------

  /**
   * `scale_brightness`: a device level 0..7 as a percentage, rounded down;
   * levels above 7 clamp to 100.  The `float` computation agrees with this
   * for every byte: 100 * b / 7 is integral only for b = 0 and b = 7, which
   * the float code computes exactly, and otherwise lies at least 1/7 from an
   * integer.
   */
  function ScaleBrightness(b: Byte): (r: Byte)
    ensures r <= 100
    ensures b >= BRIGHTNESS_MAX ==> r == 100
    ensures b < BRIGHTNESS_MAX ==> 7 * r <= 100 * b < 7 * r + 7
  {
    (if b > BRIGHTNESS_MAX then BRIGHTNESS_MAX else b) * 100 / 7
  }

  /**
   * `unscale_brightness` as written: a percentage as a device level,
   * truncated.  The `float` computation agrees: 7 * s / 100 for s <= 100 is
   * integral only for s = 0 and s = 100, and otherwise lies at least 1/100
   * from an integer.
   */
  function UnscaleBrightnessAsWritten(s: Byte): (r: Byte)
    ensures r <= BRIGHTNESS_MAX
    ensures s <= 100 ==> 100 * r <= 7 * s < 100 * r + 100
  {
    (if s > 100 then 100 else s) * 7 / 100
  }

  /** Unscaling a level the driver itself reported lands one level lower. */
  lemma UnscaleLosesLevel()
    ensures ScaleBrightness(3) == 42 && UnscaleBrightnessAsWritten(ScaleBrightness(3)) == 2
    ensures forall b: Byte :: 1 <= b <= 6 ==> UnscaleBrightnessAsWritten(ScaleBrightness(b)) == b - 1
  {
  }

  /** The truncated level never reports more than the percentage it came from. */
  lemma WrittenLevelNotAbove(s: Byte)
    requires s <= 100
    ensures ScaleBrightness(UnscaleBrightnessAsWritten(s)) <= s
  {
    var r := UnscaleBrightnessAsWritten(s);
    assert 100 * r <= 7 * s;
  }

  /**
   * A reported level 1..6 does not survive unscale-then-scale as written: it
   * comes back as the level below.
   */
  lemma ReportedLevelDrifts(b: Byte)
    requires 1 <= b <= 6
    ensures ScaleBrightness(UnscaleBrightnessAsWritten(ScaleBrightness(b))) == ScaleBrightness(b - 1) < ScaleBrightness(b)
  {
    UnscaleLosesLevel();
  }

  /** `unscale_brightness` rounding to the nearest level instead of down. */
  function UnscaleBrightness(s: Byte): (r: Byte)
    ensures r <= BRIGHTNESS_MAX
    ensures s <= 100 ==> 100 * r <= 7 * s + 50 < 100 * r + 100
  {
    ((if s > 100 then 100 else s) * 7 + 50) / 100
  }

  /** Every device level survives scaling and unscaling. */
  lemma BrightnessRoundTrip(b: Byte)
    requires b <= BRIGHTNESS_MAX
    ensures UnscaleBrightness(ScaleBrightness(b)) == b
  {
  }

  /** A percentage that is already a reported level is a fixed point of unscale-then-scale. */
  lemma ReportedLevelIsStable(b: Byte)
    ensures ScaleBrightness(UnscaleBrightness(ScaleBrightness(b))) == ScaleBrightness(b)
  {
    if b <= BRIGHTNESS_MAX {
      BrightnessRoundTrip(b);
    } else {
      BrightnessRoundTrip(BRIGHTNESS_MAX);
    }
  }

  // -----------------------------------------------------------------------
  // The device state
  // -----------------------------------------------------------------------

  /** A request as handed to a `send_payload_to_*` call. */
  datatype Request = Request(msgid: nat, data: seq<Byte>)

  /** The `state` and `wants` pairs of the device. */
  datatype Setting = Setting(brightness: Byte, displayMode: Byte)

  /**
   * What the message switch of `handle_sensor_control_data_msg` sees as
   * written: the parsed report, or, when parsing failed, whatever the stack
   * struct held before.
   */
  function DispatchedAsWritten(buffer: seq<Byte>, stale: NaSensorControlData): (r: NaSensorControlData)
    ensures |buffer| == REPORT_SIZE ==> r.msgid == buffer[7] && r.data == buffer[8..]
  {
    if |buffer| == REPORT_SIZE then NaSensorControlData(U16(buffer, 5), buffer[7], buffer[8..]) else stale
  }

  /**
   * A short read is dispatched on stale contents: a calibration length
   * nobody sent, whose handler then sizes the download by the stale bytes.
   */
  lemma ShortReportDispatchesStale(stale: NaSensorControlData)
    requires stale.msgid == MSG_GET_CAL_DATA_LENGTH && |stale.data| == SEGMENT_SIZE
    ensures var d := DispatchedAsWritten([SENSOR_HEAD], stale);
      d.msgid == MSG_GET_CAL_DATA_LENGTH && |d.data| == SEGMENT_SIZE && U32(d.data, 0) == U32(stale.data, 0)
  {
  }

  /** The same for `handle_control_msg`. */
  function ControlAsWritten(buffer: seq<Byte>, stale: NaControl): (r: NaControl)
    ensures |buffer| == REPORT_SIZE ==> r.action == U16(buffer, 15) && r.data == buffer[22..]
  {
    if |buffer| == REPORT_SIZE then NaControl(U16(buffer, 5), U64(buffer, 7), U16(buffer, 15), buffer[22..])
    else stale
  }

  /** A two-byte report acting on a stale display-toggle press turns a display that is off on. */
  lemma ShortReportActsOnStale(stale: NaControl, state: Setting, wants: Setting)
    requires stale.action == MSG_P_BUTTON_PRESSED && |stale.data| == 42
    requires stale.data[4] == BUTTON_VIRT_DISPLAY_TOGGLE && stale.data[8] == 1
    ensures var c := ControlAsWritten([CONTROL_HEAD, 0], stale);
      c.action == MSG_P_BUTTON_PRESSED && |c.data| == 42 &&
      ButtonEffect(c.data[4], c.data[8], state, wants, false) == (state, wants, true)
  {
  }

  const ZERO_SAMPLE := NaSample(0, 0, Vec3i(0, 0, 0), 0, 0, Vec3i(0, 0, 0), 0, 0, Vec3i(0, 0, 0))

  /**
   * `struct na_hmd` without the HID handles, threads and fusion: the
   * calibration download, the handshake results, the last IMU report, the
   * display settings, and the requests sent to each interface in order.
   */
  class NaHmd {
    var calibrationBuffer: array?<Byte>
    var calibrationBufferLen: nat
    var calibrationBufferPos: nat
    var calibrationValid: bool
    /** The text handed to the calibration parser when the download completed. */
    var calibrationText: seq<Byte>
    var staticId: nat
    var imuStreamState: Byte
    var last: NaSensor
    var state: Setting
    var wants: Setting
    var displayOn: bool
    var sensorRequests: seq<Request>
    var controlRequests: seq<Request>

    /**
     * While a download is announced the buffer has its length and the
     * position has not passed it.
     */
    predicate Valid()
      reads this
    {
      calibrationBufferLen > 0 ==>
        calibrationBuffer != null && calibrationBuffer.Length == calibrationBufferLen &&
        calibrationBufferPos <= calibrationBufferLen
    }

    /** The fields the sensor interface handlers change. */
    function Calibration(): (nat, nat, bool, seq<Byte>, nat)
      reads this
    {
      (calibrationBufferLen, calibrationBufferPos, calibrationValid, calibrationText, staticId)
    }

    /** The state `na_nreal_air_open` sets up before any report arrives. */
    constructor ()
      ensures Valid()
      ensures calibrationBuffer == null && calibrationBufferLen == 0 && calibrationBufferPos == 0
      ensures !calibrationValid && calibrationText == [] && staticId == 0 && imuStreamState == 0
      ensures last == NaSensor(0, 0, ZERO_SAMPLE)
      ensures state == Setting(0xFF, 0) && wants == Setting(0xFF, 0) && !displayOn
      ensures sensorRequests == [] && controlRequests == []
    {
      calibrationBuffer := null;
      calibrationBufferLen := 0;
      calibrationBufferPos := 0;
      calibrationValid := false;
      calibrationText := [];
      staticId := 0;
      imuStreamState := 0;
      last := NaSensor(0, 0, ZERO_SAMPLE);
      state := Setting(0xFF, 0);
      wants := Setting(0xFF, 0);
      displayOn := false;
      sensorRequests := [];
      controlRequests := [];
    }

    // ---------------------------------------------------------------------
    // Sensor control handlers
    // ---------------------------------------------------------------------

    /**
     * `handle_sensor_control_get_cal_data_length`: the announced length is
     * stored; a non-zero one gets a fresh zeroed buffer and the position
     * rewinds; then, if there is a buffer, the first segment is requested.
     */
    method HandleGetCalDataLength(data: seq<Byte>)
      requires Valid() && |data| == SEGMENT_SIZE
      modifies this
      ensures Valid()
      ensures calibrationBufferLen == U32(data, 0)
      ensures calibrationBufferLen > 0 ==> fresh(calibrationBuffer) && calibrationBufferPos == 0 &&
                                           calibrationBuffer[..] == Zeros(calibrationBufferLen)
      ensures calibrationBufferLen == 0 ==> calibrationBuffer == old(calibrationBuffer) &&
                                            calibrationBufferPos == old(calibrationBufferPos)
      ensures sensorRequests == old(sensorRequests) +
        (if calibrationBuffer != null then [Request(MSG_CAL_DATA_GET_NEXT_SEGMENT, [])] else [])
      ensures calibrationValid == old(calibrationValid) && calibrationText == old(calibrationText)
      ensures staticId == old(staticId) && imuStreamState == old(imuStreamState) && last == old(last)
      ensures state == old(state) && wants == old(wants) && displayOn == old(displayOn)
      ensures controlRequests == old(controlRequests)
    {
      calibrationBufferLen := U32(data, 0);
      if calibrationBufferLen > 0 {
        calibrationBuffer := new Byte[calibrationBufferLen](_ => 0);
        calibrationBufferPos := 0;
      }
      if calibrationBuffer != null {
        sensorRequests := sensorRequests + [Request(MSG_CAL_DATA_GET_NEXT_SEGMENT, [])];
      }
    }

    /**
     * `handle_sensor_control_cal_data_get_next_segment`: with no download
     * announced, ask for the length; with the buffer already full, do
     * nothing; otherwise append min(56, remaining) bytes of the segment.
     * The last segment completes the download: the text goes to the
     * calibration parser (which accepts any text), the calibration becomes
     * valid, the IMU stream is started, and the buffer, length and position
     * are reset.  Before that, the next segment is requested.  (Whenever a
     * length is announced the buffer exists, so the source's check for a
     * missing buffer cannot fire.)
     */
    method HandleNextSegment(data: seq<Byte>)
      requires Valid() && |data| == SEGMENT_SIZE
      modifies this, calibrationBuffer
      ensures Valid()
      ensures old(calibrationBufferLen) == 0 ==>
        Calibration() == old(Calibration()) && calibrationBuffer == old(calibrationBuffer) &&
        sensorRequests == old(sensorRequests) + [Request(MSG_GET_CAL_DATA_LENGTH, [])]
      ensures 0 < old(calibrationBufferLen) <= old(calibrationBufferPos) ==>
        Calibration() == old(Calibration()) && calibrationBuffer == old(calibrationBuffer) &&
        sensorRequests == old(sensorRequests)
      ensures old(calibrationBufferPos) < old(calibrationBufferLen) ==>
        var n := if old(calibrationBufferLen) - old(calibrationBufferPos) > SEGMENT_SIZE
                 then SEGMENT_SIZE else old(calibrationBufferLen) - old(calibrationBufferPos);
        var received := old(calibrationBuffer[..calibrationBufferPos]) + data[..n];
        if old(calibrationBufferPos) + n == old(calibrationBufferLen) then
          calibrationText == received && calibrationValid && calibrationBuffer == null &&
          calibrationBufferLen == 0 && calibrationBufferPos == 0 &&
          sensorRequests == old(sensorRequests) + [Request(MSG_START_IMU_DATA, [0x01])]
        else
          calibrationBuffer == old(calibrationBuffer) && calibrationBufferLen == old(calibrationBufferLen) &&
          calibrationBufferPos == old(calibrationBufferPos) + n &&
          calibrationBuffer[..calibrationBufferPos] == received &&
          calibrationValid == old(calibrationValid) && calibrationText == old(calibrationText) &&
          sensorRequests == old(sensorRequests) + [Request(MSG_CAL_DATA_GET_NEXT_SEGMENT, [])]
      ensures staticId == old(staticId) && imuStreamState == old(imuStreamState) && last == old(last)
      ensures state == old(state) && wants == old(wants) && displayOn == old(displayOn)
      ensures controlRequests == old(controlRequests)
    {
      if calibrationBufferLen == 0 {
        sensorRequests := sensorRequests + [Request(MSG_GET_CAL_DATA_LENGTH, [])];
        return;
      }
      if calibrationBufferLen <= calibrationBufferPos {
        return;
      }
      var remaining := calibrationBufferLen - calibrationBufferPos;
      var next := if remaining > SEGMENT_SIZE then SEGMENT_SIZE else remaining;
      var buf := calibrationBuffer;
      var pos := PutBytes(buf, calibrationBufferPos, data[..next]);
      calibrationBufferPos := pos;
      if calibrationBufferPos == calibrationBufferLen {
        calibrationText := buf[..];
        calibrationValid := true;
        sensorRequests := sensorRequests + [Request(MSG_START_IMU_DATA, [0x01])];
        calibrationBuffer := null;
        calibrationBufferLen := 0;
        calibrationBufferPos := 0;
      } else {
        sensorRequests := sensorRequests + [Request(MSG_CAL_DATA_GET_NEXT_SEGMENT, [])];
      }
    }

    /**
     * `handle_sensor_control_start_imu_data`: record the stream state; then
     * ask for the static id if it is still unknown, or else for the
     * calibration length if the calibration is not yet valid.
     */
    method HandleStartImuData(data: seq<Byte>)
      requires Valid() && |data| == SEGMENT_SIZE
      modifies this
      ensures Valid() && imuStreamState == data[0]
      ensures sensorRequests == old(sensorRequests) +
        (if staticId == 0 then [Request(MSG_GET_STATIC_ID, [])]
         else if !calibrationValid then [Request(MSG_GET_CAL_DATA_LENGTH, [])]
         else [])
      ensures Calibration() == old(Calibration()) && calibrationBuffer == old(calibrationBuffer)
      ensures last == old(last) && state == old(state) && wants == old(wants) && displayOn == old(displayOn)
      ensures controlRequests == old(controlRequests)
    {
      imuStreamState := data[0];
      if staticId == 0 {
        sensorRequests := sensorRequests + [Request(MSG_GET_STATIC_ID, [])];
      } else if !calibrationValid {
        sensorRequests := sensorRequests + [Request(MSG_GET_CAL_DATA_LENGTH, [])];
      }
    }

    /**
     * `handle_sensor_control_get_static_id`: store the little-endian id and
     * ask for the calibration length if the calibration is not yet valid.
     */
    method HandleGetStaticId(data: seq<Byte>)
      requires Valid() && |data| == SEGMENT_SIZE
      modifies this
      ensures Valid() && staticId == U32(data, 0)
      ensures sensorRequests == old(sensorRequests) +
        (if !calibrationValid then [Request(MSG_GET_CAL_DATA_LENGTH, [])] else [])
      ensures calibrationBufferLen == old(calibrationBufferLen) && calibrationBufferPos == old(calibrationBufferPos)
      ensures calibrationValid == old(calibrationValid) && calibrationText == old(calibrationText)
      ensures calibrationBuffer == old(calibrationBuffer) && imuStreamState == old(imuStreamState)
      ensures last == old(last) && state == old(state) && wants == old(wants) && displayOn == old(displayOn)
      ensures controlRequests == old(controlRequests)
    {
      staticId := U32(data, 0);
      if !calibrationValid {
        sensorRequests := sensorRequests + [Request(MSG_GET_CAL_DATA_LENGTH, [])];
      }
    }

    /**
     * What `handle_sensor_control_data_msg` does with a parsed report: the
     * stream state becomes 0xAA and the message id at byte 7 selects the
     * handler, whose effect is stated on the report's bytes (the data starts
     * at byte 8); the buffer management ids and unknown ids do nothing more.
     */
    twostate predicate ControlDataApplied(buffer: seq<Byte>)
      requires old(Valid()) && Valid() && |buffer| == REPORT_SIZE
      reads this, calibrationBuffer
    {
      var msgid := buffer[7];
      // 0x14: the announced length, a fresh zeroed buffer, and the first segment request.
      (msgid == MSG_GET_CAL_DATA_LENGTH ==>
        imuStreamState == 0xAA && calibrationBufferLen == U32(buffer, 8) &&
        (calibrationBufferLen > 0 ==> fresh(calibrationBuffer) && calibrationBufferPos == 0 &&
                                      calibrationBuffer[..] == Zeros(calibrationBufferLen)) &&
        (calibrationBufferLen == 0 ==> calibrationBuffer == old(calibrationBuffer) &&
                                       calibrationBufferPos == old(calibrationBufferPos)) &&
        sensorRequests == old(sensorRequests) +
          (if calibrationBuffer != null then [Request(MSG_CAL_DATA_GET_NEXT_SEGMENT, [])] else []) &&
        calibrationValid == old(calibrationValid) && calibrationText == old(calibrationText) &&
        staticId == old(staticId)) &&
      // 0x15: a length request, nothing, or the next min(56, remaining) bytes of the download.
      (msgid == MSG_CAL_DATA_GET_NEXT_SEGMENT ==>
        imuStreamState == 0xAA && staticId == old(staticId) &&
        (old(calibrationBufferLen) == 0 ==>
          Calibration() == old(Calibration()) && calibrationBuffer == old(calibrationBuffer) &&
          sensorRequests == old(sensorRequests) + [Request(MSG_GET_CAL_DATA_LENGTH, [])]) &&
        (0 < old(calibrationBufferLen) <= old(calibrationBufferPos) ==>
          Calibration() == old(Calibration()) && calibrationBuffer == old(calibrationBuffer) &&
          sensorRequests == old(sensorRequests))) &&
      (msgid == MSG_CAL_DATA_GET_NEXT_SEGMENT && old(calibrationBufferPos) < old(calibrationBufferLen) ==>
        var n := if old(calibrationBufferLen) - old(calibrationBufferPos) > SEGMENT_SIZE
                 then SEGMENT_SIZE else old(calibrationBufferLen) - old(calibrationBufferPos);
        var received := old(calibrationBuffer[..calibrationBufferPos]) + buffer[8..8 + n];
        if old(calibrationBufferPos) + n == old(calibrationBufferLen) then
          calibrationText == received && calibrationValid && calibrationBuffer == null &&
          calibrationBufferLen == 0 && calibrationBufferPos == 0 &&
          sensorRequests == old(sensorRequests) + [Request(MSG_START_IMU_DATA, [0x01])]
        else
          calibrationBuffer == old(calibrationBuffer) && calibrationBufferLen == old(calibrationBufferLen) &&
          calibrationBufferPos == old(calibrationBufferPos) + n &&
          calibrationBuffer[..calibrationBufferPos] == received &&
          calibrationValid == old(calibrationValid) && calibrationText == old(calibrationText) &&
          sensorRequests == old(sensorRequests) + [Request(MSG_CAL_DATA_GET_NEXT_SEGMENT, [])]) &&
      // 0x19: the stream state from the report, then a static id or length request.
      (msgid == MSG_START_IMU_DATA ==>
        imuStreamState == buffer[8] &&
        Calibration() == old(Calibration()) && calibrationBuffer == old(calibrationBuffer) &&
        sensorRequests == old(sensorRequests) +
          (if staticId == 0 then [Request(MSG_GET_STATIC_ID, [])]
           else if !calibrationValid then [Request(MSG_GET_CAL_DATA_LENGTH, [])]
           else [])) &&
      // 0x1A: the static id, then a length request while uncalibrated.
      (msgid == MSG_GET_STATIC_ID ==>
        imuStreamState == 0xAA && staticId == U32(buffer, 8) &&
        calibrationBufferLen == old(calibrationBufferLen) && calibrationBufferPos == old(calibrationBufferPos) &&
        calibrationValid == old(calibrationValid) && calibrationText == old(calibrationText) &&
        calibrationBuffer == old(calibrationBuffer) &&
        sensorRequests == old(sensorRequests) + (if !calibrationValid then [Request(MSG_GET_CAL_DATA_LENGTH, [])] else [])) &&
      // Buffer management and unknown ids: only the stream state changes.
      (msgid !in {MSG_GET_CAL_DATA_LENGTH, MSG_CAL_DATA_GET_NEXT_SEGMENT, MSG_START_IMU_DATA, MSG_GET_STATIC_ID} ==>
        imuStreamState == 0xAA && Calibration() == old(Calibration()) &&
        calibrationBuffer == old(calibrationBuffer) && sensorRequests == old(sensorRequests))
    }

    /**
     * `handle_sensor_control_data_msg`, returning when the report does not
     * parse; a parsed report has the effect `ControlDataApplied` states.
     */
    method HandleSensorControlDataMsg(buffer: seq<Byte>)
      requires Valid()
      modifies this, calibrationBuffer
      ensures Valid()
      ensures |buffer| != REPORT_SIZE ==>
        Calibration() == old(Calibration()) && calibrationBuffer == old(calibrationBuffer) &&
        imuStreamState == old(imuStreamState) && sensorRequests == old(sensorRequests)
      ensures |buffer| == REPORT_SIZE ==> Valid() && ControlDataApplied(buffer)
      ensures last == old(last) && state == old(state) && wants == old(wants) && displayOn == old(displayOn)
      ensures controlRequests == old(controlRequests)
    {
      var parsed := ParseSensorControlData(buffer);
      if parsed.None? {
        return;
      }
      var data := parsed.value;
      assert U32(data.data, 0) == U32(buffer, 8);
      assert data.data[..SEGMENT_SIZE] == buffer[8..REPORT_SIZE];
      imuStreamState := 0xAA;
      if data.msgid == MSG_GET_CAL_DATA_LENGTH {
        HandleGetCalDataLength(data.data);
      } else if data.msgid == MSG_CAL_DATA_GET_NEXT_SEGMENT {
        HandleNextSegment(data.data);
      } else if data.msgid == MSG_START_IMU_DATA {
        HandleStartImuData(data.data);
      } else if data.msgid == MSG_GET_STATIC_ID {
        HandleGetStaticId(data.data);
      }
    }

    /**
     * `handle_sensor_msg`: a report starting 0xAA is sensor control data.
     * Otherwise an IMU report that parses becomes `last` and sets the stream
     * state to 1; while the calibration is not valid the IMU stream is
     * (re)requested; and the tick delta between the two timestamps, both
     * cut to 32 bits, is handed to fusion unless fusion has already run and
     * the delta reaches a second.  The result is that delta, or None when
     * nothing is handed on.
     */
    method HandleSensorMsg(buffer: seq<Byte>, fusionIterations: nat) returns (delta: Option<nat>)
      requires Valid() && |buffer| >= 1
      modifies this, calibrationBuffer
      ensures Valid()
      ensures buffer[0] == SENSOR_HEAD ==> delta.None? && last == old(last)
      ensures buffer[0] == SENSOR_HEAD && |buffer| != REPORT_SIZE ==>
        Calibration() == old(Calibration()) && calibrationBuffer == old(calibrationBuffer) &&
        imuStreamState == old(imuStreamState) && sensorRequests == old(sensorRequests)
      ensures buffer[0] == SENSOR_HEAD && |buffer| == REPORT_SIZE ==> Valid() && ControlDataApplied(buffer)
      ensures buffer[0] != SENSOR_HEAD ==>
        Calibration() == old(Calibration()) &&
        (if |buffer| == REPORT_SIZE && buffer[0] == 1
         then imuStreamState == 1 && last.timestamp == U64(buffer, 4) &&
              last.temperature == ToInt16(U16(buffer, 2)) && last.sample == SampleAt(buffer, 12)
         else imuStreamState == old(imuStreamState) && last == old(last)) &&
        sensorRequests == old(sensorRequests) +
          (if !calibrationValid then [Request(MSG_START_IMU_DATA, [0xAA])] else []) &&
        var d := CalcDelta(last.timestamp % TWO_32, old(last.timestamp) % TWO_32);
        delta == (if fusionIterations != 0 && d >= 1_000_000_000 then None else Some(d))
      ensures state == old(state) && wants == old(wants) && displayOn == old(displayOn)
      ensures controlRequests == old(controlRequests)
    {
      if buffer[0] == SENSOR_HEAD {
        HandleSensorControlDataMsg(buffer);
        return None;
      }
      delta := HandleImuMsg(buffer, fusionIterations);
    }

    /** The part of `handle_sensor_msg` after the 0xAA test: an IMU report and the delta handed to fusion. */
    method HandleImuMsg(buffer: seq<Byte>, fusionIterations: nat) returns (delta: Option<nat>)
      requires Valid() && |buffer| >= 1 && buffer[0] != SENSOR_HEAD
      modifies this
      ensures Valid()
      ensures Calibration() == old(Calibration())
      ensures if |buffer| == REPORT_SIZE && buffer[0] == 1
        then imuStreamState == 1 && last.timestamp == U64(buffer, 4) &&
             last.temperature == ToInt16(U16(buffer, 2)) && last.sample == SampleAt(buffer, 12)
        else imuStreamState == old(imuStreamState) && last == old(last)
      ensures sensorRequests == old(sensorRequests) +
        (if !calibrationValid then [Request(MSG_START_IMU_DATA, [0xAA])] else [])
      ensures var d := CalcDelta(last.timestamp % TWO_32, old(last.timestamp) % TWO_32);
        delta == (if fusionIterations != 0 && d >= 1_000_000_000 then None else Some(d))
      ensures state == old(state) && wants == old(wants) && displayOn == old(displayOn)
      ensures controlRequests == old(controlRequests)
    {
      var lastTimestamp := last.timestamp;
      var parsed := ParseSensorPacket(buffer);
      if parsed.Some? {
        last := parsed.value;
        imuStreamState := 1;
      }
      if !calibrationValid {
        sensorRequests := sensorRequests + [Request(MSG_START_IMU_DATA, [0xAA])];
      }
      var d := CalcDelta(last.timestamp % TWO_32, lastTimestamp % TWO_32);
      if fusionIterations != 0 && d >= 1_000_000_000 {
        return None;
      }
      return Some(d);
    }

    // ---------------------------------------------------------------------
    // Control handlers
    // ---------------------------------------------------------------------

    /**
     * `handle_control_action_locked` with its handlers: a brightness or
     * display-mode reply with status 0 sets both `state` and `wants`; a
     * button press toggles the display, sets the brightness, or moves the
     * wanted display mode between 2D and 3D; an asynchronous text message
     * means the display is on; everything else changes nothing.
     */
    method HandleControlAction(control: NaControl)
      requires |control.data| == 42
      modifies this
      ensures control.action == MSG_R_BRIGHTNESS && control.data[0] == 0 ==>
        state == old(state).(brightness := ScaleBrightness(control.data[1])) &&
        wants == old(wants).(brightness := ScaleBrightness(control.data[1])) && displayOn == old(displayOn)
      ensures control.action == MSG_R_DISP_MODE && control.data[0] == 0 ==>
        state == old(state).(displayMode := control.data[1]) &&
        wants == old(wants).(displayMode := control.data[1]) && displayOn == old(displayOn)
      ensures control.action == MSG_P_BUTTON_PRESSED ==>
        ButtonEffect(control.data[4], control.data[8], old(state), old(wants), old(displayOn)) ==
        (state, wants, displayOn)
      ensures control.action == MSG_P_ASYNC_TEXT_LOG ==> displayOn && state == old(state) && wants == old(wants)
      ensures control.action !in {MSG_R_BRIGHTNESS, MSG_R_DISP_MODE, MSG_P_BUTTON_PRESSED, MSG_P_ASYNC_TEXT_LOG} ||
              (control.action in {MSG_R_BRIGHTNESS, MSG_R_DISP_MODE} && control.data[0] != 0) ==>
        state == old(state) && wants == old(wants) && displayOn == old(displayOn)
      ensures Calibration() == old(Calibration()) && calibrationBuffer == old(calibrationBuffer)
      ensures imuStreamState == old(imuStreamState) && last == old(last)
      ensures sensorRequests == old(sensorRequests) && controlRequests == old(controlRequests)
    {
      var data := control.data;
      if control.action == MSG_R_BRIGHTNESS {
        if data[0] == 0 {
          var brightness := ScaleBrightness(data[1]);
          state := state.(brightness := brightness);
          wants := wants.(brightness := brightness);
        }
      } else if control.action == MSG_R_DISP_MODE {
        if data[0] == 0 {
          state := state.(displayMode := data[1]);
          wants := wants.(displayMode := data[1]);
        }
      } else if control.action == MSG_P_BUTTON_PRESSED {
        HandleButton(data[4], data[8]);
      } else if control.action == MSG_P_ASYNC_TEXT_LOG {
        displayOn := true;
      }
    }

    /** `handle_control_button`: the virtual button id at data[4], its value at data[8]. */
    method HandleButton(virt: Byte, value: Byte)
      modifies this
      ensures ButtonEffect(virt, value, old(state), old(wants), old(displayOn)) == (state, wants, displayOn)
      ensures Calibration() == old(Calibration()) && calibrationBuffer == old(calibrationBuffer)
      ensures imuStreamState == old(imuStreamState) && last == old(last)
      ensures sensorRequests == old(sensorRequests) && controlRequests == old(controlRequests)
    {
      if virt == BUTTON_VIRT_DISPLAY_TOGGLE {
        displayOn := value != 0;
      } else if virt == BUTTON_VIRT_BRIGHTNESS_UP || virt == BUTTON_VIRT_BRIGHTNESS_DOWN {
        var brightness := ScaleBrightness(value);
        state := state.(brightness := brightness);
        wants := wants.(brightness := brightness);
      } else if virt == BUTTON_VIRT_MODE_UP {
        if state.displayMode == DISPLAY_MODE_2D {
          wants := wants.(displayMode := DISPLAY_MODE_3D);
        }
      } else if virt == BUTTON_VIRT_MODE_DOWN {
        if state.displayMode == DISPLAY_MODE_3D {
          wants := wants.(displayMode := DISPLAY_MODE_2D);
        }
      }
    }

    /**
     * `handle_control_msg`, returning when the report does not parse (see
     * `ControlAsWritten` for the source's behaviour): the action at byte 15
     * and the data from byte 22 go to `HandleControlAction`.
     */
    method HandleControlMsg(buffer: seq<Byte>)
      modifies this
      ensures |buffer| != REPORT_SIZE ==>
        state == old(state) && wants == old(wants) && displayOn == old(displayOn)
      ensures |buffer| == REPORT_SIZE && U16(buffer, 15) == MSG_R_BRIGHTNESS && buffer[22] == 0 ==>
        state == old(state).(brightness := ScaleBrightness(buffer[23])) &&
        wants == old(wants).(brightness := ScaleBrightness(buffer[23])) && displayOn == old(displayOn)
      ensures |buffer| == REPORT_SIZE && U16(buffer, 15) == MSG_R_DISP_MODE && buffer[22] == 0 ==>
        state == old(state).(displayMode := buffer[23]) &&
        wants == old(wants).(displayMode := buffer[23]) && displayOn == old(displayOn)
      ensures |buffer| == REPORT_SIZE && U16(buffer, 15) == MSG_P_BUTTON_PRESSED ==>
        ButtonEffect(buffer[26], buffer[30], old(state), old(wants), old(displayOn)) == (state, wants, displayOn)
      ensures |buffer| == REPORT_SIZE && U16(buffer, 15) == MSG_P_ASYNC_TEXT_LOG ==>
        displayOn && state == old(state) && wants == old(wants)
      ensures |buffer| == REPORT_SIZE &&
              (U16(buffer, 15) !in {MSG_R_BRIGHTNESS, MSG_R_DISP_MODE, MSG_P_BUTTON_PRESSED, MSG_P_ASYNC_TEXT_LOG} ||
               (U16(buffer, 15) in {MSG_R_BRIGHTNESS, MSG_R_DISP_MODE} && buffer[22] != 0)) ==>
        state == old(state) && wants == old(wants) && displayOn == old(displayOn)
      ensures Calibration() == old(Calibration()) && calibrationBuffer == old(calibrationBuffer)
      ensures imuStreamState == old(imuStreamState) && last == old(last)
      ensures sensorRequests == old(sensorRequests) && controlRequests == old(controlRequests)
    {
      var parsed := ParseControl(buffer);
      if parsed.None? {
        return;
      }
      HandleControlAction(parsed.value);
    }

    // ---------------------------------------------------------------------
    // Applying what the application wants
    // ---------------------------------------------------------------------

    /**
     * `adjust_brightness`: nothing to do when the wanted percentage is out of
     * range, already current, or quantizes to the current level; otherwise
     * the device level is written, and only if the write succeeded
     * (`sendOk`) does the state follow.  The level comes from the truncating
     * `unscale_brightness` as written, so, with 42% current, a wanted 57%
     * unscales to level 3, scales back to 42% and nothing is sent.  The level
     * written never reports more than the wanted percentage.
     */
    method AdjustBrightness(sendOk: bool)
      modifies this
      ensures var raw := UnscaleBrightnessAsWritten(old(wants.brightness));
        if old(wants.brightness) > 100 || old(wants.brightness) == old(state.brightness) ||
           ScaleBrightness(raw) == old(state.brightness)
        then controlRequests == old(controlRequests) && state == old(state)
        else controlRequests == old(controlRequests) + [Request(MSG_W_BRIGHTNESS, [raw])] &&
             state == (if sendOk then old(state).(brightness := ScaleBrightness(raw)) else old(state))
      ensures controlRequests != old(controlRequests) ==>
        var sent := controlRequests[|controlRequests| - 1];
        |controlRequests| == |old(controlRequests)| + 1 && sent.msgid == MSG_W_BRIGHTNESS &&
        |sent.data| == 1 && sent.data[0] <= BRIGHTNESS_MAX && ScaleBrightness(sent.data[0]) <= wants.brightness
      ensures wants == old(wants) && displayOn == old(displayOn)
      ensures Calibration() == old(Calibration()) && calibrationBuffer == old(calibrationBuffer)
      ensures imuStreamState == old(imuStreamState) && last == old(last) && sensorRequests == old(sensorRequests)
    {
      if wants.brightness > 100 {
        return;
      }
      if wants.brightness == state.brightness {
        return;
      }
      var raw := UnscaleBrightnessAsWritten(wants.brightness);
      var brightness := ScaleBrightness(raw);
      if brightness == state.brightness {
        return;
      }
      WrittenLevelNotAbove(wants.brightness);
      controlRequests := controlRequests + [Request(MSG_W_BRIGHTNESS, [raw])];
      if !sendOk {
        return;
      }
      state := state.(brightness := brightness);
    }

    /**
     * `adjust_display_mode`: only a wanted 2D or 3D mode that differs from
     * the current one is written, and the state follows only a successful
     * write.
     */
    method AdjustDisplayMode(sendOk: bool)
      modifies this
      ensures var m := old(wants.displayMode);
        if (m != DISPLAY_MODE_2D && m != DISPLAY_MODE_3D) || m == old(state.displayMode)
        then controlRequests == old(controlRequests) && state == old(state)
        else controlRequests == old(controlRequests) + [Request(MSG_W_DISP_MODE, [m])] &&
             state == (if sendOk then old(state).(displayMode := m) else old(state))
      ensures wants == old(wants) && displayOn == old(displayOn)
      ensures Calibration() == old(Calibration()) && calibrationBuffer == old(calibrationBuffer)
      ensures imuStreamState == old(imuStreamState) && last == old(last) && sensorRequests == old(sensorRequests)
    {
      if wants.displayMode != DISPLAY_MODE_2D && wants.displayMode != DISPLAY_MODE_3D {
        return;
      }
      if wants.displayMode == state.displayMode {
        return;
      }
      var mode := wants.displayMode;
      controlRequests := controlRequests + [Request(MSG_W_DISP_MODE, [mode])];
      if !sendOk {
        return;
      }
      state := state.(displayMode := mode);
    }
  }

  /**
   * What a button press does to (state, wants, display on): the display
   * toggle takes the value as the display state, brightness keys set the
   * scaled value as current and wanted, mode up from 2D wants 3D, mode down
   * from 3D wants 2D; every other button and state leaves all three alone.
   */
  function ButtonEffect(virt: Byte, value: Byte, state: Setting, wants: Setting, displayOn: bool)
    : (r: (Setting, Setting, bool))
    ensures virt == BUTTON_VIRT_DISPLAY_TOGGLE ==> r == (state, wants, value != 0)
    ensures virt in {BUTTON_VIRT_BRIGHTNESS_UP, BUTTON_VIRT_BRIGHTNESS_DOWN} ==>
      r.0.brightness == r.1.brightness == ScaleBrightness(value) && r.0.displayMode == state.displayMode &&
      r.1.displayMode == wants.displayMode && r.2 == displayOn
    ensures virt == BUTTON_VIRT_MODE_UP ==>
      r.0 == state && r.2 == displayOn &&
      r.1 == (if state.displayMode == DISPLAY_MODE_2D then wants.(displayMode := DISPLAY_MODE_3D) else wants)
    ensures virt == BUTTON_VIRT_MODE_DOWN ==>
      r.0 == state && r.2 == displayOn &&
      r.1 == (if state.displayMode == DISPLAY_MODE_3D then wants.(displayMode := DISPLAY_MODE_2D) else wants)
    ensures virt !in {BUTTON_VIRT_DISPLAY_TOGGLE, BUTTON_VIRT_BRIGHTNESS_UP, BUTTON_VIRT_BRIGHTNESS_DOWN,
                      BUTTON_VIRT_MODE_UP, BUTTON_VIRT_MODE_DOWN} ==>
      r == (state, wants, displayOn)
  {
    if virt == BUTTON_VIRT_DISPLAY_TOGGLE then (state, wants, value != 0)
    else if virt == BUTTON_VIRT_BRIGHTNESS_UP || virt == BUTTON_VIRT_BRIGHTNESS_DOWN then
      (state.(brightness := ScaleBrightness(value)), wants.(brightness := ScaleBrightness(value)), displayOn)
    else if virt == BUTTON_VIRT_MODE_UP then
      (state, if state.displayMode == DISPLAY_MODE_2D then wants.(displayMode := DISPLAY_MODE_3D) else wants,
       displayOn)
    else if virt == BUTTON_VIRT_MODE_DOWN then
      (state, if state.displayMode == DISPLAY_MODE_3D then wants.(displayMode := DISPLAY_MODE_2D) else wants,
       displayOn)
    else (state, wants, displayOn)
  }

  /** Mode buttons only ever move the wanted mode between 2D and 3D, and never touch the current mode. */
  lemma ModeButtonsToggle(virt: Byte, value: Byte, state: Setting, wants: Setting, displayOn: bool)
    requires virt == BUTTON_VIRT_MODE_UP || virt == BUTTON_VIRT_MODE_DOWN
    ensures var r := ButtonEffect(virt, value, state, wants, displayOn);
      r.0 == state && (r.1 == wants || r.1.displayMode in {DISPLAY_MODE_2D, DISPLAY_MODE_3D}) &&
      (r.1 != wants ==> r.1.displayMode != state.displayMode)
  {
  }
}
