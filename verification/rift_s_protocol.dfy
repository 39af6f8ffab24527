/**
 * Rift S report parsing: the 64-byte HMD IMU report, which the driver takes
 * as a plain copy of its packed struct, and the controller report, whose
 * data section is a run of variable-length info blocks followed by leftover
 * bytes.
 */
module RiftSProtocol {
  import opened Bytes

  const HMD_REPORT_ID: Byte := 0x65
  const HMD_REPORT_SIZE: nat := 64
  const CONTROLLER_REPORT_ID: Byte := 0x67
  const CONTROLLER_REPORT_MIN_SIZE: nat := 62

  /** The controller report holds at most eight info blocks and 48 extra bytes. */
  const MAX_INFO_BLOCKS: nat := 8
  const MAX_EXTRA_BYTES: nat := 48

  const CTRL_MASK08: Byte := 0x08
  const CTRL_BUTTONS: Byte := 0x0C
  const CTRL_FINGERS: Byte := 0x0D
  const CTRL_MASK0E: Byte := 0x0E
  const CTRL_TRIGGRIP: Byte := 0x1B
  const CTRL_JOYSTICK: Byte := 0x22
  const CTRL_CAPSENSE: Byte := 0x27
  const CTRL_IMU: Byte := 0x91

  // -----------------------------------------------------------------------
  // rift_s_parse_hmd_report
  // -----------------------------------------------------------------------

  datatype HmdImuSample = HmdImuSample(marker: Byte, accel: Vec3i, gyro: Vec3i, temperature: int)

  datatype HmdReport = HmdReport(id: Byte, unknownConst1: nat, timestamp: nat,
                                 samples: seq<HmdImuSample>, marker: Byte, unknown2: Byte,
                                 frameTimestamp: nat, unknownZero1: int, frameId: int, unknownZero2: int)

  /** An `int16_t` field of the packed struct. */
  function I16(s: seq<Byte>, i: nat): (r: int)
    requires i + 2 <= |s|
    ensures -0x8000 <= r < 0x8000
  {
    ToInt16(U16(s, i))
  }

  /** A 15-byte `rift_s_hmd_imu_sample_t` at `i`. */
  function HmdSampleAt(s: seq<Byte>, i: nat): HmdImuSample
    requires i + 15 <= |s|
  {
    HmdImuSample(s[i], Vec3i(I16(s, i + 1), I16(s, i + 3), I16(s, i + 5)),
                 Vec3i(I16(s, i + 7), I16(s, i + 9), I16(s, i + 11)), I16(s, i + 13))
  }

  /**
   * `rift_s_parse_hmd_report`: report id 0x65 and exactly 64 bytes, which
   * are then the packed `rift_s_hmd_report_t`.  The id is looked at first,
   * so the buffer must hold at least one byte.
   */
  function ParseHmdReport(buf: seq<Byte>): (r: Option<HmdReport>)
    requires |buf| >= 1
    ensures r.Some? <==> buf[0] == HMD_REPORT_ID && |buf| == HMD_REPORT_SIZE
    ensures r.Some? ==> r.value.id == HMD_REPORT_ID && |r.value.samples| == 3
  {
    if buf[0] != HMD_REPORT_ID || |buf| != HMD_REPORT_SIZE then None
    else Some(HmdReport(buf[0], U16(buf, 1), U32(buf, 3),
                        [HmdSampleAt(buf, 7), HmdSampleAt(buf, 22), HmdSampleAt(buf, 37)],
                        buf[52], buf[53], U32(buf, 54), I16(buf, 58), I16(buf, 60), I16(buf, 62)))
  }

  /** The bytes of an `int16_t` in the packed struct. */
  function I16Bytes(v: int): (r: seq<Byte>)
    requires -0x8000 <= v < 0x8000
    ensures |r| == 2
  {
    Le16(v % TWO_16)
  }

  function Vec3Bytes(v: Vec3i): (r: seq<Byte>)
    requires -0x8000 <= v.x < 0x8000 && -0x8000 <= v.y < 0x8000 && -0x8000 <= v.z < 0x8000
    ensures |r| == 6
  {
    I16Bytes(v.x) + I16Bytes(v.y) + I16Bytes(v.z)
  }

  predicate HmdSampleFits(x: HmdImuSample)
  {
    -0x8000 <= x.accel.x < 0x8000 && -0x8000 <= x.accel.y < 0x8000 && -0x8000 <= x.accel.z < 0x8000 &&
    -0x8000 <= x.gyro.x < 0x8000 && -0x8000 <= x.gyro.y < 0x8000 && -0x8000 <= x.gyro.z < 0x8000 &&
    -0x8000 <= x.temperature < 0x8000
  }

  function HmdSampleBytes(x: HmdImuSample): (r: seq<Byte>)
    requires HmdSampleFits(x)
    ensures |r| == 15
  {
    [x.marker] + Vec3Bytes(x.accel) + Vec3Bytes(x.gyro) + I16Bytes(x.temperature)
  }

  predicate HmdReportFits(r: HmdReport)
  {
    r.unknownConst1 < TWO_16 && r.timestamp < TWO_32 && |r.samples| == 3 &&
    HmdSampleFits(r.samples[0]) && HmdSampleFits(r.samples[1]) && HmdSampleFits(r.samples[2]) &&
    r.frameTimestamp < TWO_32 && -0x8000 <= r.unknownZero1 < 0x8000 &&
    -0x8000 <= r.frameId < 0x8000 && -0x8000 <= r.unknownZero2 < 0x8000
  }

  /** The packed `rift_s_hmd_report_t` laid out as bytes, little-endian throughout. */
  function HmdReportBytes(r: HmdReport): (b: seq<Byte>)
    requires HmdReportFits(r)
    ensures |b| == HMD_REPORT_SIZE
  {
    [r.id] + Le16(r.unknownConst1) + Le32(r.timestamp) +
    HmdSampleBytes(r.samples[0]) + HmdSampleBytes(r.samples[1]) + HmdSampleBytes(r.samples[2]) +
    ([r.marker, r.unknown2] + Le32(r.frameTimestamp) +
     I16Bytes(r.unknownZero1) + I16Bytes(r.frameId) + I16Bytes(r.unknownZero2))
  }

  /** An `int16_t` read back out of its two bytes gives those bytes again. */
  lemma I16Lossless(s: seq<Byte>, i: nat)
    requires i + 2 <= |s|
    ensures I16Bytes(I16(s, i)) == s[i..i + 2]
  {
    var u := U16(s, i);
    Arith.DivModUnique(ToInt16(u), TWO_16, if u < 0x8000 then 0 else -1, u);
  }

  lemma U32Lossless(s: seq<Byte>, i: nat)
    requires i + 4 <= |s|
    ensures Le32(U32(s, i)) == s[i..i + 4]
  {
    assert Le16(U16(s, i)) == s[i..i + 2] && Le16(U16(s, i + 2)) == s[i + 2..i + 4];
  }

  lemma HmdSampleLossless(s: seq<Byte>, i: nat)
    requires i + 15 <= |s|
    ensures HmdSampleFits(HmdSampleAt(s, i)) && HmdSampleBytes(HmdSampleAt(s, i)) == s[i..i + 15]
  {
    var x := HmdSampleAt(s, i);
    I16Lossless(s, i + 1);
    I16Lossless(s, i + 3);
    I16Lossless(s, i + 5);
    I16Lossless(s, i + 7);
    I16Lossless(s, i + 9);
    I16Lossless(s, i + 11);
    I16Lossless(s, i + 13);
    assert Vec3Bytes(x.accel) == s[i + 1..i + 7];
    assert Vec3Bytes(x.gyro) == s[i + 7..i + 13];
  }

  /** The seven header bytes and the twelve trailer bytes come back unchanged. */
  lemma HmdEndsLossless(buf: seq<Byte>)
    requires |buf| == HMD_REPORT_SIZE
    ensures [buf[0]] + Le16(U16(buf, 1)) + Le32(U32(buf, 3)) == buf[..7]
    ensures [buf[52], buf[53]] + Le32(U32(buf, 54)) + I16Bytes(I16(buf, 58)) + I16Bytes(I16(buf, 60)) +
            I16Bytes(I16(buf, 62)) == buf[52..]
  {
    U32Lossless(buf, 3);
    U32Lossless(buf, 54);
    I16Lossless(buf, 58);
    I16Lossless(buf, 60);
    I16Lossless(buf, 62);
    assert Le16(U16(buf, 1)) == buf[1..3];
  }

  /**
   * The parse is a lossless copy: every byte of an accepted report lands in
   * exactly one field, and laying the fields out again gives the report back.
   */
  lemma HmdReportLossless(buf: seq<Byte>)
    requires |buf| >= 1 && ParseHmdReport(buf).Some?
    ensures HmdReportFits(ParseHmdReport(buf).value)
    ensures HmdReportBytes(ParseHmdReport(buf).value) == buf
  {
    var r := ParseHmdReport(buf).value;
    assert r.samples == [HmdSampleAt(buf, 7), HmdSampleAt(buf, 22), HmdSampleAt(buf, 37)];
    HmdSampleLossless(buf, 7);
    HmdSampleLossless(buf, 22);
    HmdSampleLossless(buf, 37);
    HmdEndsLossless(buf);
    Pieces(buf, 7, 22, 37, 52);
  }

  /** A sequence is the concatenation of its pieces between four cut points. */
  lemma Pieces<T>(s: seq<T>, a: nat, b: nat, c: nat, d: nat)
    requires a <= b <= c <= d <= |s|
    ensures s == s[..a] + s[a..b] + s[b..c] + s[c..d] + s[d..]
  {
  }

  // -----------------------------------------------------------------------
  // rift_s_parse_controller_report
  // -----------------------------------------------------------------------

  /**
   * An info block as it sits in the report, its id first: `raw` is what
   * `memcpy` copies into the info union.
   */
  datatype ControllerReport = ControllerReport(id: Byte, deviceId: nat, dataLen: Byte, flags: Byte,
                                               log: seq<Byte>, info: seq<seq<Byte>>, extraBytes: seq<Byte>)

  /** The size of the block with this id, or 0 for an id the parser does not know. */
  function BlockSize(id: Byte): (r: nat)
    ensures r in {0, 2, 4, 5, 19}
    ensures id in {CTRL_MASK08, CTRL_BUTTONS, CTRL_FINGERS, CTRL_MASK0E} <==> r == 2
    ensures id == CTRL_TRIGGRIP <==> r == 4
    ensures id in {CTRL_JOYSTICK, CTRL_CAPSENSE} <==> r == 5
    ensures id == CTRL_IMU <==> r == 19
  {
    if id == CTRL_MASK08 || id == CTRL_BUTTONS || id == CTRL_FINGERS || id == CTRL_MASK0E then 2
    else if id == CTRL_TRIGGRIP then 4
    else if id == CTRL_JOYSTICK || id == CTRL_CAPSENSE then 5
    else if id == CTRL_IMU then 19
    else 0
  }

  /** A well-formed block: a known id followed by exactly that id's payload. */
  predicate IsBlock(b: seq<Byte>)
  {
    |b| >= 1 && BlockSize(b[0]) == |b|
  }

  /**
   * The block walk: while at least two bytes remain and there is room for
   * another block, take one if its id is known and it is complete.
   */
  function Blocks(s: seq<Byte>, room: nat): (r: seq<seq<Byte>>)
    ensures |r| <= room
    ensures forall k :: 0 <= k < |r| ==> IsBlock(r[k])
    decreases room
  {
    if |s| <= 1 || room == 0 then []
    else
      var size := BlockSize(s[0]);
      if size == 0 || |s| < size then [] else [s[..size]] + Blocks(s[size..], room - 1)
  }

  function Flatten(bs: seq<seq<Byte>>): (r: seq<Byte>)
  {
    if |bs| == 0 then [] else Flatten(bs[..|bs| - 1]) + bs[|bs| - 1]
  }

  lemma FlattenAppend(bs: seq<seq<Byte>>, b: seq<Byte>)
    ensures Flatten(bs + [b]) == Flatten(bs) + b
  {
    assert (bs + [b])[..|bs|] == bs;
  }

  lemma {:induction false} FlattenPrepend(b: seq<Byte>, bs: seq<seq<Byte>>)
    ensures Flatten([b] + bs) == b + Flatten(bs)
    decreases |bs|
  {
    if |bs| == 0 {
      assert [b] + bs == [] + [b];
    } else {
      var last := bs[|bs| - 1];
      assert [b] + bs == ([b] + bs[..|bs| - 1]) + [last];
      FlattenAppend([b] + bs[..|bs| - 1], last);
      FlattenPrepend(b, bs[..|bs| - 1]);
      FlattenAppend(bs[..|bs| - 1], last);
      assert bs[..|bs| - 1] + [last] == bs;
    }
  }

  /** The blocks are consecutive pieces of the data, from its start. */
  lemma {:induction false} BlocksArePrefix(s: seq<Byte>, room: nat)
    ensures |Flatten(Blocks(s, room))| <= |s|
    ensures Flatten(Blocks(s, room)) == s[..|Flatten(Blocks(s, room))|]
    decreases room
  {
    if |s| <= 1 || room == 0 {
    } else {
      var size := BlockSize(s[0]);
      if size != 0 && |s| >= size {
        var rest := Blocks(s[size..], room - 1);
        assert Blocks(s, room) == [s[..size]] + rest;
        BlocksArePrefix(s[size..], room - 1);
        FlattenPrepend(s[..size], rest);
        SliceJoin(s, size, |Flatten(rest)|);
      }
    }
  }

  /**
   * The walk ends only for a reason: the eight slots are full, at most one
   * byte is left, or the next id is unknown or its block is cut short.
   */
  lemma {:induction false} BlocksStop(s: seq<Byte>, room: nat)
    ensures var n := |Flatten(Blocks(s, room))|;
      n <= |s| &&
      (|Blocks(s, room)| == room || |s| - n <= 1 || BlockSize(s[n]) == 0 || |s| - n < BlockSize(s[n]))
    decreases room
  {
    BlocksArePrefix(s, room);
    if |s| <= 1 || room == 0 {
    } else {
      var size := BlockSize(s[0]);
      if size != 0 && |s| >= size {
        BlocksStop(s[size..], room - 1);
        FlattenPrepend(s[..size], Blocks(s[size..], room - 1));
      }
    }
  }

  lemma PrefixExtend(s: seq<Byte>, i: nat, j: nat)
    requires i <= j <= |s|
    ensures s[..i] + s[i..j] == s[..j]
  {
  }

  /** One step of the walk, from a block boundary `pos`. */
  lemma BlocksStep(s: seq<Byte>, pos: nat, room: nat)
    requires pos < |s| && room > 0 && |s| - pos > 1
    requires BlockSize(s[pos]) != 0 && |s| - pos >= BlockSize(s[pos])
    ensures var size := BlockSize(s[pos]);
      Blocks(s[pos..], room) == [s[pos..pos + size]] + Blocks(s[pos + size..], room - 1)
  {
    var size := BlockSize(s[pos]);
    assert s[pos..][size..] == s[pos + size..];
    assert s[pos..][..size] == s[pos..pos + size];
  }

  /** The length field after clamping: the payload never runs past the report. */
  function ClampedDataLen(buf: seq<Byte>): (r: Byte)
    requires |buf| >= CONTROLLER_REPORT_MIN_SIZE
    ensures r <= buf[9] && 10 + r <= |buf|
    ensures r == buf[9] || r == |buf| - 10
  {
    if buf[9] < 4 || buf[9] <= |buf| - 10 then buf[9] else |buf| - 10
  }

  /** The bytes after the flags and log: where the info blocks start. */
  function BlockData(buf: seq<Byte>): (r: seq<Byte>)
    requires |buf| >= CONTROLLER_REPORT_MIN_SIZE && buf[9] >= 4
    ensures |r| == ClampedDataLen(buf) - 4
  {
    buf[14..10 + ClampedDataLen(buf)]
  }

  /**
   * What the source copies into the 48-byte `extra_bytes`, as written: all
   * bytes the block walk left, with nothing but a debug `assert` bounding them.
   */
  function LeftoverAsWritten(buf: seq<Byte>): (r: nat)
    requires |buf| >= CONTROLLER_REPORT_MIN_SIZE
    ensures buf[9] < 4 ==> r == 0
  {
    if buf[9] < 4 then 0
    else
      BlocksArePrefix(BlockData(buf), MAX_INFO_BLOCKS);
      |BlockData(buf)| - |Flatten(Blocks(BlockData(buf), MAX_INFO_BLOCKS))|
  }

  /**
   * A 64-byte report claiming 54 data bytes whose first block id is unknown
   * leaves 50 bytes for the 48-byte array.
   */
  lemma LeftoverOverflows()
    ensures var buf := [CONTROLLER_REPORT_ID] + Zeros(8) + [54] + Zeros(54);
      |buf| == 64 && LeftoverAsWritten(buf) == 50 && LeftoverAsWritten(buf) > MAX_EXTRA_BYTES
  {
    var buf := [CONTROLLER_REPORT_ID] + Zeros(8) + [54] + Zeros(54);
    assert buf[9] == 54;
    var data := BlockData(buf);
    assert data[0] == 0;
    assert Blocks(data, MAX_INFO_BLOCKS) == [];
  }

  /**
   * `rift_s_parse_controller_report`, with the leftover bounded by the
   * 48-byte array: id 0x67 and at least 62 bytes, the device id from bytes 1
   * to 8, the data length from byte 9.  A length below 4 means no flags, log,
   * blocks or extra bytes.  Otherwise the length is clamped to the report,
   * the flags and three log bytes come first, the block walk takes up to
   * eight blocks, and what it leaves are the extra bytes; a report whose
   * leftover does not fit is refused.  The bound is the array's size, 48:
   * the source's debug assertion `avail < 48` is stricter by one, but a copy
   * of exactly 48 bytes stays inside the array, and the assertion is not
   * part of release builds.
   */
  method ParseControllerReport(buf: seq<Byte>) returns (r: Option<ControllerReport>)
    requires |buf| >= 1
    ensures r.Some? <==> buf[0] == CONTROLLER_REPORT_ID && |buf| >= CONTROLLER_REPORT_MIN_SIZE &&
                         LeftoverAsWritten(buf) <= MAX_EXTRA_BYTES
    ensures r.Some? ==> r.value.id == CONTROLLER_REPORT_ID && r.value.deviceId == U64(buf, 1) &&
                        r.value.dataLen == ClampedDataLen(buf) && |r.value.log| == 3 &&
                        |r.value.info| <= MAX_INFO_BLOCKS && |r.value.extraBytes| <= MAX_EXTRA_BYTES
    ensures r.Some? && buf[9] < 4 ==>
      r.value.flags == 0 && r.value.log == [0, 0, 0] && r.value.info == [] && r.value.extraBytes == []
    ensures r.Some? && buf[9] >= 4 ==>
      r.value.flags == buf[10] && r.value.log == buf[11..14] &&
      r.value.info == Blocks(BlockData(buf), MAX_INFO_BLOCKS) &&
      Flatten(r.value.info) + r.value.extraBytes == BlockData(buf)
  {
    if buf[0] != CONTROLLER_REPORT_ID {
      return None;
    }
    if |buf| < CONTROLLER_REPORT_MIN_SIZE {
      return None;
    }
    var deviceId := U64(buf, 1);
    var dataLen: Byte := buf[9];
    if dataLen < 4 {
      return Some(ControllerReport(CONTROLLER_REPORT_ID, deviceId, dataLen, 0, [0, 0, 0], [], []));
    }
    if dataLen > |buf| - 10 {
      dataLen := |buf| - 10;
    }
    var data := buf[14..10 + dataLen];
    assert data == BlockData(buf);
    var info, pos := WalkBlocks(data);
    BlocksArePrefix(data, MAX_INFO_BLOCKS);
    assert data[..pos] + data[pos..] == data;
    if |data| - pos > MAX_EXTRA_BYTES {
      return None;
    }
    r := Some(ControllerReport(CONTROLLER_REPORT_ID, deviceId, dataLen, buf[10], buf[11..14], info, data[pos..]));
  }

  /** The walk has taken `info`, which covers the data up to `pos`, and the rest of it is still to come. */
  predicate WalkedTo(data: seq<Byte>, info: seq<seq<Byte>>, pos: nat)
  {
    pos <= |data| && |info| <= MAX_INFO_BLOCKS && Flatten(info) == data[..pos] &&
    info + Blocks(data[pos..], MAX_INFO_BLOCKS - |info|) == Blocks(data, MAX_INFO_BLOCKS)
  }

  lemma WalkStep(data: seq<Byte>, info: seq<seq<Byte>>, pos: nat)
    requires WalkedTo(data, info, pos) && |info| < MAX_INFO_BLOCKS && |data| - pos > 1
    requires BlockSize(data[pos]) != 0 && |data| - pos >= BlockSize(data[pos])
    ensures var size := BlockSize(data[pos]);
      WalkedTo(data, info + [data[pos..pos + size]], pos + size)
  {
    var size := BlockSize(data[pos]);
    var room := MAX_INFO_BLOCKS - |info|;
    var block := data[pos..pos + size];
    var rest := Blocks(data[pos + size..], room - 1);
    BlocksStep(data, pos, room);
    Assoc(info, [block], rest);
    assert (info + [block]) + rest == Blocks(data, MAX_INFO_BLOCKS);
    FlattenAppend(info, block);
    PrefixExtend(data, pos, pos + size);
    assert Flatten(info + [block]) == data[..pos + size];
  }

  lemma SliceJoin<T>(s: seq<T>, i: nat, n: nat)
    requires i + n <= |s|
    ensures s[..i] + s[i..][..n] == s[..i + n]
  {
  }

  lemma Assoc<T>(a: seq<T>, b: seq<T>, c: seq<T>)
    ensures (a + b) + c == a + (b + c)
  {
  }

  /**
   * The `while` loop of `rift_s_parse_controller_report`: `avail` counts
   * down from the data length as each complete block of a known id is taken.
   */
  method WalkBlocks(data: seq<Byte>) returns (info: seq<seq<Byte>>, pos: nat)
    ensures info == Blocks(data, MAX_INFO_BLOCKS)
    ensures pos <= |data| && Flatten(info) == data[..pos]
  {
    var avail: nat := |data|;
    pos := 0;
    info := [];
    while avail > 1 && |info| < MAX_INFO_BLOCKS
      invariant pos + avail == |data| && WalkedTo(data, info, pos)
      decreases avail
    {
      var size := BlockSize(data[pos]);
      if size == 0 || avail < size {
        break;
      }
      WalkStep(data, info, pos);
      info := info + [data[pos..pos + size]];
      pos := pos + size;
      avail := avail - size;
    }
    WalkDone(data, info, pos);
  }

  /** Where the walk stops, the blocks it has taken are all there are. */
  lemma WalkDone(data: seq<Byte>, info: seq<seq<Byte>>, pos: nat)
    requires WalkedTo(data, info, pos)
    requires |data| - pos <= 1 || |info| == MAX_INFO_BLOCKS ||
             BlockSize(data[pos]) == 0 || |data| - pos < BlockSize(data[pos])
    ensures info == Blocks(data, MAX_INFO_BLOCKS) && Flatten(info) == data[..pos]
  {
    assert Blocks(data[pos..], MAX_INFO_BLOCKS - |info|) == [];
    assert info + [] == info;
  }

  /** The blocks and the extra bytes together are exactly the data after the flags and log. */
  lemma ReportAccountsForData(buf: seq<Byte>)
    requires |buf| >= CONTROLLER_REPORT_MIN_SIZE && buf[9] >= 4
    ensures |Flatten(Blocks(BlockData(buf), MAX_INFO_BLOCKS))| + LeftoverAsWritten(buf) == ClampedDataLen(buf) - 4
  {
    BlocksArePrefix(BlockData(buf), MAX_INFO_BLOCKS);
  }
}
