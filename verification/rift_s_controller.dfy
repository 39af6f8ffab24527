/**
 * Rift S Touch controller tracking: the state each controller report
 * updates (buttons, axes, capacitive sensors, raw IMU sample, the extra
 * bytes and the controller's text log), the table of up to two active
 * controllers, and the device-type records that say which is left and
 * which is right.
 */
module RiftSController {
  import opened Bytes
  import opened RiftSProtocol
  import opened RiftSRadio

  const MAX_LOG_SIZE: nat := 1024
  const MAX_CONTROLLERS: nat := 2
  const DEVICE_TYPE_UNKNOWN: nat := 0
  const DEVICE_LEFT_CONTROLLER: nat := 0x1300_1101
  const DEVICE_RIGHT_CONTROLLER: nat := 0x1301_1101

  /** The configuration request of `get_controller_configuration`. */
  const CONFIG_REQUEST: seq<Byte> := [0x32, 0x20, 0xE8, 0x03, 0x00, 0x00, 0x00, 0x00, 0x00, 0x00]

  // -----------------------------------------------------------------------
  // Info block fields
  // -----------------------------------------------------------------------

  /** The 12-bit trigger: the low nibble of the second value byte above the first. */
  function Trigger(b: seq<Byte>): (r: nat)
    requires |b| >= 4
    ensures r < 0x1000
  {
    var lo: nat, hi: nat := b[1], b[2];
    (hi % 16) * 256 + lo
  }

  /** The 12-bit grip: the high nibble of the second value byte below the third. */
  function Grip(b: seq<Byte>): (r: nat)
    requires |b| >= 4
    ensures r < 0x1000
  {
    var mid: nat, hi: nat := b[2], b[3];
    mid / 16 + hi * 16
  }

  /** A trigger/grip block carrying two 12-bit values, packed as the controller sends them. */
  function TrigGripBlock(trigger: nat, grip: nat): (b: seq<Byte>)
    requires trigger < 0x1000 && grip < 0x1000
    ensures |b| == 4 && b[0] == CTRL_TRIGGRIP
  {
    [CTRL_TRIGGRIP, trigger % 256, trigger / 256 + (grip % 16) * 16, grip / 16]
  }

  /** Decoding a packed pair gives back the trigger and the grip. */
  lemma TrigGripRoundTrip(trigger: nat, grip: nat)
    requires trigger < 0x1000 && grip < 0x1000
    ensures Trigger(TrigGripBlock(trigger, grip)) == trigger && Grip(TrigGripBlock(trigger, grip)) == grip
  {
    var b := TrigGripBlock(trigger, grip);
    var mid := trigger / 256 + (grip % 16) * 16;
    Arith.DivModUnique(mid, 16, grip % 16, trigger / 256);
  }

  /** No bit of a trigger/grip block is lost: repacking the two values gives the block back. */
  lemma TrigGripLossless(b: seq<Byte>)
    requires |b| == 4 && b[0] == CTRL_TRIGGRIP
    ensures TrigGripBlock(Trigger(b), Grip(b)) == b
  {
    var t, g := Trigger(b), Grip(b);
    Arith.DivModUnique(t, 256, b[2] % 16, b[1]);
    Arith.DivModUnique(g, 16, b[3], b[2] / 16);
    assert t / 256 + (g % 16) * 16 == b[2];
  }

  /** The joystick axes: the low and high halves of the block's 32-bit value, as `int16_t`. */
  function JoystickX(b: seq<Byte>): (r: int)
    requires |b| >= 5
    ensures -0x8000 <= r < 0x8000
  {
    I16(b, 1)
  }

  function JoystickY(b: seq<Byte>): (r: int)
    requires |b| >= 5
    ensures -0x8000 <= r < 0x8000
  {
    I16(b, 3)
  }

  /** The two axes are exactly the two halves of the 32-bit joystick value. */
  lemma JoystickSplit(b: seq<Byte>)
    requires |b| >= 5
    ensures U32(b, 1) == JoystickX(b) % TWO_16 + TWO_16 * (JoystickY(b) % TWO_16)
  {
    Int16Residue(U16(b, 1));
    Int16Residue(U16(b, 3));
  }

  lemma Int16Residue(v: nat)
    requires v < TWO_16
    ensures ToInt16(v) % TWO_16 == v
  {
    if v >= 0x8000 {
      Arith.DivModUnique(v - TWO_16, TWO_16, -1, v);
    }
  }

  /**
   * The tracked inputs of `rift_s_controller_state`: mask bytes, trigger and
   * grip, joystick, capacitive sensors, and the raw IMU sample with its
   * timestamp bookkeeping.
   */
  datatype Inputs = Inputs(mask08: Byte, buttons: Byte, fingers: Byte, mask0e: Byte,
                           trigger: nat, grip: nat, joystickX: int, joystickY: int,
                           capsenseAX: Byte, capsenseBY: Byte, capsenseJoystick: Byte, capsenseTrigger: Byte,
                           imuTimeValid: bool, imuTimestamp: nat, imuUnknownVarying2: nat,
                           rawAccel: Vec3i, rawGyro: Vec3i)

  /** The state `memset` leaves in a newly added controller. */
  const ZERO_INPUTS := Inputs(0, 0, 0, 0, 0, 0, 0, 0, 0, 0, 0, 0, false, 0, 0, Vec3i(0, 0, 0), Vec3i(0, 0, 0))

  /** A block whose id is known carries all of that id's bytes. */
  predicate Readable(b: seq<Byte>)
  {
    |b| >= 1 && |b| >= BlockSize(b[0])
  }

  predicate Known(b: seq<Byte>)
  {
    Readable(b) && BlockSize(b[0]) != 0
  }

  /** One case of the `switch` in `update_controller_state`. */
  function ApplyBlock(s: Inputs, b: seq<Byte>): (r: Inputs)
    requires Known(b)
    ensures b[0] == CTRL_TRIGGRIP ==> r.trigger == Trigger(b) && r.grip == Grip(b)
    ensures b[0] == CTRL_IMU ==> r.imuTimeValid && r.imuTimestamp == U32(b, 1)
  {
    var id := b[0];
    if id == CTRL_MASK08 then s.(mask08 := b[1])
    else if id == CTRL_BUTTONS then s.(buttons := b[1])
    else if id == CTRL_FINGERS then s.(fingers := b[1])
    else if id == CTRL_MASK0E then s.(mask0e := b[1])
    else if id == CTRL_TRIGGRIP then s.(trigger := Trigger(b), grip := Grip(b))
    else if id == CTRL_JOYSTICK then s.(joystickX := JoystickX(b), joystickY := JoystickY(b))
    else if id == CTRL_CAPSENSE then
      s.(capsenseAX := b[1], capsenseBY := b[2], capsenseJoystick := b[3], capsenseTrigger := b[4])
    else
      s.(imuUnknownVarying2 := U16(b, 5),
         rawAccel := Vec3i(I16(b, 7), I16(b, 9), I16(b, 11)),
         rawGyro := Vec3i(I16(b, 13), I16(b, 15), I16(b, 17)),
         imuTimestamp := U32(b, 1), imuTimeValid := true)
  }

  /** A later block with the same id overrides an earlier one. */
  lemma LaterBlockWins(s: Inputs, a: seq<Byte>, b: seq<Byte>)
    requires Known(a) && Known(b) && a[0] == b[0]
    ensures ApplyBlock(ApplyBlock(s, a), b) == ApplyBlock(s, b)
  {
  }

  predicate AllKnown(bs: seq<seq<Byte>>)
  {
    forall k :: 0 <= k < |bs| ==> Known(bs[k])
  }

  function ApplyBlocks(s: Inputs, bs: seq<seq<Byte>>): Inputs
    requires AllKnown(bs)
  {
    if |bs| == 0 then s else ApplyBlock(ApplyBlocks(s, bs[..|bs| - 1]), bs[|bs| - 1])
  }

  /** Blocks the parser accepts are all known and readable. */
  lemma ParsedBlocksKnown(bs: seq<seq<Byte>>)
    requires forall k :: 0 <= k < |bs| ==> IsBlock(bs[k])
    ensures AllKnown(bs)
  {
  }

  // -----------------------------------------------------------------------
  // The controller's text log
  // -----------------------------------------------------------------------

  /** The line being collected, and the lines printed so far. */
  datatype LogState = LogState(line: seq<Byte>, printed: seq<seq<Byte>>)

  /** A line the 1024-byte buffer can hold with its terminator, with no NUL inside. */
  predicate LineOk(line: seq<Byte>)
  {
    |line| < MAX_LOG_SIZE && forall k :: 0 <= k < |line| ==> line[k] != 0
  }

  /** One log character: NUL ends a non-empty line; another character is added, printing a full line first. */
  function FeedChar(s: LogState, c: Byte): (r: LogState)
  {
    if c != 0 then
      if |s.line| == MAX_LOG_SIZE - 1 then LogState([c], s.printed + [s.line])
      else LogState(s.line + [c], s.printed)
    else if |s.line| > 0 then LogState([], s.printed + [s.line])
    else s
  }

  function Feed(s: LogState, cs: seq<Byte>): LogState
  {
    if |cs| == 0 then s else FeedChar(Feed(s, cs[..|cs| - 1]), cs[|cs| - 1])
  }

  /** The characters of `cs` that are not NUL, in order. */
  function NonZero(cs: seq<Byte>): (r: seq<Byte>)
    ensures |r| <= |cs|
  {
    if |cs| == 0 then []
    else NonZero(cs[..|cs| - 1]) + (if cs[|cs| - 1] != 0 then [cs[|cs| - 1]] else [])
  }

  /** What a run of log characters does to a good state: nothing is lost, nothing is reordered. */
  predicate FedFrom(s: LogState, r: LogState, cs: seq<Byte>)
  {
    LineOk(r.line) && s.printed <= r.printed &&
    (forall k :: |s.printed| <= k < |r.printed| ==> |r.printed[k]| > 0 && LineOk(r.printed[k])) &&
    Flatten(r.printed[|s.printed|..]) + r.line == s.line + NonZero(cs)
  }

  lemma NonZeroStep(cs: seq<Byte>, c: Byte)
    ensures NonZero(cs + [c]) == NonZero(cs) + (if c != 0 then [c] else [])
  {
    assert (cs + [c])[..|cs|] == cs;
  }

  /** Printing the current line and going on with `rest` keeps the account of characters. */
  lemma PrintLine(s: LogState, r: LogState, cs: seq<Byte>, rest: seq<Byte>, c: Byte)
    requires LineOk(s.line) && FedFrom(s, r, cs) && |r.line| > 0
    requires LineOk(rest) && rest == (if c != 0 then [c] else [])
    ensures FedFrom(s, LogState(rest, r.printed + [r.line]), cs + [c])
  {
    var done := r.printed[|s.printed|..];
    var r2 := LogState(rest, r.printed + [r.line]);
    assert r2.printed[|s.printed|..] == done + [r.line];
    FlattenAppend(done, r.line);
    NonZeroStep(cs, c);
    assert (Flatten(done) + r.line) + rest == (Flatten(done) + r.line + rest);
  }

  lemma FeedCharStep(s: LogState, r: LogState, cs: seq<Byte>, c: Byte)
    requires LineOk(s.line) && FedFrom(s, r, cs)
    ensures FedFrom(s, FeedChar(r, c), cs + [c])
  {
    if c != 0 {
      if |r.line| == MAX_LOG_SIZE - 1 {
        PrintLine(s, r, cs, [c], c);
      } else {
        NonZeroStep(cs, c);
        var done := r.printed[|s.printed|..];
        assert (Flatten(done) + r.line) + [c] == Flatten(done) + (r.line + [c]);
      }
    } else if |r.line| > 0 {
      PrintLine(s, r, cs, [], c);
    } else {
      NonZeroStep(cs, c);
    }
  }

  /**
   * Feeding log characters to a good state keeps the line short enough and
   * free of NULs, only appends printed lines, each non-empty, and the new
   * printed lines followed by the current line are the old line followed by
   * the non-NUL characters.
   */
  lemma {:induction false} FeedKeepsEverything(s: LogState, cs: seq<Byte>)
    requires LineOk(s.line)
    ensures FedFrom(s, Feed(s, cs), cs)
    decreases |cs|
  {
    if |cs| == 0 {
      assert s.printed[|s.printed|..] == [];
    } else {
      var init := cs[..|cs| - 1];
      FeedKeepsEverything(s, init);
      FeedCharStep(s, Feed(s, init), init, cs[|cs| - 1]);
      assert init + [cs[|cs| - 1]] == cs;
    }
  }

  /** `flags & 0x04` and `flags & 0x02`. */
  predicate NewLineFlag(flags: Byte)
  {
    (flags / 4) % 2 == 1
  }

  predicate ParityFlag(flags: Byte)
  {
    (flags / 2) % 2 == 1
  }

  /** A report carries new log characters when the last one started a line or the parity bit toggled. */
  predicate CarriesLog(logFlags: Byte, flags: Byte)
  {
    NewLineFlag(logFlags) || ParityFlag(logFlags) != ParityFlag(flags)
  }

  /** The log step of `update_controller_state`: reset on a new-line flag, then collect if there is news. */
  function LogUpdate(logFlags: Byte, s: LogState, flags: Byte, chars: seq<Byte>): (r: LogState)
    requires LineOk(s.line)
    ensures LineOk(r.line) && s.printed <= r.printed
    ensures !CarriesLog(logFlags, flags) ==> r.printed == s.printed
  {
    var start := if NewLineFlag(flags) then s.(line := []) else s;
    FeedKeepsEverything(start, chars);
    if CarriesLog(logFlags, flags) then Feed(start, chars) else start
  }

  // -----------------------------------------------------------------------
  // rift_s_controller_state
  // -----------------------------------------------------------------------

  class ControllerState {
    const deviceId: nat
    var logFlags: Byte
    var logBytes: nat
    const log: array<Byte>
    /** The lines the driver printed from this controller's log. */
    var logOutput: seq<seq<Byte>>
    var inputs: Inputs
    var extraBytes: seq<Byte>

    predicate Valid()
      reads this, log
    {
      log.Length == MAX_LOG_SIZE && logBytes < MAX_LOG_SIZE && LineOk(log[..logBytes]) && |extraBytes| <= MAX_EXTRA_BYTES
    }

    function Log(): LogState
      reads this, log
      requires logBytes <= log.Length
    {
      LogState(log[..logBytes], logOutput)
    }

    /** A zeroed controller with the given device id, as the handler adds it. */
    constructor (id: nat)
      ensures Valid() && fresh(log)
      ensures deviceId == id && logFlags == 0 && logBytes == 0
      ensures logOutput == [] && inputs == ZERO_INPUTS && extraBytes == []
    {
      deviceId := id;
      logFlags := 0;
      logBytes := 0;
      log := new Byte[MAX_LOG_SIZE](_ => 0);
      logOutput := [];
      inputs := ZERO_INPUTS;
      extraBytes := [];
    }

    /**
     * `update_controller_state`: apply the info blocks in order, stopping
     * with failure at an unknown id (`applied` blocks were applied by then);
     * then take the extra bytes, failing if they do not fit; then update the
     * log.  The extra bytes are cleared first, so a failure leaves none.
     */
    method UpdateState(report: ControllerReport) returns (ok: bool, applied: nat)
      requires Valid() && |report.log| == 3
      requires forall k :: 0 <= k < |report.info| ==> Readable(report.info[k])
      modifies this, log
      ensures Valid()
      ensures applied <= |report.info| && AllKnown(report.info[..applied])
      ensures applied < |report.info| ==> !Known(report.info[applied])
      ensures inputs == ApplyBlocks(old(inputs), report.info[..applied])
      ensures ok <==> applied == |report.info| && |report.extraBytes| <= MAX_EXTRA_BYTES
      ensures !ok ==> extraBytes == [] && logFlags == old(logFlags) && Log() == old(Log())
      ensures ok ==> extraBytes == report.extraBytes && logFlags == report.flags &&
                     Log() == LogUpdate(old(logFlags), old(Log()), report.flags, report.log)
    {
      extraBytes := [];
      applied := 0;
      while applied < |report.info|
        invariant applied <= |report.info| && AllKnown(report.info[..applied])
        invariant inputs == ApplyBlocks(old(inputs), report.info[..applied])
        invariant extraBytes == [] && log[..] == old(log[..])
        invariant logFlags == old(logFlags) && logBytes == old(logBytes) && logOutput == old(logOutput)
      {
        var block := report.info[applied];
        if BlockSize(block[0]) == 0 {
          return false, applied;
        }
        assert report.info[..applied + 1][..applied] == report.info[..applied];
        inputs := ApplyBlock(inputs, block);
        applied := applied + 1;
      }
      if |report.extraBytes| > MAX_EXTRA_BYTES {
        return false, applied;
      }
      extraBytes := report.extraBytes;
      UpdateLog(report.flags, report.log);
      ok := true;
    }

    /** The log part of `update_controller_state`, on the 1024-byte buffer. */
    method UpdateLog(flags: Byte, chars: seq<Byte>)
      requires Valid()
      modifies this, log
      ensures Valid() && logFlags == flags
      ensures inputs == old(inputs) && extraBytes == old(extraBytes)
      ensures Log() == LogUpdate(old(logFlags), old(Log()), flags, chars)
    {
      ghost var start := if NewLineFlag(flags) then old(Log()).(line := []) else old(Log());
      if NewLineFlag(flags) {
        logBytes := 0;
      }
      assert Log() == start;
      if CarriesLog(logFlags, flags) {
        FeedKeepsEverything(start, chars);
        for i := 0 to |chars|
          invariant Valid() && Log() == Feed(start, chars[..i])
          invariant logFlags == old(logFlags)
          invariant inputs == old(inputs) && extraBytes == old(extraBytes)
        {
          assert chars[..i + 1][..i] == chars[..i];
          LogChar(chars[i]);
        }
        assert chars[..|chars|] == chars;
      }
      logFlags := flags;
    }

    /** One log character, on the buffer. */
    method LogChar(c: Byte)
      requires Valid()
      modifies this, log
      ensures Valid() && Log() == FeedChar(old(Log()), c)
      ensures logFlags == old(logFlags)
      ensures inputs == old(inputs) && extraBytes == old(extraBytes)
    {
      if c != 0 {
        if logBytes == MAX_LOG_SIZE - 1 {
          log[MAX_LOG_SIZE - 1] := 0;
          logOutput := logOutput + [log[..logBytes]];
          logBytes := 0;
        }
        log[logBytes] := c;
        logBytes := logBytes + 1;
        assert log[..logBytes] == old(log[..logBytes]) + [c] || log[..logBytes] == [c];
      } else if logBytes > 0 {
        log[logBytes] := 0;
        logOutput := logOutput + [log[..logBytes]];
        logBytes := 0;
      }
    }
  }

  // -----------------------------------------------------------------------
  // Device-type records and the controller table
  // -----------------------------------------------------------------------

  /** `rift_s_device_type_record_t`: a device id and its type. */
  datatype DeviceRecord = DeviceRecord(deviceId: nat, deviceType: nat)

  /** The device types of the active controllers, and `device_num` of the two touch devices. */
  datatype TypeTable = TypeTable(types: seq<nat>, touch: seq<int>)

  /** The first index holding `id`, or -1. */
  function FirstIndex(ids: seq<nat>, id: nat): (r: int)
    ensures -1 <= r < |ids|
    ensures r >= 0 ==> ids[r] == id && forall k :: 0 <= k < r ==> ids[k] != id
    ensures r == -1 <==> id !in ids
  {
    if |ids| == 0 then -1
    else if ids[0] == id then 0
    else
      var r := FirstIndex(ids[1..], id);
      assert forall k :: 1 <= k < |ids| ==> ids[k] == ids[1..][k - 1];
      if r < 0 then -1 else r + 1
  }

  predicate TableOk(ids: seq<nat>, t: TypeTable)
  {
    |t.types| == |ids| && |t.touch| == MAX_CONTROLLERS &&
    forall k :: 0 <= k < MAX_CONTROLLERS ==> -1 <= t.touch[k] < |ids|
  }

  /**
   * One record of `update_device_types`: for the controller with that id,
   * a changed type is stored, and a left or right type points the first or
   * second touch device at that controller.
   */
  function ApplyRecord(ids: seq<nat>, t: TypeTable, rec: DeviceRecord): (r: TypeTable)
    requires TableOk(ids, t)
    ensures TableOk(ids, r)
  {
    var c := FirstIndex(ids, rec.deviceId);
    if c < 0 || t.types[c] == rec.deviceType then t
    else
      var touch :=
        if rec.deviceType == DEVICE_LEFT_CONTROLLER then t.touch[0 := c]
        else if rec.deviceType == DEVICE_RIGHT_CONTROLLER then t.touch[1 := c]
        else t.touch;
      TypeTable(t.types[c := rec.deviceType], touch)
  }

  function ApplyRecords(ids: seq<nat>, t: TypeTable, recs: seq<DeviceRecord>): (r: TypeTable)
    requires TableOk(ids, t)
    ensures TableOk(ids, r)
  {
    if |recs| == 0 then t else ApplyRecord(ids, ApplyRecords(ids, t, recs[..|recs| - 1]), recs[|recs| - 1])
  }

  /** The type the last record naming `id` gives, or `other` when no record names it. */
  function LastType(recs: seq<DeviceRecord>, id: nat, other: nat): nat
  {
    if |recs| == 0 then other
    else if recs[|recs| - 1].deviceId == id then recs[|recs| - 1].deviceType
    else LastType(recs[..|recs| - 1], id, other)
  }

  predicate Distinct(ids: seq<nat>)
  {
    forall i, j :: 0 <= i < j < |ids| ==> ids[i] != ids[j]
  }

  /**
   * With distinct controller ids, after the records each controller has the
   * type of the last record that names it, and keeps its type if none does.
   */
  lemma {:induction false} RecordsSetLastType(ids: seq<nat>, t: TypeTable, recs: seq<DeviceRecord>, c: nat)
    requires TableOk(ids, t) && Distinct(ids) && c < |ids|
    ensures ApplyRecords(ids, t, recs).types[c] == LastType(recs, ids[c], t.types[c])
    decreases |recs|
  {
    if |recs| > 0 {
      var init := recs[..|recs| - 1];
      RecordsSetLastType(ids, t, init, c);
      var rec := recs[|recs| - 1];
      if rec.deviceId == ids[c] {
        assert FirstIndex(ids, rec.deviceId) == c;
      }
    }
  }

  /** The type a touch device's controller must have been given for the device to point at it. */
  function TouchType(k: nat): nat
  {
    if k == 0 then DEVICE_LEFT_CONTROLLER else DEVICE_RIGHT_CONTROLLER
  }

  /**
   * A touch device is only ever pointed at a controller that some record
   * names with that side's type: the first at a left controller, the second
   * at a right one.
   */
  lemma {:induction false} TouchFromRecord(ids: seq<nat>, t: TypeTable, recs: seq<DeviceRecord>, k: nat)
    requires TableOk(ids, t) && k < MAX_CONTROLLERS
    ensures var r := ApplyRecords(ids, t, recs);
      r.touch[k] != t.touch[k] ==>
        0 <= r.touch[k] < |ids| &&
        exists j :: 0 <= j < |recs| && recs[j] == DeviceRecord(ids[r.touch[k]], TouchType(k))
    decreases |recs|
  {
    if |recs| > 0 {
      var init := recs[..|recs| - 1];
      TouchFromRecord(ids, t, init, k);
      var mid := ApplyRecords(ids, t, init);
      var r := ApplyRecords(ids, t, recs);
      if r.touch[k] != t.touch[k] {
        if r.touch[k] != mid.touch[k] {
          var j := |recs| - 1;
          assert recs[j] == DeviceRecord(ids[r.touch[k]], TouchType(k));
        } else {
          var j :| 0 <= j < |init| && init[j] == DeviceRecord(ids[r.touch[k]], TouchType(k));
          assert recs[j] == init[j];
        }
      }
    }
  }

  function IdsOf(cs: seq<ControllerState>): (r: seq<nat>)
    ensures |r| == |cs| && forall i :: 0 <= i < |cs| ==> r[i] == cs[i].deviceId
  {
    if |cs| == 0 then [] else IdsOf(cs[..|cs| - 1]) + [cs[|cs| - 1].deviceId]
  }

  /** The parsed blocks of a report buffer the parser accepts. */
  function ReportBlocks(buf: seq<Byte>): (r: seq<seq<Byte>>)
    requires |buf| >= CONTROLLER_REPORT_MIN_SIZE
    ensures AllKnown(r)
  {
    if buf[9] < 4 then []
    else
      var bs := Blocks(BlockData(buf), MAX_INFO_BLOCKS);
      ParsedBlocksKnown(bs);
      bs
  }

  datatype ReportOutcome = Rejected | Dummy | TooManyControllers | Updated(index: nat, added: bool, ok: bool)

  /** The HMD's controller side: the active controllers, the touch devices and the radio. */
  class RiftSHmd {
    var useCount: int
    var controllers: seq<ControllerState>
    /** `device_type` of each active controller, by index. */
    var deviceTypes: seq<nat>
    /** `touch_dev[k].device_num`: the controller index of the left (0) and right (1) touch device, or -1. */
    var touchDeviceNum: seq<int>
    var hmdOpened: bool
    var touchOpened: seq<bool>
    const radio: Radio
    ghost var Repr: set<object>

    ghost predicate Valid()
      reads this, Repr
    {
      this in Repr && radio in Repr && radio.Valid() &&
      |controllers| <= MAX_CONTROLLERS && |deviceTypes| == |controllers| && |touchDeviceNum| == MAX_CONTROLLERS && |touchOpened| == MAX_CONTROLLERS &&
      (forall i :: 0 <= i < |controllers| ==> controllers[i] in Repr && controllers[i].log in Repr) &&
      (forall i :: 0 <= i < |controllers| ==> controllers[i].Valid() && controllers[i].deviceId != 0) &&
      (forall i, j :: 0 <= i < j < |controllers| ==>
         controllers[i] != controllers[j] && controllers[i].log != controllers[j].log) &&
      (forall i, j :: 0 <= i < j < |controllers| ==> controllers[i].deviceId != controllers[j].deviceId) &&
      (forall k :: 0 <= k < MAX_CONTROLLERS ==> -1 <= touchDeviceNum[k] < |controllers|)
    }

    /** `open_hmd` as far as this model goes: one user, no controllers, touch devices unassigned. */
    constructor ()
      ensures Valid() && fresh(Repr)
      ensures useCount == 1 && controllers == [] && touchDeviceNum == [-1, -1]
      ensures !hmdOpened && touchOpened == [false, false]
      ensures radio.pendingCommands == [] && !radio.commandResultPending && radio.lastRadioSeqnum == -1
    {
      useCount := 1;
      controllers := [];
      deviceTypes := [];
      touchDeviceNum := [-1, -1];
      hmdOpened := false;
      touchOpened := [false, false];
      var r := new Radio();
      radio := r;
      Repr := {this, r};
    }

    /** The loop of `rift_s_handle_controller_report` looking for the controller with this id. */
    method FindController(id: nat) returns (index: int)
      requires Valid()
      ensures index == FirstIndex(IdsOf(controllers), id)
    {
      index := 0;
      while index < |controllers|
        invariant 0 <= index <= |controllers| && forall k :: 0 <= k < index ==> controllers[k].deviceId != id
      {
        if controllers[index].deviceId == id {
          return;
        }
        index := index + 1;
      }
      index := -1;
    }

    /** The device types, the touch device numbers and the controller ids are consistent. */
    predicate TableValid()
      reads this
    {
      |deviceTypes| == |controllers| && |touchDeviceNum| == MAX_CONTROLLERS &&
      forall k :: 0 <= k < MAX_CONTROLLERS ==> -1 <= touchDeviceNum[k] < |controllers|
    }

    /**
     * `update_device_types` given the list the HMD reported: every record
     * is applied in order; only device types and touch device numbers change.
     */
    method UpdateDeviceTypes(records: seq<DeviceRecord>)
      requires Valid()
      modifies this
      ensures Valid() && Repr == old(Repr) && controllers == old(controllers)
      ensures useCount == old(useCount) && hmdOpened == old(hmdOpened) && touchOpened == old(touchOpened)
      ensures TypeTable(deviceTypes, touchDeviceNum) ==
              ApplyRecords(IdsOf(controllers), TypeTable(old(deviceTypes), old(touchDeviceNum)), records)
    {
      ghost var ids := IdsOf(controllers);
      ghost var t0 := TypeTable(deviceTypes, touchDeviceNum);
      for r := 0 to |records|
        invariant TableValid() && Repr == old(Repr) && controllers == old(controllers)
        invariant useCount == old(useCount) && hmdOpened == old(hmdOpened) && touchOpened == old(touchOpened)
        invariant TypeTable(deviceTypes, touchDeviceNum) == ApplyRecords(ids, t0, records[..r])
      {
        assert records[..r + 1][..r] == records[..r];
        ApplyRecordTo(records[r], ids);
      }
      assert records[..|records|] == records;
    }

    /** One record of `update_device_types`; `ids` are the controllers' ids. */
    method ApplyRecordTo(rec: DeviceRecord, ghost ids: seq<nat>)
      requires TableValid() && ids == IdsOf(controllers)
      modifies this
      ensures TableValid() && controllers == old(controllers) && Repr == old(Repr)
      ensures useCount == old(useCount) && hmdOpened == old(hmdOpened) && touchOpened == old(touchOpened)
      ensures TypeTable(deviceTypes, touchDeviceNum) ==
              ApplyRecord(ids, TypeTable(old(deviceTypes), old(touchDeviceNum)), rec)
    {
      var c := -1;
      for i := 0 to |controllers|
        invariant forall k :: 0 <= k < i ==> controllers[k].deviceId != rec.deviceId
      {
        if controllers[i].deviceId == rec.deviceId {
          c := i;
          break;
        }
      }
      assert c == FirstIndex(ids, rec.deviceId);
      if c >= 0 && deviceTypes[c] != rec.deviceType {
        deviceTypes := deviceTypes[c := rec.deviceType];
        if rec.deviceType == DEVICE_LEFT_CONTROLLER {
          touchDeviceNum := touchDeviceNum[0 := c];
        } else if rec.deviceType == DEVICE_RIGHT_CONTROLLER {
          touchDeviceNum := touchDeviceNum[1 := c];
        }
      }
    }

    /** What `rift_s_parse_controller_report` accepts. */
    static predicate Accepted(buf: seq<Byte>)
    {
      |buf| >= CONTROLLER_REPORT_MIN_SIZE && buf[0] == CONTROLLER_REPORT_ID && LeftoverAsWritten(buf) <= MAX_EXTRA_BYTES
    }

    /**
     * `rift_s_handle_controller_report`: an unparsable report and a report
     * from device id 0 are ignored.  A report from an unknown device adds a
     * zeroed controller while fewer than two are active, re-reads the device
     * types (`devices`, when the read succeeds) and queues the configuration
     * request and the calibration read; a third device is refused.  A
     * controller whose type is still unknown has the types re-read; then the
     * report updates that controller's state.
     */
    method HandleControllerReport(buf: seq<Byte>, devices: Option<seq<DeviceRecord>>) returns (outcome: ReportOutcome)
      requires Valid() && |buf| >= 1
      modifies Repr
      ensures Valid() && old(Repr) <= Repr && fresh(Repr - old(Repr))
      ensures outcome.Rejected? <==> !Accepted(buf)
      ensures !outcome.Rejected? ==> (outcome.Dummy? <==> U64(buf, 1) == 0)
      ensures outcome.TooManyControllers? <==>
        Accepted(buf) && U64(buf, 1) != 0 && U64(buf, 1) !in old(IdsOf(controllers)) &&
        old(|controllers|) == MAX_CONTROLLERS
      ensures !(outcome.Updated? && outcome.added) ==>
        controllers == old(controllers) && radio.pendingCommands == old(radio.pendingCommands)
      ensures outcome.Updated? ==>
        outcome.index < |controllers| && controllers[outcome.index].deviceId == U64(buf, 1) &&
        (outcome.added <==> U64(buf, 1) !in old(IdsOf(controllers))) && outcome.ok
      ensures outcome.Updated? && outcome.added ==>
        controllers[..|controllers| - 1] == old(controllers) && outcome.index == |controllers| - 1 &&
        radio.pendingCommands == old(radio.pendingCommands) + [
          Command(RadioCommand(U64(buf, 1), Pad(CONFIG_REQUEST)), Notify(ControllerConfig(U64(buf, 1)))),
          Command(RadioCommand(U64(buf, 1), Pad(JSON_FIRST_CMD)),
                  ReadJsonBlock(JsonRead(U64(buf, 1), ControllerCalibration(U64(buf, 1)), 0, 0, [])))]
      ensures outcome.Updated? ==>
        controllers[outcome.index].inputs ==
          ApplyBlocks(if outcome.added then ZERO_INPUTS else old(controllers[outcome.index].inputs), ReportBlocks(buf))
    {
      var parsed := ParseControllerReport(buf);
      if parsed.None? {
        return Rejected;
      }
      var report := parsed.value;
      if report.deviceId == 0 {
        return Dummy;
      }
      assert report.info == ReportBlocks(buf);
      ParsedBlocksKnown(report.info);
      outcome := HandleFrom(report.deviceId, report, devices);
    }

    /** The part of `rift_s_handle_controller_report` after a report from device `id` has parsed. */
    method HandleFrom(id: nat, report: ControllerReport, devices: Option<seq<DeviceRecord>>) returns (outcome: ReportOutcome)
      requires Valid() && id != 0 && id == report.deviceId
      requires |report.log| == 3 && AllKnown(report.info) && |report.extraBytes| <= MAX_EXTRA_BYTES
      modifies Repr
      ensures Valid() && old(Repr) <= Repr && fresh(Repr - old(Repr))
      ensures outcome.TooManyControllers? || outcome.Updated?
      ensures outcome.TooManyControllers? <==> id !in old(IdsOf(controllers)) && old(|controllers|) == MAX_CONTROLLERS
      ensures !(outcome.Updated? && outcome.added) ==>
        controllers == old(controllers) && radio.pendingCommands == old(radio.pendingCommands)
      ensures outcome.Updated? ==>
        outcome.index < |controllers| && controllers[outcome.index].deviceId == id &&
        (outcome.added <==> id !in old(IdsOf(controllers))) && outcome.ok
      ensures outcome.Updated? && outcome.added ==>
        controllers[..|controllers| - 1] == old(controllers) && outcome.index == |controllers| - 1 &&
        radio.pendingCommands == old(radio.pendingCommands) + [
          Command(RadioCommand(id, Pad(CONFIG_REQUEST)), Notify(ControllerConfig(id))),
          Command(RadioCommand(id, Pad(JSON_FIRST_CMD)), ReadJsonBlock(JsonRead(id, ControllerCalibration(id), 0, 0, [])))]
      ensures outcome.Updated? ==>
        controllers[outcome.index].inputs ==
          ApplyBlocks(if outcome.added then ZERO_INPUTS else old(controllers[outcome.index].inputs), report.info)
    {
      var index := FindController(id);
      var added := false;
      if index < 0 {
        if |controllers| == MAX_CONTROLLERS {
          return TooManyControllers;
        }
        index := NewController(id, devices);
        added := true;
      }
      var ok := Refresh(index, report, devices);
      outcome := Updated(index, added, ok);
    }

    /** Adding a controller: the table entry, the device types, and the two radio requests. */
    method NewController(id: nat, devices: Option<seq<DeviceRecord>>) returns (index: nat)
      requires Valid() && id != 0 && id !in IdsOf(controllers) && |controllers| < MAX_CONTROLLERS
      modifies Repr
      ensures Valid() && old(Repr) <= Repr && fresh(Repr - old(Repr))
      ensures index == old(|controllers|) && |controllers| == index + 1 && controllers[..index] == old(controllers)
      ensures controllers[index].deviceId == id && controllers[index].inputs == ZERO_INPUTS
      ensures radio.pendingCommands == old(radio.pendingCommands) + [
          Command(RadioCommand(id, Pad(CONFIG_REQUEST)), Notify(ControllerConfig(id))),
          Command(RadioCommand(id, Pad(JSON_FIRST_CMD)), ReadJsonBlock(JsonRead(id, ControllerCalibration(id), 0, 0, [])))]
    {
      index := AddController(id);
      if devices.Some? {
        UpdateDeviceTypes(devices.value);
      }
      RequestConfiguration(id);
    }

    /** `get_controller_configuration`: queue the configuration request, then start the calibration read. */
    method RequestConfiguration(id: nat)
      requires Valid()
      modifies radio
      ensures Valid()
      ensures radio.pendingCommands == old(radio.pendingCommands) + [
          Command(RadioCommand(id, Pad(CONFIG_REQUEST)), Notify(ControllerConfig(id))),
          Command(RadioCommand(id, Pad(JSON_FIRST_CMD)), ReadJsonBlock(JsonRead(id, ControllerCalibration(id), 0, 0, [])))]
    {
      radio.QueueCommand(id, CONFIG_REQUEST, Notify(ControllerConfig(id)));
      radio.GetJsonBlock(id, ControllerCalibration(id));
    }

    /** Re-reading the types of a controller whose type is unknown, then applying the report. */
    method Refresh(index: nat, report: ControllerReport, devices: Option<seq<DeviceRecord>>) returns (ok: bool)
      requires Valid() && index < |controllers| && |report.log| == 3 && AllKnown(report.info)
      requires |report.extraBytes| <= MAX_EXTRA_BYTES
      modifies Repr
      ensures Valid() && Repr == old(Repr) && controllers == old(controllers)
      ensures radio.pendingCommands == old(radio.pendingCommands)
      ensures ok && controllers[index].inputs == ApplyBlocks(old(controllers[index].inputs), report.info)
    {
      if deviceTypes[index] == DEVICE_TYPE_UNKNOWN && devices.Some? {
        UpdateDeviceTypes(devices.value);
      }
      var applied;
      ok, applied := UpdateController(index, report);
    }

    /** A zeroed controller with this id at the end of the table. */
    method AddController(id: nat) returns (index: nat)
      requires Valid() && id != 0 && id !in IdsOf(controllers) && |controllers| < MAX_CONTROLLERS
      modifies this
      ensures Valid() && old(Repr) <= Repr && fresh(Repr - old(Repr))
      ensures index == old(|controllers|) && |controllers| == old(|controllers|) + 1 &&
              controllers[..index] == old(controllers)
      ensures controllers[index].deviceId == id && controllers[index].inputs == ZERO_INPUTS
      ensures deviceTypes == old(deviceTypes) + [DEVICE_TYPE_UNKNOWN]
      ensures useCount == old(useCount) && hmdOpened == old(hmdOpened) && touchOpened == old(touchOpened)
      ensures touchDeviceNum == old(touchDeviceNum)
    {
      var c := new ControllerState(id);
      index := |controllers|;
      controllers := controllers + [c];
      deviceTypes := deviceTypes + [DEVICE_TYPE_UNKNOWN];
      Repr := Repr + {c, c.log};
    }

    /** `update_controller_state` on the controller at `index`. */
    method UpdateController(index: nat, report: ControllerReport) returns (ok: bool, applied: nat)
      requires Valid() && index < |controllers| && |report.log| == 3
      requires AllKnown(report.info)
      modifies controllers[index], controllers[index].log
      ensures Valid()
      ensures ok <==> |report.extraBytes| <= MAX_EXTRA_BYTES
      ensures controllers[index].inputs == ApplyBlocks(old(controllers[index].inputs), report.info)
    {
      var c := controllers[index];
      ok, applied := c.UpdateState(report);
      assert report.info[..applied] == report.info;
    }
  }
}
