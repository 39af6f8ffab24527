/**
 * The filedev record writer script: it packs a version 0 record for a
 * positionally and rotationally tracked HMD named "set.py", with the Euler
 * rotation and the position taken from its six arguments, and writes it at
 * offset 0 of the device file without truncating the file.
 *
 * The arguments arrive as the 32-bit float patterns the script packs (the
 * degree-to-radian conversion and the text-to-float parse are floating
 * point); the constant floats of the HMD info are written as their patterns.
 */
module FileDevSet {
  import opened Bytes
  import opened FileFormat
  import opened FileReader

  const RECORD_SIZE: nat := 1128
  /** `b"set.py"` */
  const NAME: seq<Byte> := [0x73, 0x65, 0x74, 0x2e, 0x70, 0x79]
  /** Device flags: positional (2) and rotational (4) tracking. */
  const FLAGS: nat := 6

  /** 0.149760, 0.093600, 0.063500, 0.046800, radians(125.5144) and (1280/800)/2 as single floats. */
  const HSIZE: nat := 0x3e19_5aaf
  const VSIZE: nat := 0x3dbf_b15b
  const LENS_SEP: nat := 0x3d82_0c4a
  const LENS_VPOS: nat := 0x3d3f_b15b
  const FOV: nat := 0x400c_3370
  const RATIO: nat := 0x3f4c_cccd

  /** `struct.pack(fmt, ...) * n` for a 12-byte control. */
  function Repeat(s: seq<Byte>, n: nat): (r: seq<Byte>)
    ensures |r| == n * |s|
  {
    if n == 0 then [] else s + Repeat(s, n - 1)
  }

  /** A repeated run of zero bytes is zero bytes. */
  lemma {:induction false} RepeatZeros(k: nat, n: nat)
    ensures Repeat(Zeros(k), n) == Zeros(n * k)
  {
    if n > 0 {
      RepeatZeros(k, n - 1);
      assert Zeros(k) + Zeros((n - 1) * k) == Zeros(n * k);
    }
  }

  /** The record for pitch, yaw and roll (radians) and position x, y, z. */
  function Record(pitch: nat, yaw: nat, roll: nat, x: nat, y: nat, z: nat): (r: seq<Byte>)
    requires pitch < TWO_32 && yaw < TWO_32 && roll < TWO_32
    requires x < TWO_32 && y < TWO_32 && z < TWO_32
    ensures |r| == RECORD_SIZE
  {
    var header := Le32(0);
    var devtc := Le32(0) + Le32(FLAGS);
    var name := NAME + Zeros(250);
    var rotation := Le32(0) + Le32(pitch) + Le32(yaw) + Le32(roll) + Le32(0);
    var position := Le32(x) + Le32(y) + Le32(z);
    var hmdInfo := Le32(1280) + Le32(800) + Le32(HSIZE) + Le32(VSIZE) + Le32(LENS_SEP) + Le32(LENS_VPOS)
      + Le32(FOV) + Le32(RATIO);
    var distortion := Le32(0) + Le32(0) + Le32(0) + Le32(0) + Le32(0) + Le32(0);
    var controlHeader := Le32(0);
    var controlBody := Repeat(Le32(0) + Le32(0) + Le32(0), MAX_CONTROLS);
    header + devtc + name + rotation + position + hmdInfo + distortion + controlHeader + controlBody
  }

  /** The record opens with version 0, device class 0, flags 2|4 and the null-padded name "set.py". */
  lemma RecordIdentity(pitch: nat, yaw: nat, roll: nat, x: nat, y: nat, z: nat)
    requires pitch < TWO_32 && yaw < TWO_32 && roll < TWO_32
    requires x < TWO_32 && y < TWO_32 && z < TWO_32
    ensures var r := Record(pitch, yaw, roll, x, y, z);
      U32(r, 0) == DATA_LATEST &&
      U32(r, HEADER_SIZE + CLASS_AT) == 0 && U32(r, HEADER_SIZE + FLAGS_AT) == FLAGS &&
      r[HEADER_SIZE + NAME_AT..HEADER_SIZE + ROTATION_AT] == NAME + Zeros(STR_SIZE - |NAME|)
  {
    var r := Record(pitch, yaw, roll, x, y, z);
    assert U32(r, HEADER_SIZE + FLAGS_AT) == U32(r[HEADER_SIZE + FLAGS_AT..], 0);
  }

  /** The rotation is Euler angles (is_quaternion 0) holding the three arguments, then the position. */
  lemma RecordPose(pitch: nat, yaw: nat, roll: nat, x: nat, y: nat, z: nat)
    requires pitch < TWO_32 && yaw < TWO_32 && roll < TWO_32
    requires x < TWO_32 && y < TWO_32 && z < TWO_32
    ensures var r := Record(pitch, yaw, roll, x, y, z);
      U32(r, HEADER_SIZE + ROTATION_AT) == 0 &&
      U32(r, HEADER_SIZE + ROTATION_AT + 4) == pitch && U32(r, HEADER_SIZE + ROTATION_AT + 8) == yaw &&
      U32(r, HEADER_SIZE + ROTATION_AT + 12) == roll &&
      U32(r, HEADER_SIZE + POSITION_AT) == x && U32(r, HEADER_SIZE + POSITION_AT + 4) == y &&
      U32(r, HEADER_SIZE + POSITION_AT + 8) == z
  {
    var r := Record(pitch, yaw, roll, x, y, z);
    assert U32(r, HEADER_SIZE + ROTATION_AT) == U32(r[HEADER_SIZE + ROTATION_AT..], 0);
    assert U32(r, HEADER_SIZE + ROTATION_AT + 4) == U32(r[HEADER_SIZE + ROTATION_AT + 4..], 0);
    assert U32(r, HEADER_SIZE + ROTATION_AT + 8) == U32(r[HEADER_SIZE + ROTATION_AT + 8..], 0);
    assert U32(r, HEADER_SIZE + ROTATION_AT + 12) == U32(r[HEADER_SIZE + ROTATION_AT + 12..], 0);
    assert U32(r, HEADER_SIZE + POSITION_AT) == U32(r[HEADER_SIZE + POSITION_AT..], 0);
    assert U32(r, HEADER_SIZE + POSITION_AT + 4) == U32(r[HEADER_SIZE + POSITION_AT + 4..], 0);
    assert U32(r, HEADER_SIZE + POSITION_AT + 8) == U32(r[HEADER_SIZE + POSITION_AT + 8..], 0);
  }

  /** A 1280x800 display, then a control count of 0 followed by 64 all-zero controls. */
  lemma RecordControls(pitch: nat, yaw: nat, roll: nat, x: nat, y: nat, z: nat)
    requires pitch < TWO_32 && yaw < TWO_32 && roll < TWO_32
    requires x < TWO_32 && y < TWO_32 && z < TWO_32
    ensures var r := Record(pitch, yaw, roll, x, y, z);
      U32(r, HEADER_SIZE + HMD_INFO_AT) == 1280 && U32(r, HEADER_SIZE + HMD_INFO_AT + 4) == 800 &&
      U32(r, HEADER_SIZE + CONTROLS_AT) == 0 &&
      r[HEADER_SIZE + CONTROLS_AT + 4..] == Zeros(MAX_CONTROLS * CONTROL_SIZE)
  {
    var r := Record(pitch, yaw, roll, x, y, z);
    var zero := Le32(0);
    assert zero + zero + zero == Zeros(CONTROL_SIZE);
    RepeatZeros(CONTROL_SIZE, MAX_CONTROLS);
    assert r[HEADER_SIZE + CONTROLS_AT + 4..] == Repeat(zero + zero + zero, MAX_CONTROLS);
    assert U32(r, HEADER_SIZE + HMD_INFO_AT) == U32(r[HEADER_SIZE + HMD_INFO_AT..], 0);
    assert U32(r, HEADER_SIZE + HMD_INFO_AT + 4) == U32(r[HEADER_SIZE + HMD_INFO_AT + 4..], 0);
    assert U32(r, HEADER_SIZE + CONTROLS_AT) == U32(r[HEADER_SIZE + CONTROLS_AT..], 0);
  }

  /**
   * The file after the script: opened with "x+b" when it does not exist
   * (empty), else with "r+b" (contents kept); the record is written at
   * offset 0 over whatever was there, and the rest of the file stays.
   */
  function SetFile(existing: Option<seq<Byte>>, record: seq<Byte>): (f: seq<Byte>)
    ensures |record| <= |f| && f[..|record|] == record
    ensures existing.Some? ==> |existing.value| <= |f|
  {
    var before := if existing.None? then [] else existing.value;
    if |before| <= |record| then record else record + before[|record|..]
  }

  /** The write starts at offset 0 and never truncates. */
  lemma SetFileOverwrites(existing: Option<seq<Byte>>, record: seq<Byte>)
    ensures var f := SetFile(existing, record);
      f[..|record|] == record &&
      (existing.None? ==> f == record) &&
      (existing.Some? ==> |f| == if |existing.value| <= |record| then |record| else |existing.value|) &&
      (existing.Some? && |existing.value| > |record| ==> f[|record|..] == existing.value[|record|..])
  {
  }

  /**
   * The driver's reader accepts what the script writes, whatever the file
   * held before, and takes over the body unchanged.
   */
  lemma ReaderAcceptsRecord(existing: Option<seq<Byte>>, pitch: nat, yaw: nat, roll: nat, x: nat, y: nat, z: nat)
    requires pitch < TWO_32 && yaw < TWO_32 && roll < TWO_32
    requires x < TWO_32 && y < TWO_32 && z < TWO_32
    ensures var r := Record(pitch, yaw, roll, x, y, z);
      var f := SetFile(existing, r);
      ReadStatus(f) == 0 && Accepted(f) == r[HEADER_SIZE..]
  {
    var r := Record(pitch, yaw, roll, x, y, z);
    var f := SetFile(existing, r);
    RecordIdentity(pitch, yaw, roll, x, y, z);
    RecordControls(pitch, yaw, roll, x, y, z);
    SetFileOverwrites(existing, r);
    assert f[..RECORD_SIZE] == r;
    assert U32(f, 0) == U32(r, 0);
    assert Body(f) == r[HEADER_SIZE..];
    assert ControlCount(Body(f)) == U32(r, HEADER_SIZE + CONTROLS_AT);
    assert r[HEADER_SIZE + NAME_AT + STR_SIZE - 1] == (NAME + Zeros(STR_SIZE - |NAME|))[STR_SIZE - 1];
    AcceptedUnchanged(f);
  }
}
