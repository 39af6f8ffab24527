/**
 * The file driver's reader: it zeroes the caller's record, reads the 4-byte
 * header and, for version 0, the 1124-byte body, rejects more than 64
 * controls and forces the name's last byte to be a terminator.  The stream
 * is the sequence of bytes from the read position on.
 */
module FileReader {
  import opened Bytes
  import opened FileFormat

  const ERROR_NOHEAD: nat := 1
  const ERROR_NOBODY: nat := 2
  const ERROR_BADVER: nat := 3
  const ERROR_TOOMANYCONTROLS: nat := 4

  /** The body as it lies in the stream behind the header. */
  function Body(file: seq<Byte>): (r: seq<Byte>)
    requires |file| >= HEADER_SIZE + DATA_SIZE
    ensures |r| == DATA_SIZE
  {
    file[HEADER_SIZE..HEADER_SIZE + DATA_SIZE]
  }

  /**
   * The status `ohmd_file_drv_read_file` returns: the header is read first,
   * the version checked before the body is read, the control count last.
   */
  function ReadStatus(file: seq<Byte>): (r: nat)
    ensures r <= ERROR_TOOMANYCONTROLS
    ensures r == 0 <==> |file| >= HEADER_SIZE + DATA_SIZE && U32(file, 0) == DATA_LATEST
                        && ControlCount(Body(file)) <= MAX_CONTROLS
    ensures r == ERROR_NOHEAD <==> |file| < HEADER_SIZE
  {
    if |file| < HEADER_SIZE then ERROR_NOHEAD
    else if U32(file, 0) != DATA_LATEST then ERROR_BADVER
    else if |file| < HEADER_SIZE + DATA_SIZE then ERROR_NOBODY
    else if ControlCount(Body(file)) > MAX_CONTROLS then ERROR_TOOMANYCONTROLS
    else 0
  }

  /** The record a successful read leaves: the body, its name's last byte forced to 0. */
  function Accepted(file: seq<Byte>): (r: seq<Byte>)
    requires ReadStatus(file) == 0
    ensures |r| == DATA_SIZE && r[NAME_AT + STR_SIZE - 1] == 0
    ensures forall i :: 0 <= i < DATA_SIZE && i != NAME_AT + STR_SIZE - 1 ==> r[i] == file[HEADER_SIZE + i]
  {
    Body(file)[NAME_AT + STR_SIZE - 1 := 0]
  }

  /** A body whose name is already terminated is taken over unchanged. */
  lemma AcceptedUnchanged(file: seq<Byte>)
    requires ReadStatus(file) == 0 && file[HEADER_SIZE + NAME_AT + STR_SIZE - 1] == 0
    ensures Accepted(file) == Body(file)
  {
  }

  /**
   * `fread(out, sizeof(*out), 1, file)`: the bytes available, up to the size
   * of `out`; the item counts as read only when all of it was there.
   */
  method ReadItem(src: seq<Byte>, out: array<Byte>) returns (complete: bool)
    modifies out
    ensures complete <==> |src| >= out.Length
    ensures complete ==> out[..] == src[..out.Length]
    ensures !complete ==> out[..|src|] == src
  {
    var n := if |src| < out.Length then |src| else out.Length;
    for i := 0 to n
      invariant forall j :: 0 <= j < i ==> out[j] == src[j]
    {
      out[i] := src[i];
    }
    complete := n == out.Length;
  }

  /**
   * `ohmd_file_drv_read_file`.  After a short header or a wrong version the
   * record is still all zeros; after a short body its contents are partial
   * and not stated; with too many controls it holds the body as read.
   */
  method ReadFile(file: seq<Byte>, out: array<Byte>) returns (err: nat)
    requires out.Length == DATA_SIZE
    modifies out
    ensures err == ReadStatus(file)
    ensures err == ERROR_NOHEAD || err == ERROR_BADVER ==> out[..] == Zeros(DATA_SIZE)
    ensures err == ERROR_TOOMANYCONTROLS ==> out[..] == Body(file)
    ensures err == 0 ==> out[..] == Accepted(file)
  {
    for i := 0 to DATA_SIZE
      invariant forall j :: 0 <= j < i ==> out[j] == 0
    {
      out[i] := 0;
    }
    if |file| < HEADER_SIZE {
      return ERROR_NOHEAD;
    }
    var version := U32(file, 0);
    if version != DATA_LATEST {
      return ERROR_BADVER;
    }
    var complete := ReadItem(file[HEADER_SIZE..], out);
    if !complete {
      return ERROR_NOBODY;
    }
    if U32(out[..], CONTROLS_AT) > MAX_CONTROLS {
      return ERROR_TOOMANYCONTROLS;
    }
    out[NAME_AT + STR_SIZE - 1] := 0;
    err := 0;
  }

  /** `quatf` as four float patterns, in the order x, y, z, w. */
  datatype Quat = Quat(x: nat, y: nat, z: nat, w: nat)

  /**
   * `ohmd_file_drv_rotation2quat`: a quaternion is copied as it is; Euler
   * angles (pitch, yaw, roll) go to `euler`, the floating-point conversion.
   */
  function Rotation2Quat(r: Rotation, euler: (nat, nat, nat) -> Quat): (q: Quat)
    requires |r.data| == 4
    ensures r.isQuaternion != 0 ==> [q.x, q.y, q.z, q.w] == r.data
    ensures r.isQuaternion == 0 ==> q == euler(r.data[0], r.data[1], r.data[2])
  {
    if r.isQuaternion != 0 then Quat(r.data[0], r.data[1], r.data[2], r.data[3])
    else euler(r.data[0], r.data[1], r.data[2])
  }

  /** A record marked as quaternion yields the four float words of the file unchanged, in file order. */
  lemma QuaternionPassthrough(file: seq<Byte>, euler: (nat, nat, nat) -> Quat)
    requires ReadStatus(file) == 0 && U32(file, HEADER_SIZE + ROTATION_AT) != 0
    ensures var q := Rotation2Quat(RotationAt(Accepted(file)), euler);
      q.x == U32(file, HEADER_SIZE + ROTATION_AT + 4) && q.y == U32(file, HEADER_SIZE + ROTATION_AT + 8) &&
      q.z == U32(file, HEADER_SIZE + ROTATION_AT + 12) && q.w == U32(file, HEADER_SIZE + ROTATION_AT + 16)
  {
    var a := Accepted(file);
    forall k | ROTATION_AT <= k < ROTATION_AT + ROTATION_SIZE
      ensures a[k] == file[HEADER_SIZE + k]
    {
    }
  }
}
