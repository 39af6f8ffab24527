/**
 * The filedev binary record shared by the file driver and the script that
 * writes it: a 4-byte header holding the structure version, then version 0
 * of the device data.  Every integer is a native (little-endian) 32-bit
 * word, every float a 32-bit IEEE pattern the model only moves.
 *
 *   data offset  field
 *        0       device class
 *        4       device flags
 *        8       name, 256 bytes, null-padded
 *      264       rotation: is_quaternion, then four floats
 *      284       position, three floats
 *      296       hmd info: hres, vres, then twelve floats
 *      352       control count, then 64 controls of (hint, type, state)
 *     1124       end
 */
module FileFormat {
  import opened Bytes

  const HEADER_SIZE: nat := 4
  const DATA_LATEST: nat := 0

  const CLASS_AT: nat := 0
  const FLAGS_AT: nat := 4
  const NAME_AT: nat := 8
  const STR_SIZE: nat := 256
  const ROTATION_AT: nat := 264
  const ROTATION_SIZE: nat := 20
  const POSITION_AT: nat := 284
  const HMD_INFO_AT: nat := 296
  const HMD_INFO_SIZE: nat := 56
  const CONTROLS_AT: nat := 352
  const MAX_CONTROLS: nat := 64
  const CONTROL_SIZE: nat := 12
  const DATA_SIZE: nat := 1124

  /** `controls.count` of a data body. */
  function ControlCount(body: seq<Byte>): (r: nat)
    requires |body| == DATA_SIZE
    ensures r < TWO_32
  {
    U32(body, CONTROLS_AT)
  }

  /** `ohmd_file_rotation`: the quaternion flag and four float patterns. */
  datatype Rotation = Rotation(isQuaternion: nat, data: seq<nat>)

  function RotationAt(body: seq<Byte>): (r: Rotation)
    requires |body| == DATA_SIZE
    ensures |r.data| == 4 && r.isQuaternion == U32(body, ROTATION_AT)
    ensures forall i :: 0 <= i < 4 ==> r.data[i] == U32(body, ROTATION_AT + 4 + 4 * i)
  {
    Rotation(U32(body, ROTATION_AT),
      [U32(body, ROTATION_AT + 4), U32(body, ROTATION_AT + 8), U32(body, ROTATION_AT + 12), U32(body, ROTATION_AT + 16)])
  }
}
