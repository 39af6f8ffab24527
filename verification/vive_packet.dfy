/**
 * HTC Vive packet handling (src/drv_htc_vive/packet.c): the 52-byte IMU
 * report of three samples read through a cursor, and `trim`, which copies a
 * C string while dropping spaces, tabs and newlines (the driver calls it
 * with the same buffer as source and destination).
 */
module VivePacket {
  import opened Bytes

  const IMU_PACKET_SIZE: nat := 52
  const SAMPLE_SIZE: nat := 17
  const SAMPLES: nat := 3

  // -----------------------------------------------------------------------
  // vive_decode_sensor_packet
  // -----------------------------------------------------------------------

  /** `vive_headset_imu_sample`: three accelerometer and three gyro axes, a tick count and a sequence byte. */
  datatype ImuSample = ImuSample(acc: seq<int>, rot: seq<int>, timeTicks: nat, sequence: Byte)

  datatype ImuPacket = ImuPacket(reportId: Byte, samples: seq<ImuSample>)

  /** `read16`: a little-endian word stored into an `int16_t`. */
  function I16(s: seq<Byte>, i: nat): (r: int)
    requires i + 2 <= |s|
    ensures -0x8000 <= r < 0x8000
  {
    ToInt16(U16(s, i))
  }

  /** Three `read16` values from `at`. */
  function AxesAt(s: seq<Byte>, at: nat): (r: seq<int>)
    requires at + 6 <= |s|
    ensures |r| == 3
  {
    [I16(s, at), I16(s, at + 2), I16(s, at + 4)]
  }

  /** The sample whose 17 bytes start at `at`. */
  function SampleAt(s: seq<Byte>, at: nat): ImuSample
    requires at + SAMPLE_SIZE <= |s|
  {
    ImuSample(AxesAt(s, at), AxesAt(s, at + 6), U32(s, at + 12), s[at + 16])
  }

  /** The report id, then the three samples back to back. */
  function PacketAt(s: seq<Byte>): (r: ImuPacket)
    requires |s| == IMU_PACKET_SIZE
    ensures |r.samples| == SAMPLES
  {
    ImuPacket(s[0], [SampleAt(s, 1), SampleAt(s, 1 + SAMPLE_SIZE), SampleAt(s, 1 + 2 * SAMPLE_SIZE)])
  }

  /** `vive_decode_sensor_packet`: only a report of exactly 52 bytes is decoded. */
  method DecodeSensorPacket(buffer: seq<Byte>) returns (r: Option<ImuPacket>)
    ensures r.Some? <==> |buffer| == IMU_PACKET_SIZE
    ensures r.Some? ==> r.value == PacketAt(buffer)
  {
    if |buffer| != IMU_PACKET_SIZE {
      return None;
    }
    var pos := 0;
    var reportId := buffer[pos];
    pos := pos + 1;
    var samples: seq<ImuSample> := [];
    for j := 0 to SAMPLES
      invariant pos == 1 + SAMPLE_SIZE * j
      invariant |samples| == j
      invariant forall k :: 0 <= k < j ==> samples[k] == SampleAt(buffer, 1 + SAMPLE_SIZE * k)
    {
      var acc, rot;
      acc, pos := ReadAxes(buffer, pos);
      rot, pos := ReadAxes(buffer, pos);
      var ticks := U32(buffer, pos);
      pos := pos + 4;
      var sequence := buffer[pos];
      pos := pos + 1;
      samples := samples + [ImuSample(acc, rot, ticks, sequence)];
    }
    r := Some(ImuPacket(reportId, samples));
  }

  /** The inner loop: three `read16` calls advancing the cursor. */
  method ReadAxes(buffer: seq<Byte>, pos0: nat) returns (v: seq<int>, pos: nat)
    requires pos0 + 6 <= |buffer|
    ensures v == AxesAt(buffer, pos0) && pos == pos0 + 6
  {
    v := [];
    pos := pos0;
    for i := 0 to 3
      invariant pos == pos0 + 2 * i
      invariant v == AxesAt(buffer, pos0)[..i]
    {
      v := v + [I16(buffer, pos)];
      pos := pos + 2;
    }
  }

  /** A sample whose fields fit their C types. */
  predicate SampleFits(smp: ImuSample)
  {
    |smp.acc| == 3 && |smp.rot| == 3 && smp.timeTicks < TWO_32 &&
    (forall i :: 0 <= i < 3 ==> -0x8000 <= smp.acc[i] < 0x8000) &&
    (forall i :: 0 <= i < 3 ==> -0x8000 <= smp.rot[i] < 0x8000)
  }

  function AxesBytes(v: seq<int>): (r: seq<Byte>)
    requires |v| == 3 && forall i :: 0 <= i < 3 ==> -0x8000 <= v[i] < 0x8000
    ensures |r| == 6
  {
    Le16(v[0] % TWO_16) + Le16(v[1] % TWO_16) + Le16(v[2] % TWO_16)
  }

  /** The 52 bytes the headset sends for a packet. */
  function PacketBytes(p: ImuPacket): (r: seq<Byte>)
    requires |p.samples| == SAMPLES && forall k :: 0 <= k < SAMPLES ==> SampleFits(p.samples[k])
    ensures |r| == IMU_PACKET_SIZE
  {
    [p.reportId] + SampleBytes(p.samples[0]) + SampleBytes(p.samples[1]) + SampleBytes(p.samples[2])
  }

  function SampleBytes(smp: ImuSample): (r: seq<Byte>)
    requires SampleFits(smp)
    ensures |r| == SAMPLE_SIZE
  {
    AxesBytes(smp.acc) + AxesBytes(smp.rot) + Le32(smp.timeTicks) + [smp.sequence]
  }

  lemma AxesRoundTrip(v: seq<int>)
    requires |v| == 3 && forall i :: 0 <= i < 3 ==> -0x8000 <= v[i] < 0x8000
    ensures AxesAt(AxesBytes(v), 0) == v
  {
    var a := AxesBytes(v);
    assert U16(a, 2) == U16(Le16(v[1] % TWO_16), 0);
    assert U16(a, 4) == U16(Le16(v[2] % TWO_16), 0);
    Wrap16(v[0]);
    Wrap16(v[1]);
    Wrap16(v[2]);
  }

  lemma SampleRoundTrip(smp: ImuSample)
    requires SampleFits(smp)
    ensures SampleAt(SampleBytes(smp), 0) == smp
  {
    var b := SampleBytes(smp);
    var acc, rot := AxesBytes(smp.acc), AxesBytes(smp.rot);
    AxesRoundTrip(smp.acc);
    AxesRoundTrip(smp.rot);
    assert AxesAt(b, 0) == AxesAt(acc, 0);
    assert AxesAt(b, 6) == AxesAt(rot, 0) by {
      assert U16(b, 6) == U16(rot, 0) && U16(b, 8) == U16(rot, 2) && U16(b, 10) == U16(rot, 4);
    }
    assert U32(b, 12) == U32(Le32(smp.timeTicks), 0);
  }

  /** A sample reads the same in place as on its own 17 bytes. */
  lemma SampleShift(s: seq<Byte>, at: nat)
    requires at + SAMPLE_SIZE <= |s|
    ensures SampleAt(s, at) == SampleAt(s[at..at + SAMPLE_SIZE], 0)
  {
    var t := s[at..at + SAMPLE_SIZE];
    assert AxesAt(s, at) == AxesAt(t, 0);
    assert AxesAt(s, at + 6) == AxesAt(t, 6);
    assert U32(s, at + 12) == U32(t, 12);
  }

  /** Decoding gives back every packet the headset can send. */
  lemma PacketRoundTrip(p: ImuPacket)
    requires |p.samples| == SAMPLES && forall k :: 0 <= k < SAMPLES ==> SampleFits(p.samples[k])
    ensures PacketAt(PacketBytes(p)) == p
  {
    var s := PacketBytes(p);
    var b0, b1, b2 := SampleBytes(p.samples[0]), SampleBytes(p.samples[1]), SampleBytes(p.samples[2]);
    Parts([p.reportId], b0, b1, b2);
    SampleFromBytes(s, 1, p.samples[0]);
    SampleFromBytes(s, 18, p.samples[1]);
    SampleFromBytes(s, 35, p.samples[2]);
    Three(p.samples);
  }

  lemma Parts<T>(a: seq<T>, b: seq<T>, c: seq<T>, d: seq<T>)
    ensures var s := a + b + c + d;
      s[|a|..|a| + |b|] == b && s[|a| + |b|..|a| + |b| + |c|] == c && s[|a| + |b| + |c|..] == d
  {
  }

  lemma Three<T>(x: seq<T>)
    requires |x| == 3
    ensures x == [x[0], x[1], x[2]]
  {
  }

  /** A sample's 17 bytes anywhere in a buffer decode to that sample. */
  lemma SampleFromBytes(s: seq<Byte>, at: nat, smp: ImuSample)
    requires SampleFits(smp) && at + SAMPLE_SIZE <= |s| && s[at..at + SAMPLE_SIZE] == SampleBytes(smp)
    ensures SampleAt(s, at) == smp
  {
    SampleShift(s, at);
    SampleRoundTrip(smp);
  }

  // -----------------------------------------------------------------------
  // trim
  // -----------------------------------------------------------------------

  predicate Blank(c: char)
  {
    c == ' ' || c == '\t' || c == '\n'
  }

  /** The characters of `s` that are not blanks, in their order. */
  function Kept(s: string): (r: string)
    ensures |r| <= |s|
    ensures forall i :: 0 <= i < |r| ==> !Blank(r[i])
  {
    if |s| == 0 then [] else (if Blank(s[0]) then [] else [s[0]]) + Kept(s[1..])
  }

  /** Filtering distributes over concatenation, so every kept character keeps its place relative to the others. */
  lemma {:induction false} KeptAppend(a: string, b: string)
    ensures Kept(a + b) == Kept(a) + Kept(b)
    decreases |a|
  {
    if |a| > 0 {
      assert (a + b)[0] == a[0] && (a + b)[1..] == a[1..] + b;
      KeptAppend(a[1..], b);
    } else {
      assert a + b == b;
    }
  }

  /** A string without blanks is kept whole; in particular trimming twice is trimming once. */
  lemma {:induction false} KeptNoBlanks(s: string)
    requires forall i :: 0 <= i < |s| ==> !Blank(s[i])
    ensures Kept(s) == s
    decreases |s|
  {
    if |s| > 0 {
      KeptNoBlanks(s[1..]);
    }
  }

  lemma KeptTwice(s: string)
    ensures Kept(Kept(s)) == Kept(s)
  {
    KeptNoBlanks(Kept(s));
  }

  /** The C string in `s`: the characters before the first terminator. */
  function CString(s: seq<char>): (r: seq<char>)
    requires '\0' in s
    ensures |r| < |s| && s[|r|] == '\0' && r == s[..|r|] && '\0' !in r
  {
    if s[0] == '\0' then [] else [s[0]] + CString(s[1..])
  }

  /** What `trim` leaves before the terminator: at most `sizeBuff - 1` kept characters. */
  function Trimmed(src: seq<char>, sizeBuff: nat): (r: string)
    requires '\0' in src && sizeBuff >= 1
    ensures |r| <= sizeBuff - 1 && |r| <= |Kept(CString(src))| && r == Kept(CString(src))[..|r|]
    ensures |r| < sizeBuff - 1 ==> r == Kept(CString(src))
  {
    var k := Kept(CString(src));
    if |k| <= sizeBuff - 1 then k else k[..sizeBuff - 1]
  }

  lemma KeptStep(s: string, n: nat)
    requires n < |s|
    ensures Kept(s[..n + 1]) == Kept(s[..n]) + if Blank(s[n]) then [] else [s[n]]
  {
    assert s[..n + 1] == s[..n] + [s[n]];
    KeptAppend(s[..n], [s[n]]);
  }

  /**
   * `trim(src, buff, sizeBuff)`.  `src` and `buff` may be the same array,
   * as in the driver's call: the write position never passes the read
   * position, so no character is overwritten before it is read.
   */
  method Trim(src: array<char>, buff: array<char>, sizeBuff: nat)
    requires '\0' in src[..] && sizeBuff <= buff.Length
    modifies buff
    ensures sizeBuff == 0 ==> buff[..] == old(buff[..])
    ensures sizeBuff >= 1 ==>
      var t := Trimmed(old(src[..]), sizeBuff);
      buff[..|t|] == t && buff[|t|] == '\0' &&
      forall k :: |t| < k < buff.Length ==> buff[k] == old(buff[k])
  {
    if sizeBuff < 1 {
      return;
    }
    var i, current := TrimCopy(src, buff, sizeBuff);
    TrimmedAt(old(src[..]), sizeBuff, current);
    buff[i] := '\0';
  }

  /**
   * The copy loop of `trim`: stops at the terminator or when `sizeBuff - 1`
   * characters are kept, leaving `i` kept characters of the first `current`.
   */
  method TrimCopy(src: array<char>, buff: array<char>, sizeBuff: nat) returns (i: nat, current: nat)
    requires '\0' in src[..] && 1 <= sizeBuff <= buff.Length
    modifies buff
    ensures var s := CString(old(src[..]));
      current <= |s| && i <= sizeBuff - 1 && (current == |s| || i == sizeBuff - 1) &&
      |Kept(s[..current])| == i && buff[..i] == Kept(s[..current])
    ensures forall k :: i <= k < buff.Length ==> buff[k] == old(buff[k])
  {
    ghost var s := CString(src[..]);
    ghost var s0 := src[..];
    ghost var kept: string := [];
    current := 0;
    i := 0;
    while src[current] != '\0' && i < sizeBuff - 1
      invariant i <= current <= |s|
      invariant i <= sizeBuff - 1
      invariant forall k :: current <= k < src.Length ==> src[k] == s0[k]
      invariant forall k :: i <= k < buff.Length ==> buff[k] == old(buff[k])
      invariant |kept| == i && kept == Kept(s[..current])
      invariant forall k :: 0 <= k < i ==> buff[k] == kept[k]
      decreases |s| - current
    {
      var c := src[current];
      KeptStep(s, current);
      if c != ' ' && c != '\t' && c != '\n' {
        buff[i] := c;
        kept := kept + [c];
        i := i + 1;
      }
      current := current + 1;
    }
    assert buff[..i] == kept;
  }

  lemma TrimmedAt(src: seq<char>, sizeBuff: nat, n: nat)
    requires '\0' in src && sizeBuff >= 1 && n <= |CString(src)|
    requires |Kept(CString(src)[..n])| <= sizeBuff - 1
    requires n == |CString(src)| || |Kept(CString(src)[..n])| == sizeBuff - 1
    ensures Trimmed(src, sizeBuff) == Kept(CString(src)[..n])
  {
    var s := CString(src);
    if n == |s| {
      assert s[..n] == s;
    } else {
      var a := Kept(s[..n]);
      assert s == s[..n] + s[n..];
      KeptAppend(s[..n], s[n..]);
      assert Kept(s)[..|a|] == a;
    }
  }
}
