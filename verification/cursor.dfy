/**
 * The write side of the packet code: a pointer into an outgoing report that
 * every `WRITE*` stores through and advances past the bytes it stored.  (The
 * read side needs no state of its own: a decoder's read pointer is a local
 * index, advanced past each field the `Bytes` readers extract.)
 */
module Cursor {
  import opened Bytes

  /** `WRITE8` at `pos`: the value is stored as an `unsigned char`, so only its low byte. */
  method Put8(buf: array<Byte>, pos: nat, v: nat) returns (next: nat)
    requires pos + 1 <= buf.Length
    modifies buf
    ensures next == pos + 1
    ensures buf[..next] == old(buf[..pos]) + [v % TWO_8]
    ensures forall k :: next <= k < buf.Length ==> buf[k] == old(buf[k])
  {
    buf[pos] := v % TWO_8;
    next := pos + 1;
  }

  /** `WRITE16` at `pos`: the low byte, then the next one. */
  method Put16(buf: array<Byte>, pos: nat, v: nat) returns (next: nat)
    requires pos + 2 <= buf.Length && v < TWO_16
    modifies buf
    ensures next == pos + 2
    ensures buf[..next] == old(buf[..pos]) + Le16(v)
    ensures forall k :: next <= k < buf.Length ==> buf[k] == old(buf[k])
  {
    buf[pos] := v % TWO_8;
    buf[pos + 1] := v / TWO_8;
    next := pos + 2;
  }

  /** `memcpy` of `bytes` into the report at `pos`. */
  method PutBytes(buf: array<Byte>, pos: nat, bytes: seq<Byte>) returns (next: nat)
    requires pos + |bytes| <= buf.Length
    modifies buf
    ensures next == pos + |bytes|
    ensures buf[..next] == old(buf[..pos]) + bytes
    ensures forall k :: next <= k < buf.Length ==> buf[k] == old(buf[k])
  {
    var i := 0;
    while i < |bytes|
      invariant 0 <= i <= |bytes|
      invariant buf[..pos + i] == old(buf[..pos]) + bytes[..i]
      invariant forall k :: pos + i <= k < buf.Length ==> buf[k] == old(buf[k])
    {
      buf[pos + i] := bytes[i];
      i := i + 1;
    }
    next := pos + |bytes|;
  }
}
