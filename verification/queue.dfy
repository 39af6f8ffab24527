/**
 * The circular byte queue `ohmdq`: `max` records of `elemSize` bytes each,
 * stored back to back in one buffer and addressed by byte offsets that wrap
 * modulo `max * elemSize`.  The mutex is not modelled (single-threaded use).
 */
module OhmdQueue {
  import opened Bytes
  import opened Arith

  /** Offsets of slot `s` and of the slot after it stay inside the buffer. */
  lemma SlotInBuffer(s: nat, max: nat, elemSize: nat)
    requires s < max
    ensures s * elemSize + elemSize <= max * elemSize
  {
    assert (max - s - 1) * elemSize >= 0;
  }

  /** Advancing a byte offset by one record is advancing the slot index, wrapping at `max`. */
  lemma AdvanceOffset(s: nat, max: nat, elemSize: nat)
    requires s < max && elemSize > 0
    ensures (s * elemSize + elemSize) % (max * elemSize) == Wrap(s + 1, max) * elemSize
  {
    SlotInBuffer(s, max, elemSize);
    var x, y := s * elemSize + elemSize, max * elemSize;
    if s + 1 < max {
      SlotInBuffer(s + 1, max, elemSize);
      assert x == (s + 1) * elemSize;
      ModBelow(x, y);
    } else {
      assert x == y;
      ModSelf(y);
    }
  }

  lemma ModBelow(x: nat, y: nat)
    requires x < y
    ensures x % y == x
  {
  }

  lemma ModSelf(y: nat)
    requires y > 0
    ensures y % y == 0
  {
  }

  /** `x mod max` for an `x` below `2 * max`, written without division. */
  function Wrap(x: nat, max: nat): (r: nat)
    requires x < 2 * max
    ensures r < max
  {
    if x < max then x else x - max
  }

  /** Distinct slots occupy disjoint byte ranges. */
  lemma SlotsDisjoint(s: nat, t: nat, elemSize: nat)
    requires s < t
    ensures s * elemSize + elemSize <= t * elemSize
  {
    assert (t - s - 1) * elemSize >= 0;
  }

  class Queue {
    var readPos: nat
    var writePos: nat
    var size: nat
    const max: nat
    const elemSize: nat
    const elems: array<Byte>

    /** Slot index of the oldest record (`readPos / elemSize`). */
    ghost var readSlot: nat
    /** The queued records, oldest first. */
    ghost var Contents: seq<seq<Byte>>

    /** Slot holding the `k`-th oldest record. */
    ghost function SlotOf(k: nat): nat
      reads this
      requires readSlot < max && k <= max
    {
      Wrap(readSlot + k, max)
    }

    ghost predicate Valid()
      reads this, elems
    {
      elemSize > 0 &&
      elems.Length == max * elemSize &&
      size == |Contents| <= max &&
      (max == 0 ==> readPos == 0 && writePos == 0) &&
      (max > 0 ==>
        readSlot < max &&
        readPos == readSlot * elemSize &&
        writePos == SlotOf(size) * elemSize &&
        forall k :: 0 <= k < size ==> Holds(SlotOf(k), Contents[k]))
    }

    /** Slot `s` of the buffer holds exactly `rec`. */
    ghost predicate Holds(s: nat, rec: seq<Byte>)
      reads this, elems
    {
      |rec| == elemSize &&
      s * elemSize + elemSize <= elems.Length &&
      forall i :: 0 <= i < elemSize ==> elems[s * elemSize + i] == rec[i]
    }

    /** `ohmdq_create`: an empty queue for `max` records of `elemSize` bytes. */
    constructor (elemSize: nat, max: nat)
      requires elemSize > 0
      ensures Valid() && fresh(elems)
      ensures this.elemSize == elemSize && this.max == max
      ensures Contents == [] && size == 0 && readPos == 0 && writePos == 0
    {
      this.elems := new Byte[max * elemSize](_ => 0);
      this.max := max;
      this.elemSize := elemSize;
      readPos := 0;
      writePos := 0;
      size := 0;
      readSlot := 0;
      Contents := [];
    }

    /** `ohmdq_push`: append a copy of `elem` unless the queue is full. */
    method Push(elem: seq<Byte>) returns (ok: bool)
      requires Valid() && |elem| == elemSize
      modifies this, elems
      ensures Valid()
      ensures ok <==> old(size) < max
      ensures ok ==> Contents == old(Contents) + [elem] && size == old(size) + 1
      ensures !ok ==> Contents == old(Contents) && size == old(size) &&
                      elems[..] == old(elems[..]) && readPos == old(readPos) && writePos == old(writePos)
    {
      if size < max {
        var w := SlotOf(size);
        SlotInBuffer(w, max, elemSize);
        forall i | 0 <= i < elemSize {
          elems[writePos + i] := elem[i];
        }
        forall k | 0 <= k < size
          ensures Holds(SlotOf(k), Contents[k])
        {
          var s := SlotOf(k);
          if s < w { SlotsDisjoint(s, w, elemSize); } else { SlotsDisjoint(w, s, elemSize); }
        }
        AdvanceOffset(w, max, elemSize);
        writePos := (writePos + elemSize) % (max * elemSize);
        size := size + 1;
        Contents := Contents + [elem];
        ok := true;
      } else {
        ok := false;
      }
    }

    /** `ohmdq_pop`: remove the oldest record and hand it back, unless the queue is empty. */
    method Pop() returns (ok: bool, out: seq<Byte>)
      requires Valid()
      modifies this
      ensures Valid()
      ensures ok <==> old(size) > 0
      ensures ok ==> out == old(Contents)[0] && Contents == old(Contents)[1..] && size == old(size) - 1
      ensures !ok ==> out == [] && Contents == old(Contents) && size == old(size) &&
                      readPos == old(readPos) && writePos == old(writePos)
    {
      if size > 0 {
        assert Holds(SlotOf(0), Contents[0]);
        SlotInBuffer(readSlot, max, elemSize);
        out := elems[readPos..readPos + elemSize];
        assert out == Contents[0];
        AdvanceOffset(readSlot, max, elemSize);
        readPos := (readPos + elemSize) % (max * elemSize);
        ghost var oldSlot := readSlot;
        readSlot := Wrap(readSlot + 1, max);
        size := size - 1;
        Contents := Contents[1..];
        forall k | 0 <= k < size
          ensures Holds(SlotOf(k), Contents[k])
        {
          assert SlotOf(k) == Wrap(oldSlot + k + 1, max);
        }
        assert SlotOf(size) == Wrap(oldSlot + size + 1, max);
        ok := true;
      } else {
        ok, out := false, [];
      }
    }

    /** `ohmdq_get_size` */
    function GetSize(): (n: nat)
      reads this, elems
      requires Valid()
      ensures n == |Contents| && n <= max
    {
      size
    }

    /** `ohmdq_get_max` */
    function GetMax(): (n: nat)
      reads this
      ensures n == max
    {
      max
    }
  }

  /** Both byte offsets stay inside the buffer and on record boundaries. */
  lemma OffsetsAligned(q: Queue)
    requires q.Valid() && q.max > 0
    ensures q.readPos < q.max * q.elemSize && q.readPos % q.elemSize == 0
    ensures q.writePos < q.max * q.elemSize && q.writePos % q.elemSize == 0
  {
    SlotInBuffer(q.readSlot, q.max, q.elemSize);
    SlotInBuffer(q.SlotOf(q.size), q.max, q.elemSize);
    MultipleMod(q.readSlot, q.elemSize);
    MultipleMod(q.SlotOf(q.size), q.elemSize);
  }

  /**
   * One round of the push/pop unit scenario on a queue of ten 4-byte
   * records: ten pushes succeed, an eleventh is refused, and ten pops return
   * the values in push order.
   */
  method Round(q: Queue) returns (refused: bool, popped: seq<nat>)
    requires q.Valid() && q.elemSize == 4 && q.max == 10 && q.size == 0
    modifies q, q.elems
    ensures q.Valid() && q.size == 0
    ensures refused && popped == seq(10, i => i)
  {
    FillTen(q);
    var ok := q.Push(Le32(0));
    refused := !ok;
    popped := DrainTen(q);
    assert forall k :: 0 <= k < 10 ==> popped[k] == seq(10, i => i)[k];
  }

  /** Ten pushes of the values 0..9 onto an empty queue of ten records. */
  method FillTen(q: Queue)
    requires q.Valid() && q.elemSize == 4 && q.max == 10 && q.size == 0
    modifies q, q.elems
    ensures q.Valid() && q.size == 10
    ensures forall k :: 0 <= k < 10 ==> q.Contents[k] == Le32(k)
  {
    var i := 0;
    while i < 10
      invariant 0 <= i <= 10
      invariant q.Valid() && q.size == i
      invariant forall k :: 0 <= k < i ==> q.Contents[k] == Le32(k)
    {
      var ok := q.Push(Le32(i));
      i := i + 1;
    }
  }

  /** Ten pops from a full queue holding 0..9 give back 0..9. */
  method DrainTen(q: Queue) returns (popped: seq<nat>)
    requires q.Valid() && q.elemSize == 4 && q.max == 10 && q.size == 10
    requires forall k :: 0 <= k < 10 ==> q.Contents[k] == Le32(k)
    modifies q
    ensures q.Valid() && q.size == 0
    ensures |popped| == 10 && forall k :: 0 <= k < 10 ==> popped[k] == k
  {
    popped := [];
    var i := 0;
    while i < 10
      invariant 0 <= i <= 10
      invariant q.Valid() && q.size == 10 - i
      invariant forall k :: 0 <= k < 10 - i ==> q.Contents[k] == Le32(k + i)
      invariant |popped| == i && forall k :: 0 <= k < i ==> popped[k] == k
    {
      var got, out := q.Pop();
      popped := popped + [U32(out, 0)];
      i := i + 1;
    }
  }

  /** Both rounds of the unit scenario; the second one runs over wrapped offsets. */
  method PushPopScenario() returns (first: seq<nat>, second: seq<nat>)
    ensures first == second == seq(10, i => i)
  {
    var q := new Queue(4, 10);
    assert q.GetMax() == 10;
    var refused;
    refused, first := Round(q);
    refused, second := Round(q);
  }
}
