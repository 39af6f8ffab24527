/**
 * The Windows Mixed Reality configuration store (src/drv_wmr/wmr.c): the
 * chunked read of a configuration part over the HID control channel, the
 * read of the whole store, the XOR decryption of its JSON region, and the
 * walk of the parsed JSON tree that collects the nodes with a given key
 * into a 32-slot list.
 *
 * The HID exchanges become parameters: the outcomes of `config_command_sync`
 * in order.  The key of `config_key.h` is not part of this model, so it is
 * a parameter too.
 */
module WmrConfig {
  import opened Bytes
  import opened NxJson
  import Arith
  import opened Bits

  const REPLY_SIZE: nat := 33
  const REPLY_DATA_SIZE: nat := 30
  const META_SIZE: nat := 84
  const CONFIG_HEADER_SIZE: nat := 8
  const LIST_SLOTS: nat := 32

  // -----------------------------------------------------------------------
  // read_config_part
  // -----------------------------------------------------------------------

  /** What one `config_command_sync` gave: -1, or the bytes of a control report. */
  datatype Reply = Failed | Report(bytes: seq<Byte>)

  /** A reply to the `0x0b` and `type` commands: a 33-byte control report. */
  predicate Ack(r: Reply)
  {
    r.Report? && |r.bytes| == REPLY_SIZE && r.bytes[0] == 0x02
  }

  /** A reply to the `0x08` command: 33 bytes, with 1 (more data) or 2 (done) at byte 1. */
  predicate Transfer(r: Reply)
  {
    r.Report? && |r.bytes| == REPLY_SIZE && (r.bytes[1] == 0x01 || r.bytes[1] == 0x02)
  }

  /**
   * The guard as written before a chunk is copied: its length byte must
   * not exceed `len`, nor the room left after `offset`.  It does not bound
   * the length by the 30 bytes of the reply that follow the length byte.
   */
  predicate ChunkFitsAsWritten(n: nat, offset: nat, len: nat)
  {
    !(n > len || offset + n > len)
  }

  /**
   * In the metadata read (`len` 84) a first reply claiming 84 bytes passes
   * that guard, and `memcpy` then reads 84 bytes from the 30 that follow the
   * length byte in the 33-byte reply buffer.
   */
  lemma ChunkOverreadsReply()
    ensures ChunkFitsAsWritten(META_SIZE, 0, META_SIZE) && 3 + META_SIZE > REPLY_SIZE
  {
  }

  /** The corrected guard: the chunk fits both the caller's buffer and the reply. */
  predicate ChunkFits(n: nat, offset: nat, len: nat)
  {
    ChunkFitsAsWritten(n, offset, len) && n <= REPLY_DATA_SIZE
  }

  /**
   * The data the `0x08` replies carry, from `got` on: a reply that is not
   * a transfer, or a chunk that does not fit, is a failure; a reply with 2
   * at byte 1 ends the transfer; running out of replies is a failure.
   */
  function Chunks(rs: seq<Reply>, len: nat, got: seq<Byte>): (r: Option<seq<Byte>>)
    decreases |rs|
    ensures r.Some? ==> |got| <= |r.value| && r.value[..|got|] == got
    ensures r.Some? && |got| <= len ==> |r.value| <= len
  {
    if |rs| == 0 || !Transfer(rs[0]) then None
    else if rs[0].bytes[1] != 0x01 then Some(got)
    else
      var n: nat := rs[0].bytes[2];
      if !ChunkFits(n, |got|, len) then None
      else
        var r := Chunks(rs[1..], len, got + rs[0].bytes[3..3 + n]);
        if r.Some? then assert (got + rs[0].bytes[3..3 + n])[..|got|] == got; r else r
  }

  /** `read_config_part` as a value: both commands acknowledged, then the chunks. */
  function ConfigPart(rs: seq<Reply>, len: nat): (r: Option<seq<Byte>>)
    ensures r.Some? ==> |r.value| <= len
  {
    if |rs| < 2 || !Ack(rs[0]) || !Ack(rs[1]) then None else Chunks(rs[2..], len, [])
  }

  /** The offset a run of chunk replies adds up to: the sum of their length bytes. */
  function ChunkTotal(rs: seq<Reply>): nat
  {
    if |rs| == 0 || !Transfer(rs[0]) || rs[0].bytes[1] != 0x01 then 0
    else rs[0].bytes[2] + ChunkTotal(rs[1..])
  }

  /** The offset returned is the sum of the chunk lengths read. */
  lemma {:induction false} ChunksLength(rs: seq<Reply>, len: nat, got: seq<Byte>)
    requires Chunks(rs, len, got).Some?
    ensures |Chunks(rs, len, got).value| == |got| + ChunkTotal(rs)
    decreases |rs|
  {
    if rs[0].bytes[1] == 0x01 {
      var n: nat := rs[0].bytes[2];
      ChunksLength(rs[1..], len, got + rs[0].bytes[3..3 + n]);
    }
  }

  /**
   * `read_config_part`: the `0x0b` and `type` commands must be
   * acknowledged, then each `0x08` reply either ends the transfer or adds
   * its chunk at `offset`.  The result is the number of bytes read, or -1.
   * `replies` are the outcomes of `config_command_sync` in order.
   */
  method ReadConfigPart(data: array<Byte>, len: nat, replies: seq<Reply>) returns (ret: int)
    requires len <= data.Length
    modifies data
    ensures ret >= -1 && (ret == -1 <==> ConfigPart(replies, len).None?)
    ensures ret >= 0 ==> ret == |ConfigPart(replies, len).value| && data[..ret] == ConfigPart(replies, len).value
    ensures ret >= 0 ==> data[ret..] == old(data[ret..])
  {
    if |replies| < 2 || !Ack(replies[0]) || !Ack(replies[1]) {
      return -1;
    }
    var offset: nat := 0;
    var rs := replies[2..];
    while true
      invariant offset <= len
      invariant Chunks(rs, len, data[..offset]) == ConfigPart(replies, len)
      invariant data[offset..] == old(data[offset..])
      decreases |rs|
    {
      if |rs| == 0 || !Transfer(rs[0]) {
        return -1;
      }
      var buf := rs[0].bytes;
      if buf[1] != 0x01 {
        break;
      }
      var n: nat := buf[2];
      if n > len || offset + n > len || n > REPLY_DATA_SIZE {
        return -1;
      }
      ghost var got := data[..offset];
      ghost var rest := old(data[offset..]);
      CopyChunk(data, offset, buf[3..3 + n]);
      assert data[..offset + n] == got + buf[3..3 + n];
      assert data[offset + n..] == rest[n..];
      offset := offset + n;
      rs := rs[1..];
    }
    ret := offset;
  }

  /** The `memcpy` of a chunk to `offset`. */
  method CopyChunk(data: array<Byte>, offset: nat, chunk: seq<Byte>)
    requires offset + |chunk| <= data.Length
    modifies data
    ensures data[..offset + |chunk|] == old(data[..offset]) + chunk
    ensures data[offset + |chunk|..] == old(data[offset + |chunk|..])
  {
    for j := 0 to |chunk|
      invariant data[..offset] == old(data[..offset])
      invariant data[offset..offset + j] == chunk[..j]
      invariant data[offset + |chunk|..] == old(data[offset + |chunk|..])
      invariant forall m :: offset + j <= m < data.Length ==> data[m] == old(data[m])
    {
      data[offset + j] := chunk[j];
    }
  }

  // -----------------------------------------------------------------------
  // decrypt_config
  // -----------------------------------------------------------------------

  /** `^` on two bytes. */
  function XorByte(a: Byte, b: Byte): (r: Byte)
  {
    XorBelow(a, b, 8);
    Xor(a, b)
  }

  /** `json_start` and `json_size`, the first two fields of the header. */
  function JsonStart(c: seq<Byte>): nat
    requires |c| >= CONFIG_HEADER_SIZE
  {
    U32(c, 0)
  }

  function JsonSize(c: seq<Byte>): nat
    requires |c| >= CONFIG_HEADER_SIZE
  {
    U32(c, 4)
  }

  /**
   * The loop count as written: `json_size - sizeof(uint16_t)` is computed in
   * 64-bit unsigned arithmetic, and neither field is checked against the
   * size of the store.
   */
  function DecryptCountAsWritten(c: seq<Byte>): (r: nat)
    requires |c| >= CONFIG_HEADER_SIZE
    ensures r < TWO_64
  {
    (JsonSize(c) - 2) % TWO_64
  }

  /**
   * A store whose header says the JSON region is empty (`json_size` 0)
   * makes the loop run 2^64 - 2 times, writing far past the store.
   */
  lemma DecryptOverrunsStore()
    ensures var c := Zeros(META_SIZE); DecryptCountAsWritten(c) == TWO_64 - 2 && DecryptCountAsWritten(c) > |c|
  {
    var c := Zeros(META_SIZE);
    assert JsonSize(c) == 0 by {
      assert U16(c, 4) == 0 && U16(c, 6) == 0;
    }
    Arith.DivModUnique(-2, TWO_64, -1, TWO_64 - 2);
  }

  /**
   * The corrected guard: the header is there, and the region it names (two
   * length bytes, then the JSON) lies inside the store, after the header.
   */
  predicate RegionOk(c: seq<Byte>)
  {
    |c| >= CONFIG_HEADER_SIZE && JsonSize(c) >= 2 && JsonStart(c) + 2 >= CONFIG_HEADER_SIZE &&
    JsonStart(c) + JsonSize(c) <= |c|
  }

  /** Whether byte `j` is in the encrypted region, and its key byte. */
  predicate InRegion(c: seq<Byte>, j: int)
    requires RegionOk(c)
  {
    JsonStart(c) + 2 <= j < JsonStart(c) + JsonSize(c)
  }

  function KeyByte(c: seq<Byte>, key: seq<Byte>, j: int): Byte
    requires RegionOk(c) && |key| > 0 && InRegion(c, j)
  {
    key[(j - JsonStart(c) - 2) % |key|]
  }

  /** The store with every byte of its JSON region XORed with the cyclic key. */
  function Decrypted(c: seq<Byte>, key: seq<Byte>): (r: seq<Byte>)
    requires |key| > 0
    ensures |r| == |c|
  {
    if !RegionOk(c) then c
    else seq(|c|, j requires 0 <= j < |c| => if InRegion(c, j) then XorByte(c[j], KeyByte(c, key, j)) else c[j])
  }

  /** Decryption leaves the header alone, so applying it twice gives the store back. */
  lemma DecryptTwice(c: seq<Byte>, key: seq<Byte>)
    requires |key| > 0
    ensures Decrypted(Decrypted(c, key), key) == c
  {
    if RegionOk(c) {
      var d := Decrypted(c, key);
      forall j | 0 <= j < CONFIG_HEADER_SIZE
        ensures d[j] == c[j]
      {
        assert !InRegion(c, j);
      }
      HeaderKept(c, d);
      var e := Decrypted(d, key);
      forall j | 0 <= j < |c|
        ensures e[j] == c[j]
      {
        if InRegion(c, j) {
          XorTwice(c[j], KeyByte(c, key, j));
        }
      }
    }
  }

  /** Two stores that agree on the header name the same JSON region. */
  lemma HeaderKept(c: seq<Byte>, d: seq<Byte>)
    requires |c| >= CONFIG_HEADER_SIZE && |d| >= CONFIG_HEADER_SIZE
    requires forall j :: 0 <= j < CONFIG_HEADER_SIZE ==> d[j] == c[j]
    ensures JsonStart(d) == JsonStart(c) && JsonSize(d) == JsonSize(c)
  {
    assert U16(d, 0) == U16(c, 0) && U16(d, 2) == U16(c, 2);
    assert U16(d, 4) == U16(c, 4) && U16(d, 6) == U16(c, 6);
  }

  /**
   * `decrypt_config` with the corrected guard: XOR the region in place.  The
   * guard also refuses a JSON region that starts inside the 8-byte header
   * (`json_start + 2 < 8`), which the source would decrypt along with the
   * header fields it reads its bounds from; keeping the header intact is
   * what makes decryption an involution (`DecryptTwice`).
   */
  method DecryptConfig(config: array<Byte>, key: seq<Byte>)
    requires |key| > 0
    modifies config
    ensures config[..] == Decrypted(old(config[..]), key)
  {
    if !RegionOk(config[..]) {
      return;
    }
    ghost var c := config[..];
    var start := U32(config[..], 0);
    var size := U32(config[..], 4);
    for i := 0 to size - 2
      invariant forall j :: 0 <= j < config.Length ==>
        config[j] == if start + 2 <= j < start + 2 + i then XorByte(c[j], KeyByte(c, key, j)) else c[j]
    {
      var at := start + 2 + i;
      config[at] := XorByte(config[at], key[i % |key|]);
    }
  }

  // -----------------------------------------------------------------------
  // read_config
  // -----------------------------------------------------------------------

  /**
   * The store `read_config` returns: the metadata part into an 84-byte
   * buffer whose unread bytes hold whatever was on the stack (`stack`),
   * the store size from its first two bytes, then the store part into a
   * zeroed buffer of that size, decrypted.
   */
  function ConfigStore(stack: seq<Byte>, metaReplies: seq<Reply>, dataReplies: seq<Reply>, key: seq<Byte>): (r: Option<seq<Byte>>)
    requires |stack| == META_SIZE && |key| > 0
  {
    var meta := ConfigPart(metaReplies, META_SIZE);
    if meta.None? then None
    else
      var m := meta.value + stack[|meta.value|..];
      var size := U16(m, 0);
      var part := ConfigPart(dataReplies, size);
      if part.None? then None
      else Some(Decrypted(part.value + Zeros(size - |part.value|), key))
  }

  /** `read_config` */
  method ReadConfig(stack: seq<Byte>, metaReplies: seq<Reply>, dataReplies: seq<Reply>, key: seq<Byte>)
    returns (r: Option<seq<Byte>>)
    requires |stack| == META_SIZE && |key| > 0
    ensures r == ConfigStore(stack, metaReplies, dataReplies, key)
  {
    var dataSize := ReadMeta(stack, metaReplies);
    if dataSize.None? {
      return None;
    }
    var data := new Byte[dataSize.value](_ => 0);
    var size := ReadConfigPart(data, dataSize.value, dataReplies);
    if size == -1 {
      return None;
    }
    assert data[..] == ConfigPart(dataReplies, dataSize.value).value + Zeros(dataSize.value - size) by {
      assert data[..] == data[..size] + data[size..];
    }
    DecryptConfig(data, key);
    r := Some(data[..]);
  }

  /** The metadata read of `read_config` and the store size from its first two bytes. */
  method ReadMeta(stack: seq<Byte>, metaReplies: seq<Reply>) returns (dataSize: Option<nat>)
    requires |stack| == META_SIZE
    ensures dataSize.None? <==> ConfigPart(metaReplies, META_SIZE).None?
    ensures dataSize.Some? ==>
      var m := ConfigPart(metaReplies, META_SIZE).value;
      dataSize.value == U16(m + stack[|m|..], 0)
  {
    var meta := new Byte[META_SIZE](i requires 0 <= i < META_SIZE => stack[i]);
    var size := ReadConfigPart(meta, META_SIZE, metaReplies);
    if size == -1 {
      return None;
    }
    assert meta[..] == ConfigPart(metaReplies, META_SIZE).value + stack[size..] by {
      assert meta[..] == meta[..size] + meta[size..];
    }
    var lo: nat, hi: nat := meta[0], meta[1];
    dataSize := Some(lo + hi * TWO_8);
  }

  // -----------------------------------------------------------------------
  // process_nxjson_obj and resetList
  // -----------------------------------------------------------------------

  predicate KeyIs(n: Json, key: seq<Byte>)
  {
    n.key == Some(key)
  }

  /**
   * The matching nodes in the order `process_nxjson_obj` meets them from
   * `sibs[i]`: the node, then its later siblings (each with everything
   * below it), then its own children.  `i == |sibs|` is the null node.
   */
  function Visit(sibs: seq<Json>, i: nat, key: seq<Byte>): (r: seq<Json>)
    requires i <= |sibs|
    decreases sibs, |sibs| - i
    ensures forall k :: 0 <= k < |r| ==> KeyIs(r[k], key)
  {
    if i == |sibs| then []
    else
      var n := sibs[i];
      (if KeyIs(n, key) then [n] else []) + Visit(sibs, i + 1, key) + Visit(n.children, 0, key)
  }

  /** The number of nodes with this key in `sibs[i..]` and below them: an independent count. */
  function CountFrom(sibs: seq<Json>, i: nat, key: seq<Byte>): nat
    requires i <= |sibs|
    decreases sibs, |sibs| - i
  {
    if i == |sibs| then 0
    else (if KeyIs(sibs[i], key) then 1 else 0) + CountFrom(sibs[i].children, 0, key) + CountFrom(sibs, i + 1, key)
  }

  /** The walk meets every node with the key exactly once. */
  lemma {:induction false} VisitMeetsAll(sibs: seq<Json>, i: nat, key: seq<Byte>)
    requires i <= |sibs|
    ensures |Visit(sibs, i, key)| == CountFrom(sibs, i, key)
    decreases sibs, |sibs| - i
  {
    if i < |sibs| {
      VisitMeetsAll(sibs, i + 1, key);
      VisitMeetsAll(sibs[i].children, 0, key);
    }
  }

  /** The list after storing `n` in its first free slot, if any. */
  function Place(list: seq<Option<Json>>, n: Json): (r: seq<Option<Json>>)
    ensures |r| == |list|
  {
    if |list| == 0 then []
    else if list[0].None? then [Some(n)] + list[1..]
    else [list[0]] + Place(list[1..], n)
  }

  function PlaceAll(list: seq<Option<Json>>, ns: seq<Json>): (r: seq<Option<Json>>)
    decreases |ns|
    ensures |r| == |list|
  {
    if |ns| == 0 then list else PlaceAll(Place(list, ns[0]), ns[1..])
  }

  /** `ns` in the first slots and the rest free. */
  function Packed(ns: seq<Json>): (r: seq<Option<Json>>)
    requires |ns| <= LIST_SLOTS
    ensures |r| == LIST_SLOTS
  {
    seq(LIST_SLOTS, k requires 0 <= k < LIST_SLOTS => if k < |ns| then Some(ns[k]) else None)
  }

  /** From a reset list the slots hold the first 32 matches, in order. */
  lemma {:induction false} PlaceAllPacked(ns: seq<Json>, more: seq<Json>)
    requires |ns| <= LIST_SLOTS
    ensures var all := ns + more;
      PlaceAll(Packed(ns), more) == Packed(all[..if |all| < LIST_SLOTS then |all| else LIST_SLOTS])
    decreases |more|
  {
    var all := ns + more;
    if |more| == 0 {
      assert all == ns;
    } else if |ns| == LIST_SLOTS {
      PlaceFull(Packed(ns), more[0]);
      PlaceAllPacked(ns, more[1..]);
      assert (ns + more[1..])[..LIST_SLOTS] == ns == all[..LIST_SLOTS];
    } else {
      PlaceNext(ns, more[0]);
      PlaceAllPacked(ns + [more[0]], more[1..]);
      assert ns + [more[0]] + more[1..] == all;
    }
  }

  lemma {:induction false} PlaceFull(list: seq<Option<Json>>, n: Json)
    requires forall k :: 0 <= k < |list| ==> list[k].Some?
    ensures Place(list, n) == list
    decreases |list|
  {
    if |list| > 0 {
      PlaceFull(list[1..], n);
    }
  }

  lemma PlaceNext(ns: seq<Json>, n: Json)
    requires |ns| < LIST_SLOTS
    ensures Place(Packed(ns), n) == Packed(ns + [n])
  {
    PlaceAt(Packed(ns), |ns|, n);
  }

  lemma {:induction false} PlaceAt(list: seq<Option<Json>>, f: nat, n: Json)
    requires f < |list| && list[f].None? && forall k :: 0 <= k < f ==> list[k].Some?
    ensures Place(list, n) == list[f := Some(n)]
    decreases f
  {
    if f > 0 {
      PlaceAt(list[1..], f - 1, n);
    }
  }

  /** `resetList`: every slot free. */
  method ResetList(list: array<Option<Json>>)
    requires list.Length == LIST_SLOTS
    modifies list
    ensures list[..] == Packed([])
  {
    for k := 0 to LIST_SLOTS
      invariant forall m :: 0 <= m < k ==> list[m].None?
    {
      list[k] := None;
    }
  }

  /** The loop storing a matching node in the first free slot. */
  method Store(list: array<Option<Json>>, n: Json)
    modifies list
    ensures list[..] == Place(old(list[..]), n)
  {
    for k := 0 to list.Length
      invariant forall m :: 0 <= m < k ==> list[m].Some?
      invariant list[..] == old(list[..])
    {
      if list[k].None? {
        PlaceAt(list[..], k, n);
        list[k] := Some(n);
        return;
      }
    }
    PlaceFull(list[..], n);
  }

  /** `process_nxjson_obj` on `sibs[i]` (null when `i == |sibs|`). */
  method ProcessObj(sibs: seq<Json>, i: nat, list: array<Option<Json>>, key: seq<Byte>)
    requires i <= |sibs|
    modifies list
    ensures list[..] == PlaceAll(old(list[..]), Visit(sibs, i, key))
    decreases sibs, |sibs| - i
  {
    if i == |sibs| {
      return;
    }
    var n := sibs[i];
    if n.key.Some? && n.key.value == key {
      Store(list, n);
    }
    ProcessObj(sibs, i + 1, list, key);
    ProcessObj(n.children, 0, list, key);
    PlaceAllAppend(old(list[..]), if KeyIs(n, key) then [n] else [], Visit(sibs, i + 1, key), Visit(n.children, 0, key));
  }

  lemma {:induction false} PlaceAllAppend(list: seq<Option<Json>>, a: seq<Json>, b: seq<Json>, c: seq<Json>)
    ensures PlaceAll(list, a + b + c) == PlaceAll(PlaceAll(PlaceAll(list, a), b), c)
  {
    PlaceAllConcat(list, a, b);
    PlaceAllConcat(list, a + b, c);
  }

  lemma {:induction false} PlaceAllConcat(list: seq<Option<Json>>, a: seq<Json>, b: seq<Json>)
    ensures PlaceAll(list, a + b) == PlaceAll(PlaceAll(list, a), b)
    decreases |a|
  {
    if |a| > 0 {
      assert (a + b)[1..] == a[1..] + b;
      PlaceAllConcat(Place(list, a[0]), a[1..], b);
    } else {
      assert a + b == b;
    }
  }

  /** From a reset list, the walk from a root leaves the first 32 matching nodes in the slots, in order. */
  lemma WalkFromReset(root: Json, key: seq<Byte>)
    ensures var ms := Visit([root], 0, key);
      PlaceAll(Packed([]), ms) == Packed(ms[..if |ms| < LIST_SLOTS then |ms| else LIST_SLOTS])
  {
    var ms := Visit([root], 0, key);
    PlaceAllPacked([], ms);
    assert [] + ms == ms;
  }
}
