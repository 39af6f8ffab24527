/**
 * The Rift S radio link to the controllers: commands wait in a queue, the
 * head is sent when no reply is outstanding, and the reply is recognised by
 * a cleared busy flag and a new sequence number, at which point the head is
 * popped and its completion runs.  One completion is the JSON block reader,
 * which accumulates a configuration file in 32-byte pieces and re-queues
 * itself until the whole file is in.
 */
module RiftSRadio {
  import opened Bytes

  const RADIO_COMMAND_REPORT: Byte := 0x12
  const CMD_BYTES_SIZE: nat := 52
  /** `response_bytes` of `rift_s_hmd_radio_response_t`; the report is 200 bytes. */
  const RESPONSE_BYTES_SIZE: nat := 197
  const RESPONSE_REPORT_SIZE: nat := 200
  const MAX_JSON_LEN: nat := 4096
  const JSON_READ_CHUNK: nat := 0x20

  /** A completion function of the controller code, identified by the controller it serves. */
  datatype Client = NoClient | ControllerConfig(deviceId: nat) | ControllerCalibration(deviceId: nat)

  /** `rift_s_radio_json_read_state`: owned by the one pending command that carries it. */
  datatype JsonRead = JsonRead(deviceId: nat, client: Client, curOffset: nat, blockLen: nat, data: seq<Byte>)

  /** A command's completion: none, a client's function, or the JSON block reader. */
  datatype Callback = NoCallback | Notify(client: Client) | ReadJsonBlock(read: JsonRead)

  /** `rift_s_hmd_radio_command_t` without its report id: the target and the 52 command bytes. */
  datatype RadioCommand = RadioCommand(deviceId: nat, cmdBytes: seq<Byte>)

  datatype Command = Command(packet: RadioCommand, cb: Callback)

  /** A call of a client's completion function. */
  datatype Completion = Completion(client: Client, success: bool, bytes: seq<Byte>)

  /** The result of `hid_get_feature_report` on the response report. */
  datatype Response = Response(ret: int, seqnum: Byte, busy: Byte, bytes: seq<Byte>)

  function Min(a: int, b: int): int
  {
    if a < b then a else b
  }

  // -----------------------------------------------------------------------
  // read_json_cb
  // -----------------------------------------------------------------------

  /**
   * What a waiting reader satisfies: a 32-bit offset, and data that never
   * passes the announced length.
   */
  predicate ReadOk(r: JsonRead)
  {
    |r.data| <= r.blockLen <= MAX_JSON_LEN && r.curOffset < TWO_32
  }

  datatype JsonStep = Finish(completion: Completion) | Continue(read: JsonRead, cmd: seq<Byte>)

  /** The read command for `len` bytes at `offset`: 0x2b, reply size 0x20, timeout 1000, LE offset, length. */
  function JsonReadCmd(offset: nat, len: Byte): (r: seq<Byte>)
    requires offset < TWO_32
    ensures |r| == 10 && U32(r, 4) == offset && r[8] == len
  {
    [0x2B, 0x20, 0xE8, 0x03] + Le32(offset) + [len, 0x00]
  }

  /** The first command of a block read: offset 0, 32 bytes. */
  const JSON_FIRST_CMD: seq<Byte> := [0x2B, 0x20, 0xE8, 0x03, 0x00, 0x00, 0x00, 0x00, 0x20, 0x00]

  /**
   * The end of `read_json_cb`: report the whole block, or ask for the next
   * piece at the current offset and advance the 32-bit offset past it.
   */
  function JsonNext(r: JsonRead): (s: JsonStep)
    requires |r.data| <= MAX_JSON_LEN && r.blockLen <= MAX_JSON_LEN && r.curOffset < TWO_32
    ensures s.Finish? <==> |r.data| >= r.blockLen
    ensures s.Finish? ==> s.completion == Completion(r.client, true, r.data)
    ensures s.Continue? ==>
      var readLen := Min(JSON_READ_CHUNK, r.blockLen - |r.data|);
      ReadOk(s.read) && 0 < readLen <= JSON_READ_CHUNK && s.cmd == JsonReadCmd(r.curOffset, readLen) &&
      s.read == r.(curOffset := (r.curOffset + readLen) % TWO_32)
  {
    if |r.data| >= r.blockLen then Finish(Completion(r.client, true, r.data))
    else
      var readLen := Min(JSON_READ_CHUNK, r.blockLen - |r.data|);
      Continue(r.(curOffset := (r.curOffset + readLen) % TWO_32), JsonReadCmd(r.curOffset, readLen))
  }

  /**
   * `read_json_cb`, with two corrections (see `ReadJsonAsWritten` and
   * `CopyLenAsWritten`): a failure is reported as a failure, and no more
   * bytes are appended than the reply holds.  The first reply is the header:
   * at least four bytes, file type 1, and a block length of at most 4096;
   * later replies append their bytes, cut to what the block still lacks.
   */
  function ReadJson(r: JsonRead, success: bool, bytes: seq<Byte>, len: int): (s: JsonStep)
    requires ReadOk(r)
    requires success ==> |bytes| == RESPONSE_BYTES_SIZE && len <= RESPONSE_BYTES_SIZE
    ensures s.Finish? ==> s.completion.client == r.client
    ensures s.Continue? ==> ReadOk(s.read) && |s.cmd| == 10 && s.read.deviceId == r.deviceId &&
                            s.read.client == r.client
  {
    var fail := Finish(Completion(r.client, false, r.data));
    if !success || len < 5 then fail
    else
      var replyLen := bytes[4];
      if r.curOffset == 0 then
        if replyLen < 4 then fail
        else
          var fileType := U16(bytes, 5);
          var blockLen := U16(bytes, 7);
          if fileType != 1 || blockLen > MAX_JSON_LEN then fail
          else JsonNext(r.(blockLen := blockLen, curOffset := 4))
      else
        var n := Min(Min(replyLen, r.blockLen - |r.data|), len - 5);
        JsonNext(r.(data := r.data + bytes[5..5 + n]))
  }

  /**
   * The header reply is accepted exactly when it has at least four bytes,
   * file type 1 and a length of at most 4096; otherwise the client hears of
   * a failure.  An accepted header starts the reading at offset 4.
   */
  lemma JsonHeader(r: JsonRead, bytes: seq<Byte>, len: int)
    requires ReadOk(r) && r.curOffset == 0 && r.data == []
    requires |bytes| == RESPONSE_BYTES_SIZE && 5 <= len <= RESPONSE_BYTES_SIZE
    ensures var s := ReadJson(r, true, bytes, len);
      var accepted := bytes[4] >= 4 && U16(bytes, 5) == 1 && U16(bytes, 7) <= MAX_JSON_LEN;
      (accepted ==> (s.Continue? && s.read.blockLen == U16(bytes, 7) && s.read.data == [] &&
                     s.read.curOffset == 4 + Min(JSON_READ_CHUNK, U16(bytes, 7)) && U32(s.cmd, 4) == 4) ||
                    (s.Finish? && U16(bytes, 7) == 0 && s.completion.success)) &&
      (!accepted ==> s.Finish? && !s.completion.success)
  {
  }

  /**
   * A later reply appends its bytes, cut to what the block lacks, and then
   * either completes the block or asks for the next at most 32 bytes at the
   * offset reached so far.
   */
  lemma JsonAppend(r: JsonRead, bytes: seq<Byte>, len: int)
    requires ReadOk(r) && r.curOffset != 0
    requires |bytes| == RESPONSE_BYTES_SIZE && 5 <= len <= RESPONSE_BYTES_SIZE
    ensures var n := Min(Min(bytes[4], r.blockLen - |r.data|), len - 5);
      var data := r.data + bytes[5..5 + n];
      var s := ReadJson(r, true, bytes, len);
      |data| <= r.blockLen &&
      (s.Finish? <==> |data| == r.blockLen) &&
      (s.Finish? ==> s.completion == Completion(r.client, true, data)) &&
      (s.Continue? ==> s.read.data == data && U32(s.cmd, 4) == r.curOffset &&
                       s.cmd[8] == Min(JSON_READ_CHUNK, r.blockLen - |data|))
  {
  }

  /**
   * `read_json_cb` as written: its failure path hands the client the
   * success flag it was called with, so every completion reports `success`.
   */
  function ReadJsonAsWritten(r: JsonRead, success: bool, bytes: seq<Byte>, len: int): (s: JsonStep)
    requires ReadOk(r)
    requires success ==> |bytes| == RESPONSE_BYTES_SIZE && len <= RESPONSE_BYTES_SIZE
    ensures s.Finish? ==> s.completion.success == success
  {
    match ReadJson(r, success, bytes, len)
    case Finish(c) => Finish(c.(success := success))
    case Continue(next, cmd) => Continue(next, cmd)
  }

  /** A reply too short to hold a header is reported to the client as a success, with no data. */
  lemma ShortReplyReportsSuccess(r: JsonRead, bytes: seq<Byte>)
    requires ReadOk(r) && |bytes| == RESPONSE_BYTES_SIZE
    ensures ReadJsonAsWritten(r, true, bytes, 3) == Finish(Completion(r.client, true, r.data))
    ensures ReadJson(r, true, bytes, 3) == Finish(Completion(r.client, false, r.data))
  {
  }

  /** The number of bytes the source appends: the reply's own length byte, cut only to the block. */
  function CopyLenAsWritten(r: JsonRead, replyLen: Byte): (n: nat)
    requires ReadOk(r)
    ensures n <= replyLen && |r.data| + n <= r.blockLen
  {
    Min(replyLen, r.blockLen - |r.data|)
  }

  /**
   * A reply whose length byte says 255 while the block still lacks 4096
   * bytes makes the source copy 255 bytes from the 192 that follow the
   * length byte in the response.
   */
  lemma CopyOverreadsResponse()
    ensures var r := JsonRead(0, NoClient, 4, MAX_JSON_LEN, []);
      ReadOk(r) && CopyLenAsWritten(r, 0xFF) == 0xFF && CopyLenAsWritten(r, 0xFF) > RESPONSE_BYTES_SIZE - 5
  {
  }

  // -----------------------------------------------------------------------
  // The command queue and rift_s_radio_update, on values
  // -----------------------------------------------------------------------

  /** A command's completion can run: a JSON reader in it is in a good state. */
  predicate CommandOk(c: Command)
  {
    |c.packet.cmdBytes| == CMD_BYTES_SIZE && (c.cb.ReadJsonBlock? ==> ReadOk(c.cb.read))
  }

  /**
   * A reply as the HID layer delivers it.  The source asserts more than
   * three bytes for a completed reply, one that is not busy and carries a new
   * sequence number.  The sequence number it is compared with belongs to the
   * radio state, so this state-free predicate asks it of every reply that is
   * not busy: a repeated 2- or 3-byte reply, which the source would ignore,
   * is excluded too.
   */
  predicate ResponseOk(r: Response)
  {
    |r.bytes| == RESPONSE_BYTES_SIZE && r.ret <= RESPONSE_REPORT_SIZE && (r.ret >= 2 && r.busy == 0 ==> r.ret > 3)
  }

  /** The radio state: the flag, the last sequence number, the queue, and what went out and came back. */
  datatype RadioState = RadioState(resultPending: bool, lastSeqnum: int, queue: seq<Command>,
                                   sent: seq<RadioCommand>, completions: seq<Completion>)

  /** While a reply is outstanding its command is still at the head of the queue. */
  predicate Inv(st: RadioState)
  {
    (st.resultPending ==> |st.queue| > 0) && forall k :: 0 <= k < |st.queue| ==> CommandOk(st.queue[k])
  }

  /** The command bytes as `queue_command` leaves them in the zeroed command. */
  function Pad(cmd: seq<Byte>): (r: seq<Byte>)
    requires |cmd| <= CMD_BYTES_SIZE
    ensures |r| == CMD_BYTES_SIZE && r[..|cmd|] == cmd
  {
    cmd + Zeros(CMD_BYTES_SIZE - |cmd|)
  }

  /** A completion call, made only when there is a function to call. */
  function Told(c: Completion): (r: seq<Completion>)
    ensures |r| <= 1 && (r == [] <==> c.client.NoClient?)
  {
    if c.client.NoClient? then [] else [c]
  }

  function Append(st: RadioState, c: Completion): RadioState
  {
    st.(completions := st.completions + Told(c))
  }

  /** Running a popped command's completion with the reply bytes. */
  function Deliver(st: RadioState, cb: Callback, bytes: seq<Byte>, len: int): (r: RadioState)
    requires Inv(st) && |bytes| == RESPONSE_BYTES_SIZE && 0 <= len <= RESPONSE_BYTES_SIZE
    requires cb.ReadJsonBlock? ==> ReadOk(cb.read)
    ensures Inv(r) && r.resultPending == st.resultPending && r.lastSeqnum == st.lastSeqnum && r.sent == st.sent
    ensures r.queue == st.queue || (|r.queue| == |st.queue| + 1 && r.queue[..|st.queue|] == st.queue)
    ensures st.completions <= r.completions
  {
    match cb
    case NoCallback => st
    case Notify(client) => Append(st, Completion(client, true, bytes[..len]))
    case ReadJsonBlock(read) =>
      match ReadJson(read, true, bytes, len)
      case Finish(c) => Append(st, c)
      case Continue(next, cmd) =>
        st.(queue := st.queue + [Command(RadioCommand(read.deviceId, Pad(cmd)), ReadJsonBlock(next))])
  }

  /** The send step of `rift_s_radio_update`: the head goes out only when no reply is outstanding. */
  function SendHead(st: RadioState): (r: RadioState)
    ensures r.queue == st.queue && r.lastSeqnum == st.lastSeqnum && r.completions == st.completions
    ensures !st.resultPending && |st.queue| > 0 ==> r.resultPending && r.sent == st.sent + [st.queue[0].packet]
    ensures st.resultPending || |st.queue| == 0 ==> r == st
  {
    if !st.resultPending && |st.queue| > 0 then st.(sent := st.sent + [st.queue[0].packet], resultPending := true)
    else st
  }

  /**
   * `rift_s_radio_update` on values: send the head if possible; with a reply
   * outstanding, read one response; a failed read ends the update; a busy
   * or repeated reply ends it too (a busy one records its sequence number);
   * a fresh one pops the head, runs its completion and starts over.  When
   * the responses run out the next read counts as failed.
   */
  function Run(st: RadioState, replies: seq<Response>): (r: RadioState)
    requires Inv(st) && forall k :: 0 <= k < |replies| ==> ResponseOk(replies[k])
    ensures Inv(r) && st.sent <= r.sent && st.completions <= r.completions
    decreases |replies|
  {
    var s1 := SendHead(st);
    if !s1.resultPending || |replies| == 0 then s1
    else
      var resp := replies[0];
      if resp.ret < 2 then s1
      else if resp.busy != 0 || resp.seqnum == s1.lastSeqnum then
        if resp.busy != 0 then s1.(lastSeqnum := resp.seqnum) else s1
      else
        var s2 := s1.(lastSeqnum := resp.seqnum, resultPending := false, queue := s1.queue[1..]);
        assert ResponseOk(resp) && CommandOk(s1.queue[0]);
        assert Inv(s2);
        Run(Deliver(s2, s1.queue[0].cb, resp.bytes, resp.ret - 3), replies[1..])
  }

  /** The packets of the commands, in queue order. */
  function Packets(q: seq<Command>): (r: seq<RadioCommand>)
    ensures |r| == |q|
  {
    if |q| == 0 then [] else Packets(q[..|q| - 1]) + [q[|q| - 1].packet]
  }

  lemma {:induction false} PacketsSlice(q: seq<Command>, i: nat)
    requires i <= |q|
    ensures Packets(q[i..]) == Packets(q)[i..] && Packets(q[..i]) == Packets(q)[..i]
    decreases |q|
  {
    if i < |q| {
      PacketsSlice(q[..|q| - 1], i);
      assert q[..|q| - 1][i..] == q[i..|q| - 1] && q[i..][..|q[i..]| - 1] == q[i..|q| - 1];
      assert q[..|q| - 1][..i] == q[..i];
    } else {
      assert q[..i] == q;
    }
  }

  /** Every command ever queued, in order: those already sent, then those still waiting to go. */
  function Stream(st: RadioState): seq<RadioCommand>
    requires st.resultPending ==> |st.queue| > 0
  {
    st.sent + Packets(st.queue)[if st.resultPending then 1 else 0..]
  }

  lemma SendHeadKeepsStream(st: RadioState)
    requires st.resultPending ==> |st.queue| > 0
    ensures Stream(SendHead(st)) == Stream(st)
  {
    if !st.resultPending && |st.queue| > 0 {
      assert Packets(st.queue)[0] == st.queue[0].packet by {
        PacketsSlice(st.queue, 1);
        assert st.queue[..1] == [st.queue[0]];
      }
      assert [st.queue[0].packet] + Packets(st.queue)[1..] == Packets(st.queue);
    }
  }

  lemma DeliverExtendsStream(st: RadioState, cb: Callback, bytes: seq<Byte>, len: int)
    requires Inv(st) && !st.resultPending && |bytes| == RESPONSE_BYTES_SIZE && 0 <= len <= RESPONSE_BYTES_SIZE
    requires cb.ReadJsonBlock? ==> ReadOk(cb.read)
    ensures Stream(st) <= Stream(Deliver(st, cb, bytes, len))
  {
    var r := Deliver(st, cb, bytes, len);
    if r.queue != st.queue {
      PacketsSlice(r.queue, |st.queue|);
    }
  }

  lemma PopKeepsStream(s1: RadioState, s2: RadioState)
    requires s1.resultPending && |s1.queue| > 0
    requires s2 == s1.(lastSeqnum := s2.lastSeqnum, resultPending := false, queue := s1.queue[1..])
    ensures Stream(s2) == Stream(s1)
  {
    PacketsSlice(s1.queue, 1);
    assert Packets(s1.queue)[1..] == Packets(s1.queue[1..])[0..];
  }

  /**
   * Nothing queued is lost or reordered: the commands sent and still
   * waiting after an update extend those before it, so commands go out one
   * at a time in the order they were queued.
   */
  lemma {:induction false} RunExtendsStream(st: RadioState, replies: seq<Response>)
    requires Inv(st) && forall k :: 0 <= k < |replies| ==> ResponseOk(replies[k])
    ensures Stream(st) <= Stream(Run(st, replies))
    decreases |replies|
  {
    var s1 := SendHead(st);
    SendHeadKeepsStream(st);
    if !s1.resultPending || |replies| == 0 {
    } else {
      var resp := replies[0];
      if resp.ret < 2 || resp.busy != 0 || resp.seqnum == s1.lastSeqnum {
      } else {
        var s2 := s1.(lastSeqnum := resp.seqnum, resultPending := false, queue := s1.queue[1..]);
        PopKeepsStream(s1, s2);
        var s3 := Deliver(s2, s1.queue[0].cb, resp.bytes, resp.ret - 3);
        DeliverExtendsStream(s2, s1.queue[0].cb, resp.bytes, resp.ret - 3);
        RunExtendsStream(s3, replies[1..]);
      }
    }
  }

  /**
   * The head is popped only on a reply with a cleared busy flag and a new
   * sequence number; a busy reply keeps it and records the number.
   */
  lemma PopOnlyOnFreshReply(st: RadioState, replies: seq<Response>)
    requires Inv(st) && st.resultPending && |replies| > 0
    requires forall k :: 0 <= k < |replies| ==> ResponseOk(replies[k])
    ensures var resp := replies[0];
      resp.ret >= 2 && resp.busy != 0 ==>
        Run(st, replies) == st.(lastSeqnum := resp.seqnum)
    ensures var resp := replies[0];
      resp.ret < 2 || (resp.busy == 0 && resp.seqnum == st.lastSeqnum) ==> Run(st, replies) == st
  {
  }

  /** With nothing outstanding and nothing queued, an update changes nothing. */
  lemma IdleUpdate(st: RadioState, replies: seq<Response>)
    requires Inv(st) && !st.resultPending && |st.queue| == 0
    requires forall k :: 0 <= k < |replies| ==> ResponseOk(replies[k])
    ensures Run(st, replies) == st
  {
  }

  /** What `rift_s_radio_state_clear` tells the completions: failure, in queue order. */
  function Failures(q: seq<Command>): (r: seq<Completion>)
    requires forall k :: 0 <= k < |q| ==> CommandOk(q[k])
    ensures forall k :: 0 <= k < |r| ==> !r[k].success && !r[k].client.NoClient?
    ensures |r| <= |q|
  {
    if |q| == 0 then []
    else
      assert CommandOk(q[|q| - 1]);
      Failures(q[..|q| - 1]) + Failure(q[|q| - 1])
  }

  /** The failure one command's completion hears of. */
  function Failure(c: Command): (r: seq<Completion>)
    requires CommandOk(c)
    ensures |r| <= 1 && forall k :: 0 <= k < |r| ==> !r[k].success && !r[k].client.NoClient?
  {
    match c.cb
    case NoCallback => []
    case Notify(client) => Told(Completion(client, false, []))
    case ReadJsonBlock(read) => Told(ReadJson(read, false, [], 0).completion)
  }

  lemma FailuresStep(q: seq<Command>, i: nat)
    requires i < |q| && forall k :: 0 <= k < |q| ==> CommandOk(q[k])
    ensures Failures(q[..i + 1]) == Failures(q[..i]) + Failure(q[i])
  {
    assert q[..i + 1][..i] == q[..i];
  }

  // -----------------------------------------------------------------------
  // rift_s_radio_state
  // -----------------------------------------------------------------------

  class Radio {
    var commandResultPending: bool
    var lastRadioSeqnum: int
    var pendingCommands: seq<Command>
    /** The command reports sent, in order. */
    var sent: seq<RadioCommand>
    /** The completion calls made, in order. */
    var completions: seq<Completion>

    function State(): RadioState
      reads this
    {
      RadioState(commandResultPending, lastRadioSeqnum, pendingCommands, sent, completions)
    }

    predicate Valid()
      reads this
    {
      Inv(State())
    }

    /** `rift_s_radio_state_init`: an empty queue, nothing outstanding, sequence number -1. */
    constructor ()
      ensures Valid() && !commandResultPending && pendingCommands == [] && lastRadioSeqnum == -1
      ensures sent == [] && completions == []
    {
      commandResultPending := false;
      pendingCommands := [];
      lastRadioSeqnum := -1;
      sent := [];
      completions := [];
    }

    /**
     * `rift_s_radio_queue_command`: a zeroed command with the device id and
     * the given bytes, appended at the tail.
     */
    method QueueCommand(deviceId: nat, cmdBytes: seq<Byte>, cb: Callback)
      requires Valid() && |cmdBytes| <= CMD_BYTES_SIZE && (cb.ReadJsonBlock? ==> ReadOk(cb.read))
      modifies this
      ensures Valid()
      ensures pendingCommands == old(pendingCommands) + [Command(RadioCommand(deviceId, Pad(cmdBytes)), cb)]
      ensures commandResultPending == old(commandResultPending) && lastRadioSeqnum == old(lastRadioSeqnum)
      ensures sent == old(sent) && completions == old(completions)
    {
      pendingCommands := pendingCommands + [Command(RadioCommand(deviceId, Pad(cmdBytes)), cb)];
    }

    /** `rift_s_radio_get_json_block`: queue the first read with a fresh reader for `client`. */
    method GetJsonBlock(deviceId: nat, client: Client)
      requires Valid()
      modifies this
      ensures Valid()
      ensures pendingCommands == old(pendingCommands) +
        [Command(RadioCommand(deviceId, Pad(JSON_FIRST_CMD)), ReadJsonBlock(JsonRead(deviceId, client, 0, 0, [])))]
      ensures commandResultPending == old(commandResultPending) && lastRadioSeqnum == old(lastRadioSeqnum)
      ensures sent == old(sent) && completions == old(completions)
    {
      QueueCommand(deviceId, JSON_FIRST_CMD, ReadJsonBlock(JsonRead(deviceId, client, 0, 0, [])));
    }

    /**
     * `rift_s_radio_state_clear`: every queued completion hears of a failure,
     * in queue order, and the queue is emptied.
     */
    method Clear()
      requires Valid()
      modifies this
      ensures pendingCommands == [] && completions == old(completions) + Failures(old(pendingCommands))
      ensures commandResultPending == old(commandResultPending) && lastRadioSeqnum == old(lastRadioSeqnum)
      ensures sent == old(sent)
    {
      var q := pendingCommands;
      var told: seq<Completion> := [];
      var i := 0;
      while i < |q|
        invariant i <= |q| && forall k :: 0 <= k < |q| ==> CommandOk(q[k])
        invariant told == Failures(q[..i])
        invariant unchanged(this)
      {
        FailuresStep(q, i);
        told := told + Failure(q[i]);
        i := i + 1;
      }
      assert q[..i] == q;
      completions := completions + told;
      pendingCommands := [];
    }

    /**
     * `rift_s_radio_update`, reading the response reports from `replies` in
     * order; `used` counts those read.
     */
    method Update(replies: seq<Response>) returns (used: nat)
      requires Valid() && forall k :: 0 <= k < |replies| ==> ResponseOk(replies[k])
      modifies this
      ensures Valid() && used <= |replies|
      ensures State() == Run(old(State()), replies)
    {
      used := 0;
      while true
        invariant Valid() && used <= |replies|
        invariant Run(old(State()), replies) == Run(State(), replies[used..])
        decreases |replies| - used
      {
        var took := Round(replies[used..]);
        if !took {
          return;
        }
        used := used + 1;
        assert replies[used - 1..][1..] == replies[used..];
      }
    }

    /**
     * One pass of the `rift_s_radio_update` loop: send the head command if
     * none is outstanding, then take the next response if it completes it.
     * `took` says whether a response was consumed and the loop goes on.
     */
    method Round(replies: seq<Response>) returns (took: bool)
      requires Valid() && forall k :: 0 <= k < |replies| ==> ResponseOk(replies[k])
      modifies this
      ensures Valid() && (took ==> |replies| > 0)
      ensures Run(old(State()), replies) == if took then Run(State(), replies[1..]) else State()
    {
      if !commandResultPending && |pendingCommands| > 0 {
        sent := sent + [pendingCommands[0].packet];
        commandResultPending := true;
      }
      if !commandResultPending || |replies| == 0 {
        return false;
      }
      var resp := replies[0];
      if resp.ret < 2 {
        return false;
      }
      if resp.busy != 0 || resp.seqnum == lastRadioSeqnum {
        if resp.busy != 0 {
          lastRadioSeqnum := resp.seqnum;
        }
        return false;
      }
      lastRadioSeqnum := resp.seqnum;
      commandResultPending := false;
      var cmd := pendingCommands[0];
      pendingCommands := pendingCommands[1..];
      ghost var before := State();
      DeliverTo(cmd.cb, resp.bytes, resp.ret - 3);
      assert State() == Deliver(before, cmd.cb, resp.bytes, resp.ret - 3);
      return true;
    }

    /** The completion call at the end of an update round. */
    method DeliverTo(cb: Callback, bytes: seq<Byte>, len: int)
      requires Valid() && |bytes| == RESPONSE_BYTES_SIZE && 0 <= len <= RESPONSE_BYTES_SIZE
      requires cb.ReadJsonBlock? ==> ReadOk(cb.read)
      modifies this
      ensures Valid() && State() == Deliver(old(State()), cb, bytes, len)
    {
      match cb {
        case NoCallback =>
        case Notify(client) =>
          completions := completions + Told(Completion(client, true, bytes[..len]));
        case ReadJsonBlock(read) =>
          var s := ReadJson(read, true, bytes, len);
          match s {
            case Finish(c) =>
              completions := completions + Told(c);
            case Continue(next, cmd) =>
              QueueCommand(read.deviceId, cmd, ReadJsonBlock(next));
          }
      }
    }
  }
}
