/**
The emulated NVMe driver: a device that is a byte array, and a completion ring that holds
one entry fewer than its depth.
 */
module EmulatedNvme {
  import opened Common

  const WORD64: nat := 0x1_0000_0000_0000_0000
  const RING_SLOTS: nat := 256

  type Word32 = x: nat | x < 0x1_0000_0000

  datatype Command = Command(opcode: nat, cid: nat, cdw10: Word32, cdw11: Word32, cdw12: Word32)

  datatype Completion = Completion(cid: nat, status: nat)

  datatype Counters = Counters(readOps: int, writeOps: int, bytesRead: int, bytesWritten: int)

  // ---------------------------------------------------------------- the device as a value

  function StartBlock(cmd: Command): nat { cmd.cdw11 * 0x1_0000_0000 + cmd.cdw10 }

  function BlockCount(cmd: Command): nat { cmd.cdw12 % 0x1_0000 + 1 }

  // The byte range a command means.
  function TrueStart(blockSize: Word32, cmd: Command): nat { StartBlock(cmd) * blockSize }

  function TrueEnd(blockSize: Word32, cmd: Command): nat { (StartBlock(cmd) + BlockCount(cmd)) * blockSize }

  // Byte offset and length as the 64-bit arithmetic yields them.
  function ByteOffset(blockSize: Word32, cmd: Command): nat { TrueStart(blockSize, cmd) % WORD64 }

  function ByteLength(blockSize: Word32, cmd: Command): nat { BlockCount(cmd) * blockSize }

  // The bound test adds offset and length in 64 bits.
  predicate WithinBounds(size: nat, blockSize: Word32, cmd: Command) {
    (ByteOffset(blockSize, cmd) + ByteLength(blockSize, cmd)) % WORD64 <= size
  }

  // 0, or -1 without a buffer, -2 with a short one, -3 beyond the end of the device.
  function Access(size: nat, blockSize: Word32, cmd: Command, room: Option<nat>): int {
    if room.None? then -1
    else if ByteLength(blockSize, cmd) > room.value then -2
    else if !WithinBounds(size, blockSize, cmd) then -3
    else 0
  }

  predicate Transfers(cmd: Command) { cmd.opcode == 0x01 || cmd.opcode == 0x02 }

  // The copy of an accepted read or write stays inside the device.  Anything else has no
  // defined behaviour in the code.
  predicate Defined(size: nat, blockSize: Word32, cmd: Command, room: Option<nat>) {
    Transfers(cmd) && Access(size, blockSize, cmd, room) == 0 ==>
      ByteOffset(blockSize, cmd) + ByteLength(blockSize, cmd) <= size
  }

  function Room(buffer: Option<Bytes>): Option<nat> {
    if buffer.Some? then Some(|buffer.value|) else None
  }

  // ---------------------------------------------------------------- the bound test

  lemma SumOfRemainders(a: nat, b: nat)
    ensures (a % WORD64 + b) % WORD64 == (a + b) % WORD64
  {
    var q := a / WORD64;
    assert a + b == q * WORD64 + (a % WORD64 + b);
    SameRemainder(q, a % WORD64 + b);
  }

  lemma SameRemainder(k: int, x: int)
    ensures (k * WORD64 + x) % WORD64 == x % WORD64
  {
  }

  // The test looks at the low 64 bits of where the command really ends.
  lemma TestedEnd(size: nat, blockSize: Word32, cmd: Command)
    ensures WithinBounds(size, blockSize, cmd) <==> TrueEnd(blockSize, cmd) % WORD64 <= size
  {
    assert TrueEnd(blockSize, cmd) == TrueStart(blockSize, cmd) + ByteLength(blockSize, cmd);
    SumOfRemainders(TrueStart(blockSize, cmd), ByteLength(blockSize, cmd));
  }

  // When the bound test can be trusted.
  predicate Trusted(size: nat, blockSize: Word32, cmd: Command) {
    TrueEnd(blockSize, cmd) < WORD64 || TrueEnd(blockSize, cmd) % WORD64 > size
  }

  // The 64-bit test agrees with the real one exactly when the command's end fits in 64 bits
  // or what is left of it still exceeds the device.
  lemma BoundTestExactly(size: nat, blockSize: Word32, cmd: Command)
    requires size < WORD64
    ensures (WithinBounds(size, blockSize, cmd) <==> TrueEnd(blockSize, cmd) <= size) <==> Trusted(size, blockSize, cmd)
  {
    hide TrueEnd; hide WithinBounds;
    TestedEnd(size, blockSize, cmd);
    SmallIsItself(TrueEnd(blockSize, cmd));
  }

  lemma SmallIsItself(x: nat)
    ensures x < WORD64 ==> x % WORD64 == x
  {
  }

  // A trusted command that passes the test addresses the bytes it means.
  lemma TrustedAddresses(size: nat, blockSize: Word32, cmd: Command)
    requires size < WORD64 && Trusted(size, blockSize, cmd) && WithinBounds(size, blockSize, cmd)
    ensures TrueEnd(blockSize, cmd) <= size && ByteOffset(blockSize, cmd) == TrueStart(blockSize, cmd)
    ensures ByteOffset(blockSize, cmd) + ByteLength(blockSize, cmd) == TrueEnd(blockSize, cmd)
  {
    TestedEnd(size, blockSize, cmd);
    assert TrueEnd(blockSize, cmd) == TrueStart(blockSize, cmd) + ByteLength(blockSize, cmd);
  }

  lemma TrustedIsDefined(size: nat, blockSize: Word32, cmd: Command, room: Option<nat>)
    requires size < WORD64 && Trusted(size, blockSize, cmd)
    ensures Defined(size, blockSize, cmd, room)
  {
    if WithinBounds(size, blockSize, cmd) {
      TrustedAddresses(size, blockSize, cmd);
    }
  }

  // With a buffer of sufficient size, behaviour is defined exactly when the sum of offset
  // and length does not wrap around or is refused all the same.
  lemma DefinedExactly(size: nat, blockSize: Word32, cmd: Command, room: nat)
    requires size < WORD64 && Transfers(cmd) && ByteLength(blockSize, cmd) <= room
    ensures Defined(size, blockSize, cmd, Some(room)) <==>
      ByteOffset(blockSize, cmd) + ByteLength(blockSize, cmd) < WORD64 || !WithinBounds(size, blockSize, cmd)
  {
    var sum := ByteOffset(blockSize, cmd) + ByteLength(blockSize, cmd);
    assert sum < WORD64 ==> sum % WORD64 == sum;
  }

  // Two blocks from block 2^55 - 1 of a 4096-byte device with 512-byte blocks: the sum wraps
  // around to 512, and the write is let through.
  lemma WrappedSumPasses()
    ensures var cmd := Command(0x01, 0, 0xFFFF_FFFF, 0x7F_FFFF, 1);
      && ByteOffset(512, cmd) == WORD64 - 512 && Access(4096, 512, cmd, Some(1024)) == 0
      && TrueEnd(512, cmd) > 4096 && !Trusted(4096, 512, cmd) && !Defined(4096, 512, cmd, Some(1024))
  {
    var cmd := Command(0x01, 0, 0xFFFF_FFFF, 0x7F_FFFF, 1);
    assert StartBlock(cmd) == 0x7F_FFFF_FFFF_FFFF && BlockCount(cmd) == 2;
    assert TrueStart(512, cmd) == WORD64 - 512;
  }

  // Block 2^55 of the same device: the product wraps around to 0, and block 0 is overwritten.
  lemma AliasedWrite(d: Bytes, n: Counters, buffer: Bytes)
    requires |d| == 4096 && |buffer| == 512
    ensures var cmd := Command(0x01, 0, 0, 0x80_0000, 0);
      && TrueStart(512, cmd) == WORD64 && !Trusted(4096, 512, cmd) && Defined(4096, 512, cmd, Some(512))
      && Execute(512, d, n, cmd, Some(buffer)).status == 0
      && Execute(512, d, n, cmd, Some(buffer)).data == buffer + d[512..]
  {
    var cmd := Command(0x01, 0, 0, 0x80_0000, 0);
    assert StartBlock(cmd) == 0x80_0000_0000_0000 && BlockCount(cmd) == 1;
    assert TrueStart(512, cmd) == WORD64 && ByteOffset(512, cmd) == 0;
    assert buffer[..512] == buffer && d[..0] == [];
  }

  // ---------------------------------------------------------------- commands

  function Overwrite(d: Bytes, off: nat, chunk: Bytes): (r: Bytes)
    requires off + |chunk| <= |d|
    ensures |r| == |d|
  {
    d[..off] + chunk + d[off + |chunk|..]
  }

  // Writing changes exactly the addressed bytes.
  lemma OverwriteBytes(d: Bytes, off: nat, chunk: Bytes, i: nat)
    requires off + |chunk| <= |d| && i < |d|
    ensures Overwrite(d, off, chunk)[i] == if off <= i < off + |chunk| then chunk[i - off] else d[i]
  {
  }

  // `delivered` is what a read copies to the front of the caller's buffer.
  datatype Executed = Executed(data: Bytes, delivered: Bytes, status: nat, counters: Counters)

  // A command's effect before its completion is queued.
  function Execute(blockSize: Word32, d: Bytes, n: Counters, cmd: Command, buffer: Option<Bytes>): (x: Executed)
    requires Defined(|d|, blockSize, cmd, Room(buffer))
    ensures |x.data| == |d|
    ensures x.delivered != [] ==> buffer.Some? && |x.delivered| <= |buffer.value|
    ensures Transfers(cmd) ==> (x.status == 0 <==> Access(|d|, blockSize, cmd, Room(buffer)) == 0)
  {
    var off, len := ByteOffset(blockSize, cmd), ByteLength(blockSize, cmd);
    if cmd.opcode == 0x02 then
      if Access(|d|, blockSize, cmd, Room(buffer)) != 0 then Executed(d, [], 2, n)
      else Executed(d, d[off..off + len], 0, n.(readOps := n.readOps + 1, bytesRead := n.bytesRead + len))
    else if cmd.opcode == 0x01 then
      if Access(|d|, blockSize, cmd, Room(buffer)) != 0 then Executed(d, [], 2, n)
      else Executed(Overwrite(d, off, buffer.value[..len]), [], 0,
                    n.(writeOps := n.writeOps + 1, bytesWritten := n.bytesWritten + len))
    else if cmd.opcode == 0x00 then Executed(d, [], 0, n)
    else if cmd.opcode == 0x06 then
      Executed(d, [], if cmd.cdw10 % 0x100 <= 1 then 0 else 1, n)
    else Executed(d, [], 1, n)
  }

  // Reading back the blocks just written delivers the bytes written.
  lemma ReadAfterWrite(blockSize: Word32, d: Bytes, n: Counters, w: Command, r: Command, src: Bytes, dst: Bytes)
    requires w.opcode == 0x01 && r.opcode == 0x02
    requires StartBlock(r) == StartBlock(w) && BlockCount(r) == BlockCount(w)
    requires Defined(|d|, blockSize, w, Some(|src|)) && Execute(blockSize, d, n, w, Some(src)).status == 0
    requires |dst| >= ByteLength(blockSize, r)
    ensures var written := Execute(blockSize, d, n, w, Some(src));
      && Defined(|d|, blockSize, r, Some(|dst|))
      && var got := Execute(blockSize, written.data, written.counters, r, Some(dst));
         got.status == 0 && got.delivered == src[..ByteLength(blockSize, w)] && got.data == written.data
  {
    var len, off := ByteLength(blockSize, w), ByteOffset(blockSize, w);
    assert TrueStart(blockSize, r) == TrueStart(blockSize, w) && ByteLength(blockSize, r) == len;
    var after := Overwrite(d, off, src[..len]);
    assert after[off..off + len] == src[..len];
  }

  // Byte i is in the range the 64-bit arithmetic yields for the command ...
  predicate Touches(blockSize: Word32, cmd: Command, i: nat) {
    var off := ByteOffset(blockSize, cmd);
    off <= i < off + ByteLength(blockSize, cmd)
  }

  // ... and in the blocks the command names.
  predicate Covers(blockSize: Word32, cmd: Command, i: nat) {
    TrueStart(blockSize, cmd) <= i < TrueEnd(blockSize, cmd)
  }

  // For a trusted command that passes the test the two ranges are one.
  lemma TouchesIsCovers(size: nat, blockSize: Word32, cmd: Command, i: nat)
    requires size < WORD64 && Trusted(size, blockSize, cmd) && WithinBounds(size, blockSize, cmd)
    ensures Touches(blockSize, cmd, i) <==> Covers(blockSize, cmd, i)
  {
    hide Trusted; hide WithinBounds;
    TrustedAddresses(size, blockSize, cmd);
  }

  // A write leaves every byte outside the blocks it names alone, and a command that fails
  // leaves all of them.
  lemma OtherBytesUntouched(blockSize: Word32, d: Bytes, n: Counters, cmd: Command, buffer: Option<Bytes>, i: nat)
    requires i < |d| < WORD64 && Defined(|d|, blockSize, cmd, Room(buffer))
    requires cmd.opcode == 0x01 ==> Trusted(|d|, blockSize, cmd)
    requires !Covers(blockSize, cmd, i) || cmd.opcode != 0x01 || Execute(blockSize, d, n, cmd, buffer).status != 0
    ensures Execute(blockSize, d, n, cmd, buffer).data[i] == d[i]
  {
    if cmd.opcode == 0x01 && Execute(blockSize, d, n, cmd, buffer).status == 0 {
      TouchesIsCovers(|d|, blockSize, cmd, i);
      OverwriteBytes(d, ByteOffset(blockSize, cmd), buffer.value[..ByteLength(blockSize, cmd)], i);
    }
  }

  // A read that succeeds delivers, byte by byte, what the device holds in the blocks it names.
  lemma ReadDelivers(blockSize: Word32, d: Bytes, n: Counters, cmd: Command, buffer: Option<Bytes>, i: nat)
    requires |d| < WORD64 && cmd.opcode == 0x02 && Trusted(|d|, blockSize, cmd) && Covers(blockSize, cmd, i)
    requires Defined(|d|, blockSize, cmd, Room(buffer)) && Execute(blockSize, d, n, cmd, buffer).status == 0
    ensures var got, start := Execute(blockSize, d, n, cmd, buffer).delivered, TrueStart(blockSize, cmd);
      i < |d| && i - start < |got| && got[i - start] == d[i]
  {
    TrustedAddresses(|d|, blockSize, cmd);
  }

  // ---------------------------------------------------------------- submits and polls

  // `accepted` are the completions of submits that returned 0, `polled` those handed out.
  datatype State = State(
    depth: nat,
    data: Bytes,
    counters: Counters,
    queue: seq<Completion>,
    accepted: seq<Completion>,
    polled: seq<Completion>)

  datatype Event =
    | Submitted(cmd: Command, buffer: Option<Bytes>, ret: int)
    | Polled(answer: Option<Completion>)

  // A submit that finds the ring full has still executed its command.  Commands without
  // defined behaviour have no step.
  ghost predicate Step(blockSize: Word32, s: State, e: Event, t: State) {
    match e
    case Submitted(cmd, buffer, ret) =>
      && Defined(|s.data|, blockSize, cmd, Room(buffer))
      && var x := Execute(blockSize, s.data, s.counters, cmd, buffer);
      var cpl := Completion(cmd.cid, x.status);
      var u := s.(data := x.data, counters := x.counters);
      if |s.queue| + 1 < s.depth then
        ret == 0 && t == u.(queue := s.queue + [cpl], accepted := s.accepted + [cpl])
      else ret == -3 && t == u
    case Polled(answer) =>
      if |s.queue| == 0 then answer == None && t == s
      else answer == Some(s.queue[0]) && t == s.(queue := s.queue[1..], polled := s.polled + [s.queue[0]])
  }

  ghost predicate Fifo(s: State) {
    s.accepted == s.polled + s.queue && |s.queue| + 1 <= s.depth
  }

  lemma StepKeepsFifo(blockSize: Word32, s: State, e: Event, t: State)
    requires Fifo(s) && Step(blockSize, s, e, t)
    ensures Fifo(t) && t.depth == s.depth && |t.data| == |s.data|
  {
    match e
    case Submitted(cmd, buffer, ret) =>
      assert |s.queue| + 1 < s.depth ==> t.accepted == s.polled + t.queue;
    case Polled(answer) =>
      if |s.queue| > 0 {
        assert s.queue == [s.queue[0]] + s.queue[1..];
        assert s.polled + s.queue == (s.polled + [s.queue[0]]) + s.queue[1..];
      }
  }

  ghost predicate Run(blockSize: Word32, trace: seq<State>, events: seq<Event>) {
    && |trace| == |events| + 1 && trace[0].depth >= 1
    && trace[0].queue == [] && trace[0].accepted == [] && trace[0].polled == []
    && forall i | 0 <= i < |events| :: Step(blockSize, trace[i], events[i], trace[i + 1])
  }

  // In every run completions are handed out in the order of the submits that returned 0,
  // none lost or repeated, and never more than depth - 1 are outstanding.
  lemma {:induction false} RunIsFifo(blockSize: Word32, trace: seq<State>, events: seq<Event>, i: nat)
    requires Run(blockSize, trace, events) && i <= |events|
    ensures var s := trace[i];
      && Fifo(s) && s.depth == trace[0].depth && |s.data| == |trace[0].data|
      && s.polled == s.accepted[..|s.polled|]
      && |s.queue| == |s.accepted| - |s.polled| <= s.depth - 1
  {
    if i > 0 {
      hide Step;
      RunIsFifo(blockSize, trace, events, i - 1);
      StepKeepsFifo(blockSize, trace[i - 1], events[i - 1], trace[i]);
    }
  }

  // ---------------------------------------------------------------- what is answered

  // The submits that returned 0, and the completions handed out, in order.
  ghost function AcceptedBy(events: seq<Event>): seq<Event> {
    if |events| == 0 then []
    else
      var e := events[|events| - 1];
      AcceptedBy(events[..|events| - 1]) + if e.Submitted? && e.ret == 0 then [e] else []
  }

  ghost function AnsweredBy(events: seq<Event>): seq<Completion> {
    if |events| == 0 then []
    else
      var e := events[|events| - 1];
      AnsweredBy(events[..|events| - 1]) + if e.Polled? && e.answer.Some? then [e.answer.value] else []
  }

  // The answer a command deserves on a device of `size` bytes, in the fields of the command:
  // cdw10 and cdw11 hold the first block, the low 16 bits of cdw12 the number of blocks less one.
  ghost predicate Deserves(blockSize: Word32, size: nat, e: Event, cpl: Completion) {
    && e.Submitted? && cpl.cid == e.cmd.cid
    && (e.cmd.opcode == 0x00 ==> cpl.status == 0)
    && (e.cmd.opcode == 0x06 ==> cpl.status == if e.cmd.cdw10 % 256 == 0 || e.cmd.cdw10 % 256 == 1 then 0 else 1)
    && (e.cmd.opcode != 0x00 && e.cmd.opcode != 0x01 && e.cmd.opcode != 0x02 && e.cmd.opcode != 0x06 ==> cpl.status == 1)
    && (e.cmd.opcode == 0x01 || e.cmd.opcode == 0x02 ==> DeservesTransfer(blockSize, size, e, cpl.status))
  }

  ghost predicate DeservesTransfer(blockSize: Word32, size: nat, e: Event, status: nat)
    requires e.Submitted?
  {
    var first, count := e.cmd.cdw11 * 4294967296 + e.cmd.cdw10, e.cmd.cdw12 % 65536 + 1;
    var fits := e.buffer.Some? && count * blockSize <= |e.buffer.value|;
    var end := (first + count) * blockSize;
    && (status == 0 || status == 2)
    && (status == 0 <==> fits && (first * blockSize % WORD64 + count * blockSize) % WORD64 <= size)
    && (size < WORD64 && (end < WORD64 || end % WORD64 > size) ==> (status == 0 <==> fits && end <= size))
  }

  lemma ExecuteDeserves(blockSize: Word32, d: Bytes, n: Counters, e: Event)
    requires e.Submitted? && Defined(|d|, blockSize, e.cmd, Room(e.buffer))
    ensures Deserves(blockSize, |d|, e, Completion(e.cmd.cid, Execute(blockSize, d, n, e.cmd, e.buffer).status))
  {
    if Transfers(e.cmd) && |d| < WORD64 {
      BoundTestExactly(|d|, blockSize, e.cmd);
    }
  }

  // Each step in terms of the events.
  lemma StepAnswers(blockSize: Word32, s: State, e: Event, t: State)
    requires Step(blockSize, s, e, t)
    ensures e.Submitted? ==> (e.ret == 0 <==> |s.queue| + 1 < s.depth) && (e.ret == 0 || e.ret == -3)
    ensures e.Submitted? && e.ret == 0 ==>
      |t.accepted| == |s.accepted| + 1 && t.accepted == s.accepted + [t.accepted[|s.accepted|]]
      && Deserves(blockSize, |s.data|, e, t.accepted[|s.accepted|])
    ensures !(e.Submitted? && e.ret == 0) ==> t.accepted == s.accepted
    ensures t.polled == s.polled + if e.Polled? && e.answer.Some? then [e.answer.value] else []
  {
    hide Deserves;
    if e.Submitted? {
      ExecuteDeserves(blockSize, s.data, s.counters, e);
    }
  }

  // In every run the k-th completion accepted is the one the k-th submit that returned 0
  // deserves, and what polls have handed out is what was accepted, from the front.
  lemma {:induction false} RunAnswers(blockSize: Word32, trace: seq<State>, events: seq<Event>, i: nat)
    requires Run(blockSize, trace, events) && i <= |events|
    ensures var s, submits := trace[i], AcceptedBy(events[..i]);
      && |s.accepted| == |submits| && s.polled == AnsweredBy(events[..i])
      && forall k | 0 <= k < |submits| :: Deserves(blockSize, |trace[0].data|, submits[k], s.accepted[k])
  {
    hide Step; hide Deserves;
    if i > 0 {
      RunAnswers(blockSize, trace, events, i - 1);
      RunIsFifo(blockSize, trace, events, i - 1);
      StepAnswers(blockSize, trace[i - 1], events[i - 1], trace[i]);
      assert events[..i][..i - 1] == events[..i - 1];
    }
  }

  // So the k-th poll that got an answer got the one for the k-th submit that returned 0; and
  // a submit is refused, with -3, exactly when depth - 1 completions are waiting.
  lemma PollsAnswerSubmits(blockSize: Word32, trace: seq<State>, events: seq<Event>, i: nat, k: nat)
    requires Run(blockSize, trace, events) && i <= |events| && k < |AnsweredBy(events[..i])|
    ensures k < |AcceptedBy(events[..i])|
    ensures Deserves(blockSize, |trace[0].data|, AcceptedBy(events[..i])[k], AnsweredBy(events[..i])[k])
  {
    hide Step; hide Deserves;
    RunAnswers(blockSize, trace, events, i);
    RunIsFifo(blockSize, trace, events, i);
    assert trace[i].polled[k] == trace[i].accepted[k];
  }

  lemma SubmitRefusedExactly(blockSize: Word32, trace: seq<State>, events: seq<Event>, i: nat)
    requires Run(blockSize, trace, events) && i < |events| && events[i].Submitted?
    ensures events[i].ret ==
      if |AcceptedBy(events[..i])| - |AnsweredBy(events[..i])| < trace[0].depth - 1 then 0 else -3
  {
    hide Step; hide Deserves;
    RunAnswers(blockSize, trace, events, i);
    RunIsFifo(blockSize, trace, events, i);
    assert Step(blockSize, trace[i], events[i], trace[i + 1]);
    StepAnswers(blockSize, trace[i], events[i], trace[i + 1]);
  }

  // Successful transfers with the given opcode, and the bytes they moved.
  ghost function TransfersBy(blockSize: Word32, size: nat, events: seq<Event>, opcode: nat): (int, int) {
    if |events| == 0 then (0, 0)
    else
      var e := events[|events| - 1];
      var (ops, bytes) := TransfersBy(blockSize, size, events[..|events| - 1], opcode);
      if e.Submitted? && e.cmd.opcode == opcode && DeservesTransfer(blockSize, size, e, 0)
      then (ops + 1, bytes + (e.cmd.cdw12 % 65536 + 1) * blockSize)
      else (ops, bytes)
  }

  // The four counters count the successful reads and writes and their bytes.
  lemma {:induction false} RunCounts(blockSize: Word32, trace: seq<State>, events: seq<Event>, i: nat)
    requires Run(blockSize, trace, events) && i <= |events| && trace[0].counters == Counters(0, 0, 0, 0)
    ensures var n, size := trace[i].counters, |trace[0].data|;
      && (n.readOps, n.bytesRead) == TransfersBy(blockSize, size, events[..i], 0x02)
      && (n.writeOps, n.bytesWritten) == TransfersBy(blockSize, size, events[..i], 0x01)
  {
    hide Step; hide DeservesTransfer;
    if i > 0 {
      RunCounts(blockSize, trace, events, i - 1);
      RunIsFifo(blockSize, trace, events, i - 1);
      StepCounts(blockSize, trace[i - 1], events[i - 1], trace[i]);
      assert events[..i][..i - 1] == events[..i - 1];
    }
  }

  lemma StepCounts(blockSize: Word32, s: State, e: Event, t: State)
    requires Step(blockSize, s, e, t)
    ensures var hit := e.Submitted? && (e.cmd.opcode == 0x01 || e.cmd.opcode == 0x02) && DeservesTransfer(blockSize, |s.data|, e, 0);
      if !hit then t.counters == s.counters
      else
        var bytes := (e.cmd.cdw12 % 65536 + 1) * blockSize;
        t.counters == if e.cmd.opcode == 0x02
          then s.counters.(readOps := s.counters.readOps + 1, bytesRead := s.counters.bytesRead + bytes)
          else s.counters.(writeOps := s.counters.writeOps + 1, bytesWritten := s.counters.bytesWritten + bytes)
  {
    if e.Submitted? {
      ExecuteDeserves(blockSize, s.data, s.counters, e);
    }
  }

  // ---------------------------------------------------------------- what the device holds

  // Event e, taken in state s, is a write that passes the bound test and touches byte i,
  // whether or not its completion then finds room in the ring.
  ghost predicate Writes(blockSize: Word32, s: State, e: Event, i: nat) {
    && e.Submitted? && e.cmd.opcode == 0x01 && Touches(blockSize, e.cmd, i)
    && Access(|s.data|, blockSize, e.cmd, Room(e.buffer)) == 0
  }

  function SourceByte(start: nat, buffer: Option<Bytes>, i: nat): Option<Byte> {
    if buffer.Some? && start <= i < start + |buffer.value| then Some(buffer.value[i - start]) else None
  }

  lemma WriteSetsByte(blockSize: Word32, s: State, e: Event, t: State, i: nat)
    requires Step(blockSize, s, e, t) && i < |s.data|
    ensures |t.data| == |s.data|
    ensures if Writes(blockSize, s, e, i) then Some(t.data[i]) == SourceByte(ByteOffset(blockSize, e.cmd), e.buffer, i)
            else t.data[i] == s.data[i]
  {
    if e.Submitted? && e.cmd.opcode == 0x01 && Access(|s.data|, blockSize, e.cmd, Room(e.buffer)) == 0 {
      OverwriteBytes(s.data, ByteOffset(blockSize, e.cmd), e.buffer.value[..ByteLength(blockSize, e.cmd)], i);
    }
  }

  // Over every run each byte of the device is what the last accepted write that touched it
  // put there, and a byte never touched is what it was at the start.
  lemma {:induction false} RunKeepsLastWrite(blockSize: Word32, trace: seq<State>, events: seq<Event>, k: nat, n: nat, i: nat)
    requires Run(blockSize, trace, events) && k <= n <= |events| && i < |trace[0].data|
    requires forall j | k <= j < n :: !Writes(blockSize, trace[j], events[j], i)
    ensures |trace[n].data| == |trace[0].data|
    ensures k == 0 ==> trace[n].data[i] == trace[0].data[i]
    ensures k > 0 && Writes(blockSize, trace[k - 1], events[k - 1], i) ==>
      Some(trace[n].data[i]) == SourceByte(ByteOffset(blockSize, events[k - 1].cmd), events[k - 1].buffer, i)
    decreases n
  {
    hide Step; hide Writes; hide SourceByte; hide ByteOffset;
    RunIsFifo(blockSize, trace, events, n);
    if n > k {
      RunKeepsLastWrite(blockSize, trace, events, k, n - 1, i);
      WriteSetsByte(blockSize, trace[n - 1], events[n - 1], trace[n], i);
    } else if k > 0 {
      RunIsFifo(blockSize, trace, events, k - 1);
      WriteSetsByte(blockSize, trace[k - 1], events[k - 1], trace[k], i);
    }
  }

  // Event e is a write to a block that holds byte i, and the block lies within the device.
  ghost predicate WritesBlock(blockSize: Word32, size: nat, e: Event, i: nat) {
    && e.Submitted? && e.cmd.opcode == 0x01 && Covers(blockSize, e.cmd, i) && TrueEnd(blockSize, e.cmd) <= size
    && e.buffer.Some? && ByteLength(blockSize, e.cmd) <= |e.buffer.value|
  }

  lemma WritesAreTrue(blockSize: Word32, s: State, e: Event, i: nat)
    requires |s.data| < WORD64
    requires e.Submitted? && e.cmd.opcode == 0x01 ==> Trusted(|s.data|, blockSize, e.cmd)
    ensures Writes(blockSize, s, e, i) <==> WritesBlock(blockSize, |s.data|, e, i)
    ensures Writes(blockSize, s, e, i) ==> ByteOffset(blockSize, e.cmd) == TrueStart(blockSize, e.cmd)
  {
    if e.Submitted? && e.cmd.opcode == 0x01 {
      hide Trusted; hide WithinBounds; hide Covers; hide Touches;
      BoundTestExactly(|s.data|, blockSize, e.cmd);
      if WithinBounds(|s.data|, blockSize, e.cmd) {
        TrustedAddresses(|s.data|, blockSize, e.cmd);
        TouchesIsCovers(|s.data|, blockSize, e.cmd, i);
      }
    }
  }

  // In a run whose writes are all trusted the device is a byte array by true addresses: each
  // byte is what the last write to a block holding it, within the device and with a buffer
  // long enough, put there.  Which writes these are can be told without the code's tests.
  lemma RunIsByteArray(blockSize: Word32, trace: seq<State>, events: seq<Event>, k: nat, n: nat, i: nat)
    requires Run(blockSize, trace, events) && k <= n <= |events| && i < |trace[0].data| < WORD64
    requires forall j | 0 <= j < |events| ::
      events[j].Submitted? && events[j].cmd.opcode == 0x01 ==> Trusted(|trace[0].data|, blockSize, events[j].cmd)
    requires forall j | k <= j < n :: !WritesBlock(blockSize, |trace[0].data|, events[j], i)
    ensures |trace[n].data| == |trace[0].data|
    ensures k == 0 ==> trace[n].data[i] == trace[0].data[i]
    ensures k > 0 && WritesBlock(blockSize, |trace[0].data|, events[k - 1], i) ==>
      Some(trace[n].data[i]) == SourceByte(TrueStart(blockSize, events[k - 1].cmd), events[k - 1].buffer, i)
  {
    hide Step; hide Writes; hide WritesBlock; hide SourceByte; hide ByteOffset; hide Trusted; hide TrueStart;
    forall j | 0 <= j < n
      ensures Writes(blockSize, trace[j], events[j], i) <==> WritesBlock(blockSize, |trace[0].data|, events[j], i)
      ensures Writes(blockSize, trace[j], events[j], i) ==>
        events[j].Submitted? && ByteOffset(blockSize, events[j].cmd) == TrueStart(blockSize, events[j].cmd)
    {
      RunIsFifo(blockSize, trace, events, j);
      WritesAreTrue(blockSize, trace[j], events[j], i);
      WritesAreSubmits(blockSize, trace[j], events[j], i);
    }
    if k > 0 {
      WritesAreSubmits(blockSize, trace[k - 1], events[k - 1], i);
    }
    RunKeepsLastWrite(blockSize, trace, events, k, n, i);
  }

  lemma WritesAreSubmits(blockSize: Word32, s: State, e: Event, i: nat)
    ensures Writes(blockSize, s, e, i) ==> e.Submitted?
  {
  }

  // ---------------------------------------------------------------- the ring

  class CompletionRing {
    const cpls: array<Completion>
    var head: nat
    var tail: nat
    var depth: nat

    ghost predicate Consistent()
      reads this
    {
      cpls.Length == RING_SLOTS && 1 <= depth <= RING_SLOTS && head < depth && tail < depth
    }

    // The entries from head to tail, around the end of the ring.
    ghost function Contents(): seq<Completion>
      requires Consistent()
      reads this, cpls
    {
      if head <= tail then cpls[head..tail] else cpls[head..depth] + cpls[..tail]
    }

    // A depth of 0 or beyond the array becomes 64.
    constructor (depth: nat)
      ensures Consistent() && Contents() == [] && fresh(cpls)
      ensures this.depth == if depth == 0 || depth > RING_SLOTS then 64 else depth
    {
      cpls := new Completion[RING_SLOTS](_ => Completion(0, 0));
      this.depth := if depth == 0 || depth > RING_SLOTS then 64 else depth;
      head, tail := 0, 0;
    }

    method Push(c: Completion) returns (ret: int)
      requires Consistent()
      modifies this, cpls
      ensures Consistent() && depth == old(depth)
      ensures ret == if |old(Contents())| + 1 < depth then 0 else -1
      ensures Contents() == if ret == 0 then old(Contents()) + [c] else old(Contents())
    {
      var next := (tail + 1) % depth;
      WrapIncrement(tail, depth);
      if next == head {
        return -1;
      }
      cpls[tail] := c;
      tail := next;
      assert Contents() == old(Contents()) + [c];
      return 0;
    }

    method Pop() returns (r: Option<Completion>)
      requires Consistent()
      modifies this
      ensures Consistent() && depth == old(depth)
      ensures if |old(Contents())| == 0 then r == None && Contents() == []
              else r == Some(old(Contents())[0]) && Contents() == old(Contents())[1..]
    {
      if head == tail {
        return None;
      }
      r := Some(cpls[head]);
      WrapIncrement(head, depth);
      head := (head + 1) % depth;
      if old(head) < tail {
        assert cpls[old(head)..tail] == [cpls[old(head)]] + cpls[old(head) + 1..tail];
      } else {
        assert cpls[old(head)..depth] == [cpls[old(head)]] + cpls[old(head) + 1..depth];
        assert old(head) + 1 == depth ==> cpls[old(head) + 1..depth] == [];
      }
    }
  }

  // ---------------------------------------------------------------- the controller

  class Controller {
    const blockSize: Word32
    const data: array<Byte>
    const ring: CompletionRing
    var counters: Counters
    ghost var accepted: seq<Completion>
    ghost var polled: seq<Completion>

    ghost predicate Consistent()
      reads this, ring
    {
      ring.Consistent()
    }

    static function RoomOf(buffer: array?<Byte>): Option<nat> {
      if buffer == null then None else Some(buffer.Length)
    }

    ghost function Snapshot(): State
      requires Consistent()
      reads this, data, ring, ring.cpls
    {
      State(ring.depth, data[..], counters, ring.Contents(), accepted, polled)
    }

    constructor (blockSize: Word32, size: nat, depth: nat)
      ensures Consistent() && this.blockSize == blockSize && fresh(data) && fresh(ring) && fresh(ring.cpls)
      ensures data.Length == size && Snapshot().queue == [] && accepted == [] && polled == []
      ensures counters == Counters(0, 0, 0, 0) && forall i | 0 <= i < size :: data[i] == 0
    {
      this.blockSize := blockSize;
      data := new Byte[size](_ => 0);
      ring := new CompletionRing(depth);
      counters := Counters(0, 0, 0, 0);
      accepted, polled := [], [];
    }

    // Reads into, or writes from, the caller's buffer, which is not the device's memory.
    method Transfer(cmd: Command, buffer: array?<Byte>) returns (status: nat)
      requires buffer != data && Transfers(cmd) && Defined(data.Length, blockSize, cmd, RoomOf(buffer))
      modifies `counters, data, buffer
      ensures var x := Execute(blockSize, old(data[..]), old(counters), cmd,
                               if buffer == null then None else Some(old(buffer[..])));
        && status == x.status && data[..] == x.data && counters == x.counters
        && (buffer != null ==> buffer[..] == Overwrite(old(buffer[..]), 0, x.delivered))
    {
      var off, len := ByteOffset(blockSize, cmd), ByteLength(blockSize, cmd);
      if buffer == null || len > buffer.Length || (off + len) % WORD64 > data.Length {
        return 2;
      }
      if cmd.opcode == 0x02 {
        forall i | 0 <= i < len {
          buffer[i] := data[off + i];
        }
        counters := counters.(readOps := counters.readOps + 1, bytesRead := counters.bytesRead + len);
        assert buffer[..] == Overwrite(old(buffer[..]), 0, old(data[..])[off..off + len]);
      } else {
        forall i | 0 <= i < len {
          data[off + i] := buffer[i];
        }
        counters := counters.(writeOps := counters.writeOps + 1, bytesWritten := counters.bytesWritten + len);
        assert data[..] == Overwrite(old(data[..]), off, old(buffer[..])[..len]);
      }
      return 0;
    }

    method SubmitCommand(cmd: Command, buffer: array?<Byte>) returns (ret: int)
      requires Consistent() && buffer != data && Defined(data.Length, blockSize, cmd, RoomOf(buffer))
      modifies this, data, ring, ring.cpls, buffer
      ensures Consistent()
      ensures Step(blockSize, old(Snapshot()),
                   Submitted(cmd, if buffer == null then None else Some(old(buffer[..])), ret), Snapshot())
      ensures buffer != null && cmd.opcode != 0x06 ==>
        buffer[..] == Overwrite(old(buffer[..]), 0,
          Execute(blockSize, old(data[..]), old(counters), cmd, Some(old(buffer[..]))).delivered)
    {
      var status := 0;
      if Transfers(cmd) {
        status := Transfer(cmd, buffer);
      } else if cmd.opcode == 0x06 {
        status := if cmd.cdw10 % 0x100 <= 1 then 0 else 1;
      } else if cmd.opcode != 0x00 {
        status := 1;
      }
      assert ring.Contents() == old(ring.Contents());
      var cpl := Completion(cmd.cid, status);
      var pushed := ring.Push(cpl);
      if pushed != 0 {
        return -3;
      }
      accepted := accepted + [cpl];
      return 0;
    }

    method PollCompletion() returns (answer: Option<Completion>)
      requires Consistent()
      modifies this, ring
      ensures Consistent() && Step(blockSize, old(Snapshot()), Polled(answer), Snapshot())
    {
      answer := ring.Pop();
      if answer.Some? {
        polled := polled + [answer.value];
      }
    }
  }
}
