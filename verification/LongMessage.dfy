/**
  A long message from its header to the line: the calls that fill the stream, the slots they
  take when bytes are handed over, and the send loop that serves the slots that wait.
 */
module LongMessage {
  import opened Words
  import opened SendArena
  import opened LongBuffer
  import opened SerialSend

  // The stream, the slots, the line, the slots this message has taken, in order, and the bytes
  // it handed over last.
  datatype Sending = Sending(s: Stream, slots: seq<Slot>, line: seq<byte>, taken: seq<nat>, last: seq<byte>)

  // What initLongBuffer leaves, with the frame header on the line.
  function Start(size: word, slots: seq<Slot>, line: seq<byte>): Sending {
    Sending(Stream(Signed(size), [], [], []), slots, line, [], [])
  }

  // What a call sends directly and what it hands over.
  function Direct(s: Stream, op: LongBuffer.Op): seq<byte> { Apply(s, op).direct[|s.direct|..] }

  function Handed(s: Stream, op: LongBuffer.Op): seq<byte> { Apply(s, op).handed[|s.handed|..] }

  // A call that hands bytes over finds a slot.
  predicate HasSlot(t: Sending, op: LongBuffer.Op) {
    var h := Handed(t.s, op);
    |h| < 0x1_0000 && (h == [] || FirstUnused(t.slots) < |t.slots|)
  }

  // One call, for a buffer at block blk.
  function Step(t: Sending, blk: nat, op: LongBuffer.Op): Sending
    requires HasSlot(t, op)
  {
    var h := Handed(t.s, op);
    Sending(Apply(t.s, op), FlushSlots(t.slots, blk, h), t.line + Direct(t.s, op) + FlushLine(t.slots, h),
            if h == [] then t.taken else t.taken + [FirstUnused(t.slots)], if h == [] then t.last else h)
  }

  predicate HasSlots(t: Sending, blk: nat, ops: seq<LongBuffer.Op>)
    decreases |ops|
  {
    ops == [] || (HasSlot(t, ops[0]) && HasSlots(Step(t, blk, ops[0]), blk, ops[1..]))
  }

  function Steps(t: Sending, blk: nat, ops: seq<LongBuffer.Op>): Sending
    requires HasSlots(t, blk, ops)
    decreases |ops|
  {
    if ops == [] then t else Steps(Step(t, blk, ops[0]), blk, ops[1..])
  }

  // ---------- What the send loop adds ----------

  ghost predicate AllSendable(slots: seq<Slot>) {
    forall j :: 0 <= j < |slots| && slots[j].used.WaitingDMA? ==> Sendable(slots[j])
  }

  ghost predicate InRange(slots: seq<Slot>, taken: seq<nat>) {
    forall j :: 0 <= j < |taken| ==> taken[j] < |slots|
  }

  // What the next send loop sends for the slots the message took, in the order it took them.
  function Shares(buf: seq<byte>, slots: seq<Slot>, taken: seq<nat>): seq<byte>
    requires |buf| == BLOCKS * BLOCK_LEN && AllSendable(slots) && InRange(slots, taken)
  {
    if taken == [] then []
    else Shares(buf, slots, taken[..|taken| - 1]) + Own(buf, slots[taken[|taken| - 1]])
  }

  // The sizes recorded for those that wait, and how many wait.
  function Waiting(slots: seq<Slot>, taken: seq<nat>): (r: (nat, nat))
    requires InRange(slots, taken)
  {
    if taken == [] then (0, 0)
    else
      var (bytes, n) := Waiting(slots, taken[..|taken| - 1]);
      var slot := slots[taken[|taken| - 1]];
      if slot.used.WaitingDMA? then (bytes + slot.size, n + 1) else (bytes, n)
  }

  // Every slot that waits has one byte less sent than its size.
  lemma {:induction false} SharesLength(buf: seq<byte>, slots: seq<Slot>, taken: seq<nat>)
    requires |buf| == BLOCKS * BLOCK_LEN && AllSendable(slots) && InRange(slots, taken)
    ensures var (bytes, n) := Waiting(slots, taken); |Shares(buf, slots, taken)| + n == bytes
  {
    if taken != [] {
      SharesLength(buf, slots, taken[..|taken| - 1]);
    }
  }

  lemma {:induction false} WaitingElsewhere(slots: seq<Slot>, taken: seq<nat>, k: nat, slot: Slot)
    requires InRange(slots, taken) && k < |slots| && k !in taken
    ensures Waiting(slots[k := slot], taken) == Waiting(slots, taken)
  {
    if taken != [] {
      var n := |taken| - 1;
      assert taken[n] in taken && taken[n] != k;
      WaitingElsewhere(slots, taken[..n], k, slot);
    }
  }

  // ---------- What every call keeps ----------

  // Nothing was handed over; or one piece was; or more were.
  ghost predicate FirstPiece(t: Sending, slots: seq<Slot>, line: seq<byte>, blk: nat) {
    && (t.taken == [] ==> t.s.handed == [] && t.slots == slots && t.line == line + t.s.direct)
    && (|t.taken| == 1 ==>
          && t.s.handed == t.last && t.taken == [FirstUnused(slots)] && FirstUnused(slots) < |slots|
          && |t.last| < 0x1_0000 && t.slots == FlushSlots(slots, blk, t.last)
          && t.line == line + t.s.direct + FlushLine(slots, t.last))
  }

  // Of the bytes sent directly or handed over, those that are not on the line wait in slots; all
  // the slots wait but the first one, if the DMA was idle.
  ghost predicate Counts(t: Sending, busy: bool, line: seq<byte>) {
    && InRange(t.slots, t.taken)
    && var (bytes, n) := Waiting(t.slots, t.taken);
       && |t.line| + bytes == |line| + |t.s.direct| + |t.s.handed|
       && n == |t.taken| - (if !busy && t.taken != [] then 1 else 0)
  }

  ghost predicate Keeps(t: Sending, slots: seq<Slot>, line: seq<byte>, blk: nat, size: nat, input: seq<byte>) {
    && Tracks(t.s, size, input) && |t.slots| == |slots| && AllSendable(t.slots)
    && (DmaBusy(t.slots) <==> DmaBusy(slots) || t.taken != [])
    && (t.taken != [] ==> t.s.handed != [] && t.last != [])
    && (forall j :: 0 <= j < |t.taken| ==> t.taken[j] < |t.slots| && !t.slots[t.taken[j]].used.Unused?)
    && FirstPiece(t, slots, line, blk) && Counts(t, DmaBusy(slots), line)
  }

  lemma NoMoreDirect(s: Stream, op: LongBuffer.Op)
    requires 0 <= s.left <= LONG_BUFFER_DMA_SIZE
    ensures Direct(s, op) == []
  {
  }

  // A call that hands over nothing.
  lemma QuietStep(t: Sending, blk: nat, op: LongBuffer.Op)
    requires Handed(t.s, op) == [] && (t.taken != [] ==> 0 <= t.s.left <= LONG_BUFFER_DMA_SIZE)
    ensures HasSlot(t, op)
    ensures var t', d := Step(t, blk, op), Direct(t.s, op);
            && t' == t.(s := Apply(t.s, op), line := t.line + d)
            && t'.s.handed == t.s.handed && t'.s.direct == t.s.direct + d && (t.taken != [] ==> d == [])
  {
    var d := Direct(t.s, op);
    assert t.line + d + [] == t.line + d;
    if t.taken != [] {
      NoMoreDirect(t.s, op);
    }
  }

  lemma QuietStepKeeps(t: Sending, slots: seq<Slot>, line: seq<byte>, blk: nat, size: nat, input: seq<byte>,
                       op: LongBuffer.Op)
    requires Keeps(t, slots, line, blk, size, input) && Handed(t.s, op) == []
    ensures HasSlot(t, op) && Keeps(Step(t, blk, op), slots, line, blk, size, input + Input(op))
  {
    ApplyTracks(t.s, size, input, op);
    QuietStep(t, blk, op);
    Assoc(line, t.s.direct, Direct(t.s, op));
  }

  // The slots with a piece handed over.
  lemma FlushBusy(slots: seq<Slot>, blk: nat, h: seq<byte>)
    requires 0 < |h| < 0x1_0000 && FirstUnused(slots) < |slots|
    ensures var after, k := FlushSlots(slots, blk, h), FirstUnused(slots);
            && DmaBusy(after) && after == slots[k := Slot(blk, |h|, if DmaBusy(slots) then WaitingDMA else UsedByDMA)]
  {
    var after, k := FlushSlots(slots, blk, h), FirstUnused(slots);
    if DmaBusy(slots) {
      var i :| 0 <= i < |slots| && slots[i].used.UsedByDMA?;
      assert after[i].used.UsedByDMA?;
    } else {
      assert after[k].used.UsedByDMA?;
    }
  }

  lemma HandedCounts(t: Sending, busy: bool, line: seq<byte>, blk: nat, op: LongBuffer.Op)
    requires HasSlot(t, op) && Handed(t.s, op) != [] && Counts(t, busy, line)
    requires DmaBusy(t.slots) <==> busy || t.taken != []
    requires forall j :: 0 <= j < |t.taken| ==> t.taken[j] < |t.slots| && !t.slots[t.taken[j]].used.Unused?
    ensures Counts(Step(t, blk, op), busy, line)
  {
    var t', h, k := Step(t, blk, op), Handed(t.s, op), FirstUnused(t.slots);
    FlushBusy(t.slots, blk, h);
    WaitingElsewhere(t.slots, t.taken, k, t'.slots[k]);
    assert t'.taken[..|t'.taken| - 1] == t.taken && t'.taken[|t'.taken| - 1] == k;
    var r := Apply(t.s, op);
    assert |r.handed| == |t.s.handed| + |h| && |r.direct| == |t.s.direct| + |Direct(t.s, op)|;
  }

  lemma HandedFirst(t: Sending, slots: seq<Slot>, line: seq<byte>, blk: nat, op: LongBuffer.Op)
    requires FirstPiece(t, slots, line, blk) && Handed(t.s, op) != [] && HasSlot(t, op)
    ensures FirstPiece(Step(t, blk, op), slots, line, blk)
  {
    if t.taken == [] {
      var r := Apply(t.s, op);
      assert r.handed == [] + Handed(t.s, op) && r.direct == t.s.direct + Direct(t.s, op);
      Assoc(line, t.s.direct, Direct(t.s, op));
    }
  }

  lemma HandedSlots(t: Sending, blk: nat, op: LongBuffer.Op)
    requires HasSlot(t, op) && 0 < |Handed(t.s, op)| <= LONG_BUFFER_DMA_SIZE && AllSendable(t.slots)
    requires forall j :: 0 <= j < |t.taken| ==> t.taken[j] < |t.slots| && !t.slots[t.taken[j]].used.Unused?
    requires blk < BLOCKS && blk * BLOCK_LEN + LONG_BUFFER_DMA_SIZE <= BLOCKS * BLOCK_LEN
    ensures var t' := Step(t, blk, op);
            && |t'.slots| == |t.slots| && AllSendable(t'.slots) && DmaBusy(t'.slots)
            && forall j :: 0 <= j < |t'.taken| ==> t'.taken[j] < |t'.slots| && !t'.slots[t'.taken[j]].used.Unused?
  {
    var h := Handed(t.s, op);
    FlushBusy(t.slots, blk, h);
    assert Sendable(Slot(blk, |h|, WaitingDMA));
  }

  // A call that hands bytes over, to a slot that is free.
  lemma HandingStepKeeps(t: Sending, slots: seq<Slot>, line: seq<byte>, blk: nat, size: nat, input: seq<byte>,
                         op: LongBuffer.Op)
    requires Keeps(t, slots, line, blk, size, input) && Handed(t.s, op) != [] && HasSlot(t, op)
    requires blk < BLOCKS && blk * BLOCK_LEN + LONG_BUFFER_DMA_SIZE <= BLOCKS * BLOCK_LEN
    ensures Keeps(Step(t, blk, op), slots, line, blk, size, input + Input(op))
  {
    ApplyTracks(t.s, size, input, op);
    assert Apply(t.s, op).handed == t.s.handed + Handed(t.s, op);
    HandedSlots(t, blk, op);
    HandedCounts(t, DmaBusy(slots), line, blk, op);
    HandedFirst(t, slots, line, blk, op);
  }

  lemma {:induction false} StepsKeep(t: Sending, slots: seq<Slot>, line: seq<byte>, blk: nat, size: nat,
                                     input: seq<byte>, ops: seq<LongBuffer.Op>)
    requires Keeps(t, slots, line, blk, size, input) && HasSlots(t, blk, ops)
    requires blk < BLOCKS && blk * BLOCK_LEN + LONG_BUFFER_DMA_SIZE <= BLOCKS * BLOCK_LEN
    ensures Keeps(Steps(t, blk, ops), slots, line, blk, size, input + Inputs(ops))
    decreases |ops|
  {
    if ops == [] {
      assert input + [] == input;
    } else {
      if Handed(t.s, ops[0]) == [] {
        QuietStepKeeps(t, slots, line, blk, size, input, ops[0]);
      } else {
        HandingStepKeeps(t, slots, line, blk, size, input, ops[0]);
      }
      StepsKeep(Step(t, blk, ops[0]), slots, line, blk, size, input + Input(ops[0]), ops[1..]);
      Assoc(input, Input(ops[0]), Inputs(ops[1..]));
    }
  }

  // ---------- The message on the line ----------

  // After the calls and the final longBufferSend.
  function Finished(size: word, slots: seq<Slot>, line: seq<byte>, blk: nat, ops: seq<LongBuffer.Op>): Sending
    requires HasSlots(Start(size, slots, line), blk, ops + [Send])
  {
    Steps(Start(size, slots, line), blk, ops + [Send])
  }

  lemma {:induction false} InputsSend(ops: seq<LongBuffer.Op>)
    ensures Inputs(ops + [Send]) == Inputs(ops)
  {
    if ops == [] {
      assert ops + [Send] == [Send] && [Send][1..] == [];
    } else {
      assert (ops + [Send])[1..] == ops[1..] + [Send];
      InputsSend(ops[1..]);
    }
  }

  lemma StartKeeps(size: word, slots: seq<Slot>, line: seq<byte>, blk: nat)
    requires size < 0x8000 && AllSendable(slots)
    ensures Keeps(Start(size, slots, line), slots, line, blk, size, [])
  {
    assert line + [] == line;
  }

  lemma FinishedKeeps(size: word, slots: seq<Slot>, line: seq<byte>, blk: nat, ops: seq<LongBuffer.Op>)
    requires size < 0x8000 && AllSendable(slots) && HasSlots(Start(size, slots, line), blk, ops + [Send])
    requires blk < BLOCKS && blk * BLOCK_LEN + LONG_BUFFER_DMA_SIZE <= BLOCKS * BLOCK_LEN
    ensures Keeps(Finished(size, slots, line, blk, ops), slots, line, blk, size, Inputs(ops))
    ensures Finished(size, slots, line, blk, ops).s.buffered == []
  {
    StartKeeps(size, slots, line, blk);
    StepsKeep(Start(size, slots, line), slots, line, blk, size, [], ops + [Send]);
    InputsSend(ops);
    assert [] + Inputs(ops) == Inputs(ops);
    LastEmpties(Start(size, slots, line), blk, ops);
  }

  lemma {:induction false} LastEmpties(t: Sending, blk: nat, ops: seq<LongBuffer.Op>)
    requires HasSlots(t, blk, ops + [Send])
    ensures Steps(t, blk, ops + [Send]).s.buffered == []
    decreases |ops|
  {
    if ops == [] {
      assert ops + [Send] == [Send] && [Send][1..] == [];
    } else {
      assert (ops + [Send])[0] == ops[0] && (ops + [Send])[1..] == ops[1..] + [Send];
      LastEmpties(Step(t, blk, ops[0]), blk, ops[1..]);
    }
  }

  // The line, once the next send loop has added what the message's slots still hold.
  ghost predicate OnLine(t: Sending, buf: seq<byte>, expected: seq<byte>) {
    && |buf| == BLOCKS * BLOCK_LEN && AllSendable(t.slots) && InRange(t.slots, t.taken)
    && t.line + Shares(buf, t.slots, t.taken) == expected
  }

  // What the send loop adds for the message.
  ghost predicate Adds(t: Sending, buf: seq<byte>, share: seq<byte>) {
    && |buf| == BLOCKS * BLOCK_LEN && AllSendable(t.slots) && InRange(t.slots, t.taken)
    && Shares(buf, t.slots, t.taken) == share
  }

  // The loop's line has that between what it sends for the slots before the one taken and after.
  ghost predicate AddsBetween(t: Sending, buf: seq<byte>, slots: seq<Slot>, share: seq<byte>) {
    && |buf| == BLOCKS * BLOCK_LEN && AllSendable(t.slots) && AllSendable(slots)
    && t.taken != [] && t.taken[0] < |slots| == |t.slots|
    && Transfers(buf, t.slots, |slots|)
       == Transfers(buf, slots, t.taken[0]) + share
          + Transfers(buf, slots[t.taken[0] + 1..], |slots| - t.taken[0] - 1)
  }

  // The buffer holds a piece at a block.
  ghost predicate HoldsAt(buf: seq<byte>, blk: nat, b: seq<byte>) {
    && |buf| == BLOCKS * BLOCK_LEN && blk < BLOCKS && blk * BLOCK_LEN + |b| <= |buf|
    && buf[blk * BLOCK_LEN..blk * BLOCK_LEN + |b|] == b
  }

  function Late(slots: seq<Slot>, b: seq<byte>): seq<byte> {
    if b != [] && DmaBusy(slots) then b[..|b| - 1] else []
  }

  lemma OneShare(buf: seq<byte>, slots: seq<Slot>, k: nat)
    requires |buf| == BLOCKS * BLOCK_LEN && k < |slots| && AllSendable(slots)
    ensures InRange(slots, [k]) && Shares(buf, slots, [k]) == Own(buf, slots[k])
  {
    assert [k][..0] == [];
    assert Shares(buf, slots, []) + Own(buf, slots[k]) == Own(buf, slots[k]);
  }

  // One piece handed over: what its slot adds.
  lemma OnePiece(t: Sending, slots: seq<Slot>, line: seq<byte>, blk: nat, buf: seq<byte>)
    requires FirstPiece(t, slots, line, blk) && |t.taken| == 1 && t.last != [] && AllSendable(slots)
    requires HoldsAt(buf, blk, t.last)
    ensures Adds(t, buf, Late(slots, t.last)) && AddsBetween(t, buf, slots, Late(slots, t.last))
  {
    PieceAdds(t, slots, blk, buf);
    LoopLine(buf, slots, blk, t.last);
  }

  lemma PieceAdds(t: Sending, slots: seq<Slot>, blk: nat, buf: seq<byte>)
    requires t.last != [] && |t.last| < 0x1_0000 && FirstUnused(slots) < |slots| && t.taken == [FirstUnused(slots)]
    requires t.slots == FlushSlots(slots, blk, t.last) && AllSendable(slots) && HoldsAt(buf, blk, t.last)
    ensures Adds(t, buf, Late(slots, t.last)) && Own(buf, t.slots[t.taken[0]]) == Late(slots, t.last)
  {
    FlushShare(buf, slots, blk, t.last);
    OneShare(buf, t.slots, FirstUnused(slots));
  }

  // A long message whose calls, chunk copies that complete it and explicit sends included, each
  // find a slot when they hand bytes over, and which ends with longBufferSend: its bytes are on
  // the line after the next send loop, in order and all of them, exactly when nothing was handed
  // over, or one piece was and the DMA was idle before. A single piece that waits loses its
  // last byte; the loop's line then has the piece between what it sends for the slots before
  // and after.
  lemma LongMessageSentExactly(size: word, ops: seq<LongBuffer.Op>, buf: seq<byte>, slots: seq<Slot>,
                               line: seq<byte>, blk: nat)
    requires size < 0x8000 && AllSendable(slots)
    requires blk < BLOCKS && blk * BLOCK_LEN + LONG_BUFFER_DMA_SIZE <= BLOCKS * BLOCK_LEN
    requires HasSlots(Start(size, slots, line), blk, ops + [Send])
    requires HoldsAt(buf, blk, Finished(size, slots, line, blk, ops).last)
    ensures var t := Finished(size, slots, line, blk, ops);
            && (t.s.handed == [] <==> t.taken == [])
            && (OnLine(t, buf, line + Cut(size, Inputs(ops))) <==>
                  t.taken == [] || (|t.taken| == 1 && !DmaBusy(slots)))
            && (|t.taken| == 1 ==> Adds(t, buf, Late(slots, t.last)) && AddsBetween(t, buf, slots, Late(slots, t.last)))
  {
    var t := Finished(size, slots, line, blk, ops);
    FinishedKeeps(size, slots, line, blk, ops);
    WholeOnLine(t, slots, line, blk, size, Inputs(ops), buf);
    if |t.taken| == 1 {
      OnePiece(t, slots, line, blk, buf);
    }
  }

  lemma WholeOnLine(t: Sending, slots: seq<Slot>, line: seq<byte>, blk: nat, size: nat, input: seq<byte>,
                    buf: seq<byte>)
    requires Keeps(t, slots, line, blk, size, input) && t.s.buffered == [] && AllSendable(slots)
    requires HoldsAt(buf, blk, t.last)
    ensures OnLine(t, buf, line + Cut(size, input)) <==> t.taken == [] || (|t.taken| == 1 && !DmaBusy(slots))
  {
    var shares := Shares(buf, t.slots, t.taken);
    SharesLength(buf, t.slots, t.taken);
    assert t.s.All() == t.s.direct + t.s.handed;
    Assoc(line, t.s.direct, t.s.handed);
    if t.taken == [] {
      assert t.line + shares == line + t.s.direct + t.s.handed;
    } else if |t.taken| == 1 && !DmaBusy(slots) {
      OnePiece(t, slots, line, blk, buf);
      assert t.line + [] == t.line;
    } else {
      assert |t.line + shares| < |line + t.s.All()|;
    }
  }

  // ---------- Messages without explicit sends before the last ----------

  ghost predicate NoSend(ops: seq<LongBuffer.Op>) { forall i :: 0 <= i < |ops| ==> !ops[i].Send? }

  // Nothing handed over yet, or the message complete and handed over.
  ghost predicate AtMostOnce(t: Sending) {
    || (t.taken == [] && t.s.handed == [] && FirstUnused(t.slots) < |t.slots|)
    || (|t.taken| == 1 && t.s.left == 0 && t.s.buffered == [])
  }

  lemma AtMostOnceStep(t: Sending, blk: nat, size: nat, input: seq<byte>, op: LongBuffer.Op)
    requires Tracks(t.s, size, input) && AtMostOnce(t) && !op.Send?
    ensures HasSlot(t, op) && Tracks(Apply(t.s, op), size, input + Input(op))
    ensures AtMostOnce(Step(t, blk, op))
  {
    ApplyTracks(t.s, size, input, op);
    if t.taken != [] {
      CompleteStays(t.s, op);
    }
  }

  lemma CompleteStays(s: Stream, op: LongBuffer.Op)
    requires s.left == 0 && s.buffered == []
    ensures Handed(s, op) == [] && Apply(s, op).left == 0 && Apply(s, op).buffered == []
  {
    if op.Bytes? {
      assert op.data[0..0] == [];
    }
  }

  // Such a message finds its slot if one is free at the start, and hands over at most one piece:
  // a chunk copy that completes it flushes it, and the last call then has nothing left.
  lemma {:induction false} HandsOverOnce(t: Sending, blk: nat, size: nat, input: seq<byte>, ops: seq<LongBuffer.Op>)
    requires Tracks(t.s, size, input) && AtMostOnce(t) && NoSend(ops)
    ensures HasSlots(t, blk, ops + [Send]) && |Steps(t, blk, ops + [Send]).taken| <= 1
    decreases |ops|
  {
    if ops == [] {
      assert ops + [Send] == [Send] && [Send][1..] == [];
      FlushTracks(t.s, size, input);
      if t.taken != [] {
        CompleteStays(t.s, Send);
      }
    } else {
      assert (ops + [Send])[0] == ops[0] && (ops + [Send])[1..] == ops[1..] + [Send];
      AtMostOnceStep(t, blk, size, input, ops[0]);
      HandsOverOnce(Step(t, blk, ops[0]), blk, size, input + Input(ops[0]), ops[1..]);
    }
  }

  // A message of any bytes, words and chunks, ended by longBufferSend, with a slot free at the
  // start: it comes out whole exactly when nothing was handed over or the DMA was idle, and
  // without its last byte otherwise.
  lemma PlainMessageSentExactly(size: word, ops: seq<LongBuffer.Op>, buf: seq<byte>, slots: seq<Slot>,
                                line: seq<byte>, blk: nat)
    requires size < 0x8000 && AllSendable(slots) && NoSend(ops) && FirstUnused(slots) < |slots|
    requires blk < BLOCKS && blk * BLOCK_LEN + LONG_BUFFER_DMA_SIZE <= BLOCKS * BLOCK_LEN
    ensures HasSlots(Start(size, slots, line), blk, ops + [Send])
    ensures var t := Finished(size, slots, line, blk, ops);
            && t.s.direct + t.s.handed == Cut(size, Inputs(ops))
            && (HoldsAt(buf, blk, t.s.handed) ==>
                  && (OnLine(t, buf, line + Cut(size, Inputs(ops))) <==> t.s.handed == [] || !DmaBusy(slots))
                  && Adds(t, buf, Late(slots, t.s.handed)))
  {
    StartKeeps(size, slots, line, blk);
    HandsOverOnce(Start(size, slots, line), blk, size, [], ops);
    FinishedKeeps(size, slots, line, blk, ops);
    var t := Finished(size, slots, line, blk, ops);
    PlainOutcome(t, slots, line, blk, size, Inputs(ops), buf);
  }

  lemma PlainOutcome(t: Sending, slots: seq<Slot>, line: seq<byte>, blk: nat, size: nat, input: seq<byte>,
                     buf: seq<byte>)
    requires Keeps(t, slots, line, blk, size, input) && t.s.buffered == [] && AllSendable(slots) && |t.taken| <= 1
    ensures t.s.direct + t.s.handed == Cut(size, input)
    ensures HoldsAt(buf, blk, t.s.handed) ==>
              && (OnLine(t, buf, line + Cut(size, input)) <==> t.s.handed == [] || !DmaBusy(slots))
              && Adds(t, buf, Late(slots, t.s.handed))
  {
    assert t.s.All() == t.s.direct + t.s.handed;
    if HoldsAt(buf, blk, t.s.handed) {
      if t.taken == [] {
        assert t.line + [] == line + t.s.direct == line + (t.s.direct + []);
      } else {
        WholeOnLine(t, slots, line, blk, size, input, buf);
        OnePiece(t, slots, line, blk, buf);
      }
    }
  }
}
