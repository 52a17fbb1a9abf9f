/**
  The transmit side of the serial port: four slots that queue buffers for the DMA, the arena
  they lie in, and the long-message buffer.

  The line is the sequence of bytes put on it. Starting the DMA with length n puts the n bytes
  from the buffer's start on the line.
 */
module SerialSend {
  import opened Words
  import opened SendArena
  import opened LongBuffer

  datatype Used = Unused | UsedByDMA | Waiting | WaitingDMA | ToFree

  // A slot: the block its buffer starts on, the size recorded for it and its status.
  datatype Slot = Slot(blk: nat, size: word, used: Used)

  const SLOTS := 4

  predicate DmaBusy(slots: seq<Slot>) {
    exists i :: 0 <= i < |slots| && slots[i].used.UsedByDMA?
  }

  // The first unused slot, or |slots|.
  function FirstUnused(slots: seq<Slot>): (k: nat)
    ensures k <= |slots|
    ensures k < |slots| ==> slots[k].used.Unused?
    ensures forall j :: 0 <= j < k ==> !slots[j].used.Unused?
  {
    if slots == [] then 0 else if slots[0].used.Unused? then 0 else 1 + FirstUnused(slots[1..])
  }

  // A slot waiting for the DMA lies inside the buffer with all the bytes that will be sent.
  ghost predicate Sendable(slot: Slot) {
    slot.blk < BLOCKS && 1 <= slot.size && slot.blk * BLOCK_LEN + slot.size - 1 <= BLOCKS * BLOCK_LEN
  }

  // What the DMA sends for a queued slot: one byte less than the size recorded.
  function Transfer(buf: seq<byte>, slot: Slot): seq<byte>
    requires |buf| == BLOCKS * BLOCK_LEN && Sendable(slot)
  {
    buf[slot.blk * BLOCK_LEN..slot.blk * BLOCK_LEN + slot.size - 1]
  }

  // ---------- The send loop over slots ----------

  // What the loop's second half has put on the line after n slots.
  function Transfers(buf: seq<byte>, slots: seq<Slot>, n: nat): seq<byte>
    requires |buf| == BLOCKS * BLOCK_LEN && n <= |slots|
    requires forall j :: 0 <= j < |slots| && slots[j].used.WaitingDMA? ==> Sendable(slots[j])
  {
    if n == 0 then []
    else Transfers(buf, slots, n - 1) + (if slots[n - 1].used.WaitingDMA? then Transfer(buf, slots[n - 1]) else [])
  }

  // The map after the loop's first half: the slots to free, in order.
  function Freed(map0: Bits, buf: seq<byte>, slots: seq<Slot>, i: nat): Bits
    requires |buf| == BLOCKS * BLOCK_LEN && i <= |slots|
    requires forall j :: 0 <= j < |slots| ==> slots[j].blk < BLOCKS
    decreases |slots| - i
  {
    if i == |slots| then map0 else Freed(FreedOne(map0, buf, slots[i]), buf, slots, i + 1)
  }

  function FreedOne(map0: Bits, buf: seq<byte>, slot: Slot): Bits
    requires |buf| == BLOCKS * BLOCK_LEN && slot.blk < BLOCKS
  {
    var at := slot.blk * BLOCK_LEN;
    if slot.used.ToFree? && buf[at] == HEADER1 && buf[at + 1] == HEADER2 && buf[at + 2] == HEADER3
    then Cleared(map0, BlockCount(slot.size % 0x100)) else map0
  }

  function Finished(slot: Slot): Slot { if slot.used.ToFree? then slot.(used := Unused) else slot }

  // The send loop's first half frees exactly the blocks that, from block 0 on, the 8-bit size of a
  // finished slot covers whose buffer begins like a frame.
  lemma {:induction false} FreedExactly(m: Bits, buf: seq<byte>, slots: seq<Slot>, i: nat, k: nat)
    requires |buf| == BLOCKS * BLOCK_LEN && i <= |slots| && k < BLOCKS
    requires forall j :: 0 <= j < |slots| ==> slots[j].blk < BLOCKS
    ensures Freed(m, buf, slots, i)[k] <==>
              m[k] && !exists j :: i <= j < |slots| && slots[j].used.ToFree? && StartsFrame(buf, slots[j].blk)
                                   && k < BlockCount(slots[j].size % 0x100)
    decreases |slots| - i
  {
    if i < |slots| {
      FreedExactly(FreedOne(m, buf, slots[i]), buf, slots, i + 1, k);
    }
  }

  // After the loop a slot is unused if it was or was to be freed, and with the DMA if it was or
  // waited for it.
  lemma LoopStatus(u: Used)
    ensures AfterLoop(u).Unused? <==> u.Unused? || u.ToFree?
    ensures AfterLoop(u).UsedByDMA? <==> u.UsedByDMA? || u.WaitingDMA?
    ensures AfterLoop(u).Waiting? <==> u.Waiting?
  {
  }

  lemma {:induction false} TransfersSame(buf: seq<byte>, a: seq<Slot>, b: seq<Slot>, n: nat)
    requires |buf| == BLOCKS * BLOCK_LEN && n <= |a| == |b|
    requires forall j :: 0 <= j < |a| && a[j].used.WaitingDMA? ==> Sendable(a[j])
    requires forall j :: 0 <= j < |b| && b[j].used.WaitingDMA? ==> Sendable(b[j])
    requires forall j :: 0 <= j < |a| ==> b[j] == Finished(a[j])
    ensures Transfers(buf, a, n) == Transfers(buf, b, n)
  {
    if n > 0 {
      TransfersSame(buf, a, b, n - 1);
    }
  }

  function Started(slot: Slot): Slot { if slot.used.WaitingDMA? then slot.(used := UsedByDMA) else slot }

  function AfterLoop(u: Used): Used {
    match u case ToFree => Unused case WaitingDMA => UsedByDMA case _ => u
  }

  // ---------- A long message from its flush to the line ----------

  // The slots and what goes on the line when longBufferSend hands over b, gathered at block blk.
  function FlushSlots(slots: seq<Slot>, blk: nat, b: seq<byte>): seq<Slot>
    requires b == [] || FirstUnused(slots) < |slots|
    requires |b| < 0x1_0000
  {
    if b == [] then slots
    else slots[FirstUnused(slots) := Slot(blk, |b|, if DmaBusy(slots) then WaitingDMA else UsedByDMA)]
  }

  function FlushLine(slots: seq<Slot>, b: seq<byte>): seq<byte> { if DmaBusy(slots) then [] else b }

  // What the send loop puts on the line for one slot.
  function Own(buf: seq<byte>, slot: Slot): seq<byte>
    requires |buf| == BLOCKS * BLOCK_LEN && (slot.used.WaitingDMA? ==> Sendable(slot))
  {
    if slot.used.WaitingDMA? then Transfer(buf, slot) else []
  }

  // The loop's line is what it sends for the slots before slot k, for slot k, and for those after.
  lemma {:induction false} TransfersSplit(buf: seq<byte>, slots: seq<Slot>, k: nat, n: nat)
    requires |buf| == BLOCKS * BLOCK_LEN && k < n <= |slots|
    requires forall j :: 0 <= j < |slots| && slots[j].used.WaitingDMA? ==> Sendable(slots[j])
    ensures Transfers(buf, slots, n)
         == Transfers(buf, slots, k) + Own(buf, slots[k]) + Transfers(buf, slots[k + 1..], n - k - 1)
    decreases n
  {
    if n == k + 1 {
      assert Transfers(buf, slots[k + 1..], 0) == [];
      assert Transfers(buf, slots, n) == Transfers(buf, slots, k) + Own(buf, slots[k]);
    } else {
      TransfersSplit(buf, slots, k, n - 1);
      Assoc(Transfers(buf, slots, k) + Own(buf, slots[k]), Transfers(buf, slots[k + 1..], n - k - 2),
            Own(buf, slots[n - 1]));
    }
  }

  lemma LoopLine(buf: seq<byte>, slots: seq<Slot>, blk: nat, b: seq<byte>)
    requires |buf| == BLOCKS * BLOCK_LEN && |b| < 0x1_0000 && FirstUnused(slots) < |slots|
    requires forall j :: 0 <= j < |slots| && slots[j].used.WaitingDMA? ==> Sendable(slots[j])
    requires blk < BLOCKS && blk * BLOCK_LEN + |b| <= |buf| && buf[blk * BLOCK_LEN..blk * BLOCK_LEN + |b|] == b
    ensures var after, k, n := FlushSlots(slots, blk, b), FirstUnused(slots), |slots|;
            && (forall j :: 0 <= j < n && after[j].used.WaitingDMA? ==> Sendable(after[j]))
            && Transfers(buf, after, n)
               == Transfers(buf, slots, k) + Own(buf, after[k]) + Transfers(buf, slots[k + 1..], n - k - 1)
  {
    var after, k := FlushSlots(slots, blk, b), FirstUnused(slots);
    FlushShare(buf, slots, blk, b);
    FlushElsewhere(slots, blk, b);
    OneSlotChanged(buf, slots, after, k);
  }

  lemma OneSlotChanged(buf: seq<byte>, slots: seq<Slot>, after: seq<Slot>, k: nat)
    requires |buf| == BLOCKS * BLOCK_LEN && k < |slots| == |after|
    requires after[..k] == slots[..k] && after[k + 1..] == slots[k + 1..]
    requires forall j :: 0 <= j < |slots| && slots[j].used.WaitingDMA? ==> Sendable(slots[j])
    requires forall j :: 0 <= j < |after| && after[j].used.WaitingDMA? ==> Sendable(after[j])
    ensures Transfers(buf, after, |slots|)
         == Transfers(buf, slots, k) + Own(buf, after[k]) + Transfers(buf, slots[k + 1..], |slots| - k - 1)
  {
    TransfersSplit(buf, after, k, |slots|);
    SamePrefix(buf, slots, after, k);
  }

  lemma FlushElsewhere(slots: seq<Slot>, blk: nat, b: seq<byte>)
    requires |b| < 0x1_0000 && FirstUnused(slots) < |slots|
    ensures var after, k := FlushSlots(slots, blk, b), FirstUnused(slots);
            |after| == |slots| && after[..k] == slots[..k] && after[k + 1..] == slots[k + 1..]
  {
  }

  // The slot a flush takes and what the loop sends for it.
  lemma FlushShare(buf: seq<byte>, slots: seq<Slot>, blk: nat, b: seq<byte>)
    requires |buf| == BLOCKS * BLOCK_LEN && |b| < 0x1_0000 && FirstUnused(slots) < |slots|
    requires forall j :: 0 <= j < |slots| && slots[j].used.WaitingDMA? ==> Sendable(slots[j])
    requires blk < BLOCKS && blk * BLOCK_LEN + |b| <= |buf| && buf[blk * BLOCK_LEN..blk * BLOCK_LEN + |b|] == b
    ensures var after, k := FlushSlots(slots, blk, b), FirstUnused(slots);
            && (forall j :: 0 <= j < |slots| && after[j].used.WaitingDMA? ==> Sendable(after[j]))
            && Own(buf, after[k]) == if b != [] && DmaBusy(slots) then b[..|b| - 1] else []
  {
    if b != [] {
      QueuedTransfers(buf, blk, b);
      assert Sendable(Slot(blk, |b|, WaitingDMA));
    }
  }

  // A short frame's recorded size counts one byte more than the frame has, so a queued frame
  // comes out whole; a queued long buffer's size is its length, so it loses its last byte.
  lemma QueuedTransfers(buf: seq<byte>, blk: nat, b: seq<byte>)
    requires |buf| == BLOCKS * BLOCK_LEN && 1 <= |b| && blk < BLOCKS
    requires blk * BLOCK_LEN + |b| <= |buf| && buf[blk * BLOCK_LEN..blk * BLOCK_LEN + |b|] == b
    ensures Transfer(buf, Slot(blk, |b| + 1, WaitingDMA)) == b
    ensures Transfer(buf, Slot(blk, |b|, WaitingDMA)) == b[..|b| - 1]
  {
    var at := blk * BLOCK_LEN;
    assert buf[at..at + |b| - 1] == buf[at..at + |b|][..|b| - 1];
  }

  lemma {:induction false} SamePrefix(buf: seq<byte>, a: seq<Slot>, b: seq<Slot>, n: nat)
    requires |buf| == BLOCKS * BLOCK_LEN && n <= |a| == |b| && a[..n] == b[..n]
    requires forall j :: 0 <= j < |a| && a[j].used.WaitingDMA? ==> Sendable(a[j])
    requires forall j :: 0 <= j < |b| && b[j].used.WaitingDMA? ==> Sendable(b[j])
    ensures Transfers(buf, a, n) == Transfers(buf, b, n)
  {
    if n > 0 {
      assert a[..n][n - 1] == b[..n][n - 1];
      assert a[..n - 1] == a[..n][..n - 1] && b[..n - 1] == b[..n][..n - 1];
      SamePrefix(buf, a, b, n - 1);
    }
  }

  // ---------- Whether a buffer's blocks come back ----------

  // The buffer at a block begins like a frame.
  predicate StartsFrame(buf: seq<byte>, blk: nat)
    requires |buf| == BLOCKS * BLOCK_LEN && blk < BLOCKS
  {
    var at := blk * BLOCK_LEN;
    buf[at] == HEADER1 && buf[at + 1] == HEADER2 && buf[at + 2] == HEADER3
  }

  // Freeing a slot gives back exactly the n blocks it was granted when its buffer starts with a
  // frame header, the run starts at block 0, and the 8-bit size covers the run and nothing in use.
  lemma BlocksComeBack(m: Bits, buf: seq<byte>, blk: nat, n: nat, size: word)
    requires |buf| == BLOCKS * BLOCK_LEN && 0 < n && blk < BLOCKS && IsGrant(m, n, blk)
    ensures var cleared := BlockCount(size % 0x100);
            FreedOne(Granted(m, blk, n), buf, Slot(blk, size, ToFree)) == m <==>
              StartsFrame(buf, blk) && blk == 0 && Min(n, BLOCKS) <= cleared && Free(m, 0, cleared)
  {
    var cleared, g := BlockCount(size % 0x100), Granted(m, blk, n);
    assert g[blk] && !m[blk];
    if StartsFrame(buf, blk) {
      ClearedGrant(m, n, blk, cleared);
    }
  }

  // Clearing from block 0 undoes a grant, when it does, of a run that starts there.
  lemma ClearedGrant(m: Bits, n: nat, r: nat, cleared: nat)
    requires 0 < n && r < BLOCKS && IsGrant(m, n, r)
    ensures Cleared(Granted(m, r, n), cleared) == m <==>
              r == 0 && Min(n, BLOCKS) <= cleared && Free(m, 0, cleared)
  {
    var c := Cleared(Granted(m, r, n), cleared);
    assert Granted(m, r, n)[r] && !m[r];
    if r > 0 {
      assert !Free(m, r - 1, n);
      assert m[r - 1];
      assert c[r - 1] <==> r - 1 >= cleared;
      assert c[r] <==> r >= cleared;
    } else if Min(n, BLOCKS) <= cleared && Free(m, 0, cleared) {
      assert forall k :: 0 <= k < BLOCKS ==> c[k] == m[k];
    } else if Min(n, BLOCKS) > cleared {
      assert c[cleared] && !m[cleared];
    } else {
      var k :| 0 <= k < cleared && k < BLOCKS && m[k];
      assert !c[k];
    }
  }

  // For a long buffer: at block 0, beginning like a frame, and long enough for all eight blocks.
  lemma LongBufferComesBack(m: Bits, buf: seq<byte>, blk: nat, size: word)
    requires |buf| == BLOCKS * BLOCK_LEN && blk < BLOCKS && IsGrant(m, LONG_BLOCKS, blk)
    requires 1 <= size <= LONG_BUFFER_DMA_SIZE
    ensures FreedOne(Granted(m, blk, LONG_BLOCKS), buf, Slot(blk, size, ToFree)) == m <==>
              StartsFrame(buf, blk) && blk == 0 && BlockCount(size) == LONG_BLOCKS
  {
    BlocksComeBack(m, buf, blk, LONG_BLOCKS, size);
  }

  // ---------- How many long messages the arena takes ----------

  const LONG_BLOCKS := 8

  // A long message that was handed over: whether its buffer begins like a frame, and how many
  // bytes were gathered.
  datatype SentData = Sent(framed: bool, len: nat)

  type Tail = t: SentData | 1 <= t.len <= LONG_BUFFER_DMA_SIZE witness Sent(false, 1)

  // The least index whose run is free, or BLOCKS.
  function Grant(m: Bits, n: nat): (r: nat)
    ensures IsGrant(m, n, r)
  {
    GrantFrom(m, n, 0)
  }

  function GrantFrom(m: Bits, n: nat, i: nat): (r: nat)
    requires i <= BLOCKS && forall j :: 0 <= j < i ==> !Free(m, j, n)
    ensures IsGrant(m, n, r)
    decreases BLOCKS - i
  {
    if i == BLOCKS || RunFree(m, i, n) then i else GrantFrom(m, n, i + 1)
  }

  predicate RunFree(m: Bits, i: nat, n: nat)
    ensures RunFree(m, i, n) <==> Free(m, i, n)
  {
    forall k :: 0 <= k < BLOCKS && i <= k < i + n ==> !m[k]
  }

  // The map after one long message is granted its buffer, sent, and its slot freed; the map
  // stays when there is no run.
  function OneLong(m: Bits, t: Tail): Bits {
    var r := Grant(m, LONG_BLOCKS);
    if r == BLOCKS then m
    else if t.framed then Cleared(Granted(m, r, LONG_BLOCKS), BlockCount(t.len))
    else Granted(m, r, LONG_BLOCKS)
  }

  // It is what freeing the slot gives.
  lemma OneLongFrees(m: Bits, t: Tail, buf: seq<byte>)
    requires |buf| == BLOCKS * BLOCK_LEN && Grant(m, LONG_BLOCKS) < BLOCKS
    requires t.framed <==> StartsFrame(buf, Grant(m, LONG_BLOCKS))
    ensures var r := Grant(m, LONG_BLOCKS);
            OneLong(m, t) == FreedOne(Granted(m, r, LONG_BLOCKS), buf, Slot(r, t.len, ToFree))
  {
    var r := Grant(m, LONG_BLOCKS);
    FreedWhenFramed(Granted(m, r, LONG_BLOCKS), buf, Slot(r, t.len, ToFree));
  }

  lemma FreedWhenFramed(m: Bits, buf: seq<byte>, slot: Slot)
    requires |buf| == BLOCKS * BLOCK_LEN && slot.blk < BLOCKS && slot.used.ToFree? && slot.size < 0x100
    ensures FreedOne(m, buf, slot) == if StartsFrame(buf, slot.blk) then Cleared(m, BlockCount(slot.size)) else m
  {
    assert slot.size % 0x100 == slot.size;
  }

  function ManyLong(m: Bits, ts: seq<Tail>): Bits
    decreases |ts|
  {
    if ts == [] then m else ManyLong(OneLong(m, ts[0]), ts[1..])
  }

  predicate Returned(t: Tail) { t.framed && BlockCount(t.len) == LONG_BLOCKS }

  // How many of the messages leave blocks behind.
  function Kept(ts: seq<Tail>): nat {
    if ts == [] then 0 else (if Returned(ts[0]) then 0 else 1) + Kept(ts[1..])
  }

  // The map with some top part of the lower half in use, and all of the upper half or none of it.
  ghost predicate Halves(m: Bits, low: nat, high: bool) {
    && low <= LONG_BLOCKS
    && (forall k :: 0 <= k < LONG_BLOCKS ==> m[k] == (low <= k))
    && (forall k :: LONG_BLOCKS <= k < BLOCKS ==> m[k] == high)
  }

  lemma GrantInHalves(m: Bits, low: nat, high: bool)
    requires Halves(m, low, high)
    ensures Grant(m, LONG_BLOCKS) == if low == LONG_BLOCKS then 0 else if !high then LONG_BLOCKS else BLOCKS
  {
    var r := Grant(m, LONG_BLOCKS);
    if low == LONG_BLOCKS {
      assert Free(m, 0, LONG_BLOCKS);
    } else {
      assert forall j :: 0 <= j < LONG_BLOCKS ==> !Free(m, j, LONG_BLOCKS) by {
        forall j | 0 <= j < LONG_BLOCKS ensures !Free(m, j, LONG_BLOCKS) {
          assert m[LONG_BLOCKS - 1];
        }
      }
      if high {
        forall j | LONG_BLOCKS <= j < BLOCKS ensures !Free(m, j, LONG_BLOCKS) {
          assert m[j];
        }
      } else {
        assert Free(m, LONG_BLOCKS, LONG_BLOCKS);
      }
    }
  }

  // One long message: the lower half if it is free, else the upper half.
  lemma OneLongInHalves(m: Bits, low: nat, high: bool, t: Tail)
    requires Halves(m, low, high)
    ensures var cleared := if t.framed then BlockCount(t.len) else 0;
            && cleared <= LONG_BLOCKS
            && (low == LONG_BLOCKS ==> Halves(OneLong(m, t), cleared, high))
            && (low < LONG_BLOCKS && !high ==> Halves(OneLong(m, t), if low < cleared then cleared else low, true))
            && (low < LONG_BLOCKS && high ==> OneLong(m, t) == m)
  {
    GrantInHalves(m, low, high);
  }

  // The arena after messages of which so many left blocks behind: none in use; half of it lost;
  // or no run left, for good.
  ghost predicate After(m: Bits, kept: nat) {
    if kept == 0 then Halves(m, LONG_BLOCKS, false)
    else if kept == 1 then Halves(m, LONG_BLOCKS, true) || exists low :: 0 <= low < LONG_BLOCKS && Halves(m, low, false)
    else exists low :: 0 <= low < LONG_BLOCKS && Halves(m, low, true)
  }

  lemma AfterOne(m: Bits, kept: nat, t: Tail)
    requires After(m, kept)
    ensures After(OneLong(m, t), if Returned(t) then kept else kept + 1)
  {
    var m' := OneLong(m, t);
    if kept == 0 {
      OneLongInHalves(m, LONG_BLOCKS, false, t);
    } else if kept == 1 && Halves(m, LONG_BLOCKS, true) {
      OneLongInHalves(m, LONG_BLOCKS, true, t);
    } else if kept == 1 {
      var low :| 0 <= low < LONG_BLOCKS && Halves(m, low, false);
      OneLongInHalves(m, low, false, t);
    } else {
      var low :| 0 <= low < LONG_BLOCKS && Halves(m, low, true);
      OneLongInHalves(m, low, true, t);
    }
  }

  lemma {:induction false} AfterMany(m: Bits, kept: nat, ts: seq<Tail>)
    requires After(m, kept)
    ensures After(ManyLong(m, ts), kept + Kept(ts))
    decreases |ts|
  {
    if ts != [] {
      AfterOne(m, kept, ts[0]);
      AfterMany(OneLong(m, ts[0]), if Returned(ts[0]) then kept else kept + 1, ts[1..]);
    }
  }

  // After any run of long messages, each freed once it is sent, there is a run for another one
  // exactly when fewer than two of them left blocks behind: their gathered end did not begin
  // like a frame or was too short for all eight blocks. A run that is found lies in the arena.
  lemma LongMessagesFit(ts: seq<Tail>)
    ensures var m := ManyLong(EMPTY, ts);
            && (HasRun(m, LONG_BLOCKS) <==> Kept(ts) < 2)
            && (HasRun(m, LONG_BLOCKS) <==> HasRunInside(m, LONG_BLOCKS))
  {
    var m, kept := ManyLong(EMPTY, ts), Kept(ts);
    AfterMany(EMPTY, 0, ts);
    if kept == 0 || (kept == 1 && Halves(m, LONG_BLOCKS, true)) {
      assert Free(m, 0, LONG_BLOCKS);
    } else if kept == 1 {
      var low :| 0 <= low < LONG_BLOCKS && Halves(m, low, false);
      assert Free(m, LONG_BLOCKS, LONG_BLOCKS);
    } else {
      var low :| 0 <= low < LONG_BLOCKS && Halves(m, low, true);
      GrantInHalves(m, low, true);
    }
  }

  // ---------- Chunks and the buffer ----------

  // How many of n bytes a copy puts into the buffer, and whether it then hands bytes over.
  function Gathered(left: int16, n: nat): nat { Size(left, n) - Straight(left, Size(left, n)) }

  predicate Copies(left: int16, pos: nat, n: nat) {
    Less16(left, Size(left, n)) <= 0 && pos + Gathered(left, n) > 0
  }

  lemma Less16Twice(x: int16, m: nat, n: nat)
    ensures Less16(Less16(x, m), n) == Less16(x, m + n)
  {
  }

  // What a copy gathers fits behind what was gathered, and leaves room for the bytes to come.
  lemma GatheredFits(left: int16, pos: nat, n: nat)
    requires left < 0 ==> pos == 0
    requires pos + (if left < 0 then 0 else Min(left, LONG_BUFFER_DMA_SIZE)) <= LONG_BUFFER_DMA_SIZE
    requires Gathered(left, n) <= LONG_BUFFER_DMA_SIZE
    ensures pos + Gathered(left, n) <= LONG_BUFFER_DMA_SIZE
    ensures var left' := Less16(left, Size(left, n));
            left' > 0 ==> pos + Gathered(left, n) + Min(left', LONG_BUFFER_DMA_SIZE) <= LONG_BUFFER_DMA_SIZE
  {
  }

  class SerialPort {
    const arena: Arena
    const dataSends: array<Slot>
    var wire: seq<byte>
    var dataToSend: int16
    var lastBuffer: nat
    var bufferPos: nat
    // The bytes of the current long message sent directly and handed over so far.
    ghost var direct: seq<byte>
    ghost var handed: seq<byte>
    // The line as the current long message's header left it.
    ghost var lineStart: seq<byte>

    // The line shows the header and the bytes sent directly, nothing else.
    ghost predicate Streaming()
      reads this
    {
      wire == lineStart + direct
    }

    ghost predicate Valid()
      reads this, arena, dataSends
    {
      && arena.Valid() && dataSends.Length == SLOTS
      && forall j :: 0 <= j < SLOTS ==> dataSends[j].blk < BLOCKS
    }

    // The long buffer lies inside the arena with room for what is still to be gathered; nothing
    // is left in it while the count reads as negative.
    ghost predicate LongOk()
      reads this
    {
      && (dataToSend < 0 ==> bufferPos == 0)
      && lastBuffer * BLOCK_LEN + LONG_BUFFER_DMA_SIZE <= BLOCKS * BLOCK_LEN
      && bufferPos + Min(if dataToSend < 0 then 0 else dataToSend, LONG_BUFFER_DMA_SIZE) <= LONG_BUFFER_DMA_SIZE
    }

    ghost predicate Fits()
      reads this
    {
      lastBuffer * BLOCK_LEN + LONG_BUFFER_DMA_SIZE <= BLOCKS * BLOCK_LEN && bufferPos <= LONG_BUFFER_DMA_SIZE
    }

    ghost function Long(): Stream
      reads this, arena, arena.sendingBuffer
      requires arena.Valid() && Fits()
    {
      var at := lastBuffer * BLOCK_LEN;
      Stream(dataToSend, direct, handed, arena.sendingBuffer[at..at + bufferPos])
    }

    constructor ()
      ensures Valid() && fresh(arena) && fresh(arena.sendingBuffer) && fresh(dataSends)
      ensures wire == [] && arena.bufferMap == EMPTY
      ensures forall j :: 0 <= j < SLOTS ==> dataSends[j].used.Unused?
    {
      var a := new Arena();
      arena := a;
      dataSends := new Slot[SLOTS](_ => Slot(0, 0, Unused));
      wire, dataToSend, lastBuffer, bufferPos, direct, handed, lineStart := [], 0, 0, 0, [], [], [];
    }

    method GetFreeSendBuffer() returns (k: nat)
      requires Valid()
      ensures k == FirstUnused(dataSends[..])
    {
      k := 0;
      while k < SLOTS && !dataSends[k].used.Unused?
        invariant k <= FirstUnused(dataSends[..])
      {
        k := k + 1;
      }
    }

    method Busy() returns (b: bool)
      requires Valid()
      ensures b == DmaBusy(dataSends[..])
    {
      b := dataSends[0].used.UsedByDMA? || dataSends[1].used.UsedByDMA?
           || dataSends[2].used.UsedByDMA? || dataSends[3].used.UsedByDMA?;
      assert dataSends[..][0] == dataSends[0] && dataSends[..][1] == dataSends[1];
      assert dataSends[..][2] == dataSends[2] && dataSends[..][3] == dataSends[3];
    }

    // Programs the DMA with the slot's buffer and a length.
    method StartDma(k: nat, len: nat)
      requires Valid() && k < SLOTS && dataSends[k].blk * BLOCK_LEN + len <= BLOCKS * BLOCK_LEN
      modifies this`wire, dataSends
      ensures Valid() && dataSends[..] == old(dataSends[..])[k := old(dataSends[k]).(used := UsedByDMA)]
      ensures var at := old(dataSends[k]).blk * BLOCK_LEN;
              wire == old(wire) + arena.sendingBuffer[at..at + len]
    {
      var at := dataSends[k].blk * BLOCK_LEN;
      wire := wire + arena.sendingBuffer[at..at + len];
      dataSends[k] := dataSends[k].(used := UsedByDMA);
      assert dataSends[..] == old(dataSends[..])[k := old(dataSends[k]).(used := UsedByDMA)];
    }

    // Takes the first unused slot and grants it a run for a frame.
    method TakeSlot(size: word) returns (k: nat)
      requires Valid() && FirstUnused(dataSends[..]) < SLOTS && size + HEADER_LEN < 0x1_0000
      requires HasRun(arena.bufferMap, BlockCount(size + HEADER_LEN))
      modifies dataSends, arena`bufferMap, arena.sendingBuffer
      ensures Valid() && k == FirstUnused(old(dataSends[..]))
      ensures var n, slot := BlockCount(size + HEADER_LEN), dataSends[k];
              && IsGrant(old(arena.bufferMap), n, slot.blk)
              && arena.bufferMap == Granted(old(arena.bufferMap), slot.blk, n)
              && dataSends[..] == old(dataSends[..])[k := Slot(slot.blk, size + HEADER_LEN, Waiting)]
              && var at := slot.blk * BLOCK_LEN;
                 && arena.sendingBuffer[at..at + 5] == [HEADER1, HEADER2, HEADER3, Lo(size), Hi(size)]
                 && forall i :: 0 <= i < at || at + 5 <= i < BLOCKS * BLOCK_LEN ==>
                      arena.sendingBuffer[i] == old(arena.sendingBuffer[i])
    {
      k := GetFreeSendBuffer();
      var blk := arena.SendAlloc(size + HEADER_LEN);
      dataSends[k] := Slot(blk, size + HEADER_LEN, Waiting);
      assert dataSends[..] == old(dataSends[..])[k := Slot(blk, size + HEADER_LEN, Waiting)];
    }

    // getSendBuffer: with no slot free it runs the send loop and gives none.
    method GetSendBuffer(size: word) returns (taken: Option<nat>)
      requires Valid() && size + HEADER_LEN < 0x1_0000
      requires FirstUnused(dataSends[..]) < SLOTS ==> HasRun(arena.bufferMap, BlockCount(size + HEADER_LEN))
      requires FirstUnused(dataSends[..]) == SLOTS ==>
                 forall j :: 0 <= j < SLOTS && dataSends[j].used.WaitingDMA? ==> Sendable(dataSends[j])
      modifies this`wire, dataSends, arena`bufferMap, arena.sendingBuffer
      ensures Valid()
      ensures taken == if FirstUnused(old(dataSends[..])) < SLOTS then Some(FirstUnused(old(dataSends[..]))) else None
      ensures taken.Some? ==>
                var n, k := BlockCount(size + HEADER_LEN), taken.value;
                var slot := dataSends[k];
                && wire == old(wire)
                && IsGrant(old(arena.bufferMap), n, slot.blk)
                && arena.bufferMap == Granted(old(arena.bufferMap), slot.blk, n)
                && dataSends[..] == old(dataSends[..])[k := Slot(slot.blk, size + HEADER_LEN, Waiting)]
                && var at := slot.blk * BLOCK_LEN;
                   && arena.sendingBuffer[at..at + 5] == [HEADER1, HEADER2, HEADER3, Lo(size), Hi(size)]
                   && forall i :: 0 <= i < at || at + 5 <= i < BLOCKS * BLOCK_LEN ==>
                        arena.sendingBuffer[i] == old(arena.sendingBuffer[i])
      ensures taken.None? ==>
                && arena.sendingBuffer[..] == old(arena.sendingBuffer[..])
                && wire == old(wire) + Transfers(old(arena.sendingBuffer[..]), old(dataSends[..]), SLOTS)
                && arena.bufferMap == Freed(old(arena.bufferMap), old(arena.sendingBuffer[..]), old(dataSends[..]), 0)
                && forall j :: 0 <= j < SLOTS ==>
                     dataSends[j] == old(dataSends[j]).(used := AfterLoop(old(dataSends[j]).used))
    {
      var k := GetFreeSendBuffer();
      if k == SLOTS {
        SerialSendLoop();
        return None;
      }
      k := TakeSlot(size);
      return Some(k);
    }

    // send: the code completes the header, and the frame is sent or queued.
    method Send(code: byte, k: nat)
      requires Valid() && k < SLOTS && HEADER_LEN <= dataSends[k].size && Sendable(dataSends[k])
      modifies this`wire, dataSends, arena.sendingBuffer
      ensures Valid()
      ensures var slot, busy := old(dataSends[k]), DmaBusy(old(dataSends[..]));
              var at := slot.blk * BLOCK_LEN;
              && arena.sendingBuffer[..] == old(arena.sendingBuffer[..])[at + 5 := code]
              && dataSends[..] == old(dataSends[..])[k := slot.(used := if busy then WaitingDMA else UsedByDMA)]
              && wire == old(wire) + (if busy then [] else Transfer(arena.sendingBuffer[..], slot))
    {
      var at := dataSends[k].blk * BLOCK_LEN;
      arena.sendingBuffer[at + HEADER_LEN - 1] := code;
      assert arena.sendingBuffer[..] == old(arena.sendingBuffer[..])[at + 5 := code];
      var busy := Busy();
      if busy {
        dataSends[k] := dataSends[k].(used := WaitingDMA);
        assert dataSends[..] == old(dataSends[..])[k := old(dataSends[k]).(used := WaitingDMA)];
      } else {
        StartDma(k, dataSends[k].size - 1);
      }
    }

    method FreeIfFinished(k: nat)
      requires Valid() && k < SLOTS
      modifies dataSends, arena`bufferMap
      ensures Valid() && dataSends[..] == old(dataSends[..])[k := Finished(old(dataSends[k]))]
      ensures arena.bufferMap == FreedOne(old(arena.bufferMap), arena.sendingBuffer[..], old(dataSends[k]))
    {
      if dataSends[k].used.ToFree? {
        arena.SendFree(dataSends[k].blk, dataSends[k].size % 0x100);
        dataSends[k] := dataSends[k].(used := Unused);
      }
      assert dataSends[..] == old(dataSends[..])[k := Finished(old(dataSends[k]))];
    }

    // The first half of serialSendLoop.
    method FreeFinished()
      requires Valid()
      modifies dataSends, arena`bufferMap
      ensures Valid()
      ensures arena.bufferMap == Freed(old(arena.bufferMap), arena.sendingBuffer[..], old(dataSends[..]), 0)
      ensures forall j :: 0 <= j < SLOTS ==> dataSends[j] == Finished(old(dataSends[j]))
    {
      ghost var buf, slots := arena.sendingBuffer[..], dataSends[..];
      for k := 0 to SLOTS
        invariant Valid()
        invariant Freed(arena.bufferMap, buf, slots, k) == Freed(old(arena.bufferMap), buf, slots, 0)
        invariant forall j :: 0 <= j < SLOTS ==> dataSends[j] == if j < k then Finished(slots[j]) else slots[j]
      {
        ghost var before := dataSends[..];
        FreeIfFinished(k);
        assert forall j :: 0 <= j < SLOTS ==> dataSends[j] == if j == k then Finished(slots[k]) else before[j];
      }
    }

    method StartIfQueued(k: nat)
      requires Valid() && k < SLOTS && (dataSends[k].used.WaitingDMA? ==> Sendable(dataSends[k]))
      modifies this`wire, dataSends
      ensures Valid() && dataSends[..] == old(dataSends[..])[k := Started(old(dataSends[k]))]
      ensures wire == old(wire) + if old(dataSends[k]).used.WaitingDMA?
                                  then Transfer(arena.sendingBuffer[..], old(dataSends[k])) else []
    {
      if dataSends[k].used.WaitingDMA? {
        StartDma(k, dataSends[k].size - 1);
      }
    }

    // The second half.
    method StartQueued()
      requires Valid()
      requires forall j :: 0 <= j < SLOTS && dataSends[j].used.WaitingDMA? ==> Sendable(dataSends[j])
      modifies this`wire, dataSends
      ensures Valid()
      ensures wire == old(wire) + Transfers(arena.sendingBuffer[..], old(dataSends[..]), SLOTS)
      ensures forall j :: 0 <= j < SLOTS ==> dataSends[j] == Started(old(dataSends[j]))
    {
      ghost var buf, slots := arena.sendingBuffer[..], dataSends[..];
      for k := 0 to SLOTS
        invariant Valid() && wire == old(wire) + Transfers(buf, slots, k)
        invariant forall j :: 0 <= j < SLOTS ==> dataSends[j] == if j < k then Started(slots[j]) else slots[j]
      {
        ghost var before := dataSends[..];
        ghost var sent := Transfers(buf, slots, k);
        StartIfQueued(k);
        Assoc(old(wire), sent, if slots[k].used.WaitingDMA? then Transfer(buf, slots[k]) else []);
        assert forall j :: 0 <= j < SLOTS ==> dataSends[j] == if j == k then Started(slots[k]) else before[j];
      }
    }

    // serialSendLoop: finished slots are freed, then every queued slot is started.
    method SerialSendLoop()
      requires Valid()
      requires forall j :: 0 <= j < SLOTS && dataSends[j].used.WaitingDMA? ==> Sendable(dataSends[j])
      modifies this`wire, dataSends, arena`bufferMap
      ensures Valid()
      ensures wire == old(wire) + Transfers(arena.sendingBuffer[..], old(dataSends[..]), SLOTS)
      ensures arena.bufferMap == Freed(old(arena.bufferMap), arena.sendingBuffer[..], old(dataSends[..]), 0)
      ensures forall j :: 0 <= j < SLOTS ==>
                dataSends[j] == old(dataSends[j]).(used := AfterLoop(old(dataSends[j]).used))
    {
      FreeFinished();
      TransfersSame(arena.sendingBuffer[..], old(dataSends[..]), dataSends[..], SLOTS);
      StartQueued();
    }

    // The header goes to the line byte by byte.
    method SendHeader(size: word, code: byte)
      modifies this`wire
      ensures wire == old(wire) + FrameHeader(size, code)
    {
      var header := FrameHeader(size, code);
      for i := 0 to 6
        invariant wire == old(wire) + header[..i]
      {
        assert header[..i + 1] == header[..i] + [header[i]];
        wire := wire + [header[i]];
      }
      assert header[..6] == header;
    }

    // initLongBuffer, when the arena has room for the buffer: the frame header goes to the line.
    method InitLongBuffer(size: word, code: byte)
      requires Valid() && HasRunInside(arena.bufferMap, BlockCount(LONG_BUFFER_DMA_SIZE))
      modifies this, arena`bufferMap
      ensures Valid() && LongOk() && Long() == Stream(Signed(size), [], [], [])
      ensures wire == old(wire) + FrameHeader(size, code)
      ensures Streaming() && lineStart == wire
      ensures IsGrant(old(arena.bufferMap), BlockCount(LONG_BUFFER_DMA_SIZE), lastBuffer)
      ensures arena.bufferMap == Granted(old(arena.bufferMap), lastBuffer, BlockCount(LONG_BUFFER_DMA_SIZE))
    {
      dataToSend := Signed(size);
      ghost var m := arena.bufferMap;
      var r := arena.InternalAlloc(LONG_BUFFER_DMA_SIZE);
      RunInside(m, BlockCount(LONG_BUFFER_DMA_SIZE));
      GrantInside(m, BlockCount(LONG_BUFFER_DMA_SIZE), r.value);
      lastBuffer := r.value;
      bufferPos, direct, handed := 0, [], [];
      SendHeader(size, code);
      lineStart := wire;
    }

    // longBufferSendUInt8
    method LongBufferSendUInt8(value: byte)
      requires Valid() && LongOk()
      modifies this`wire, this`dataToSend, this`bufferPos, this`direct, arena.sendingBuffer
      ensures Valid() && LongOk() && Long() == Push(old(Long()), value)
      ensures wire == old(wire) + direct[|old(direct)|..] && |old(direct)| <= |direct|
      ensures old(Streaming()) ==> Streaming()
    {
      if dataToSend > LONG_BUFFER_DMA_SIZE {
        wire := wire + [value];
        direct := direct + [value];
        dataToSend := dataToSend - 1;
      } else if dataToSend > 0 {
        var at := lastBuffer * BLOCK_LEN + bufferPos;
        arena.sendingBuffer[at] := value;
        bufferPos := bufferPos + 1;
        dataToSend := dataToSend - 1;
      }
    }

    // longBufferSendUInt16
    method LongBufferSendUInt16(value: word)
      requires Valid() && LongOk()
      modifies this`wire, this`dataToSend, this`bufferPos, this`direct, arena.sendingBuffer
      ensures Valid() && LongOk() && Long() == Push(Push(old(Long()), Lo(value)), Hi(value))
      ensures |old(direct)| <= |direct| && wire == old(wire) + direct[|old(direct)|..]
      ensures old(Streaming()) ==> Streaming()
    {
      LongBufferSendUInt8(Lo(value));
      LongBufferSendUInt8(Hi(value));
    }

    // longBufferSend, with a slot free when there is something to send.
    method LongBufferSend()
      requires Valid() && Fits() && (bufferPos > 0 ==> FirstUnused(dataSends[..]) < SLOTS)
      modifies this`wire, this`bufferPos, this`handed, dataSends
      ensures Valid() && LongOk() && Long() == Flush(old(Long()))
      ensures dataSends[..] == FlushSlots(old(dataSends[..]), lastBuffer, old(Long()).buffered)
      ensures wire == old(wire) + FlushLine(old(dataSends[..]), old(Long()).buffered)
    {
      if bufferPos > 0 {
        var k := GetFreeSendBuffer();
        var busy := Busy();
        handed := handed + Long().buffered;
        dataSends[k] := Slot(lastBuffer, bufferPos, if busy then WaitingDMA else Unused);
        if !busy {
          StartDma(k, bufferPos);
        }
        assert dataSends[..]
            == old(dataSends[..])[k := Slot(lastBuffer, bufferPos, if busy then WaitingDMA else UsedByDMA)];
      }
      bufferPos := 0;
    }

    // Bytes sent one by one straight to the line.
    method SendDirect(bytes: seq<byte>)
      modifies this`wire, this`direct
      ensures wire == old(wire) + bytes && direct == old(direct) + bytes
    {
      for i := 0 to |bytes|
        invariant wire == old(wire) + bytes[..i] && direct == old(direct) + bytes[..i]
      {
        assert bytes[..i + 1] == bytes[..i] + [bytes[i]];
        wire := wire + [bytes[i]];
        direct := direct + [bytes[i]];
      }
      assert bytes[..|bytes|] == bytes;
    }

    // Bytes gathered behind those already in the buffer.
    method Gather(bytes: seq<byte>)
      requires Valid() && Fits() && bufferPos + |bytes| <= LONG_BUFFER_DMA_SIZE
      modifies this`dataToSend, this`bufferPos, arena.sendingBuffer
      ensures Valid() && bufferPos == old(bufferPos) + |bytes| && dataToSend == Less16(old(dataToSend), |bytes|)
      ensures var at := lastBuffer * BLOCK_LEN;
              arena.sendingBuffer[at..at + bufferPos] == old(arena.sendingBuffer[at..at + bufferPos]) + bytes
    {
      if |bytes| > 0 {
        arena.Append(lastBuffer * BLOCK_LEN, lastBuffer * BLOCK_LEN + bufferPos, bytes);
        bufferPos := bufferPos + |bytes|;
        dataToSend := Less16(dataToSend, |bytes|);
      }
    }

    // The same, said of the stream.
    method GatherInto(bytes: seq<byte>)
      requires Valid() && Fits() && bufferPos + |bytes| <= LONG_BUFFER_DMA_SIZE
      modifies this`dataToSend, this`bufferPos, arena.sendingBuffer
      ensures Valid() && Fits() && bufferPos == old(bufferPos) + |bytes|
      ensures Long() == var s := old(Long()); Stream(Less16(s.left, |bytes|), s.direct, s.handed, s.buffered + bytes)
    {
      Gather(bytes);
    }

    // The part of a chunk that goes straight to the line.
    method SendStraight(adsu: seq<byte>, size: nat) returns (toSend: nat)
      requires size <= |adsu|
      modifies this`wire, this`dataToSend, this`direct
      ensures toSend == Straight(old(dataToSend), size) <= size
      ensures dataToSend == Less16(old(dataToSend), toSend)
      ensures direct == old(direct) + adsu[..toSend] && wire == old(wire) + adsu[..toSend]
    {
      toSend := 0;
      var toSimpleCopy := Less16(dataToSend, LONG_BUFFER_DMA_SIZE);
      if toSimpleCopy > 0 {
        toSend := Min(size, toSimpleCopy);
        dataToSend := Less16(dataToSend, toSend);
      }
      SendDirect(adsu[..toSend]);
    }

    // cpyIntoLongBuffer before it looks whether the message is complete.
    method TakeIn(adsu: seq<byte>)
      requires Valid() && LongOk() && Gathered(dataToSend, |adsu|) <= LONG_BUFFER_DMA_SIZE
      modifies this`wire, this`dataToSend, this`bufferPos, this`direct, arena.sendingBuffer
      ensures Valid() && Fits() && Long() == Taken(old(Long()), adsu)
      ensures bufferPos == old(bufferPos) + Gathered(old(dataToSend), |adsu|)
      ensures dataToSend > 0 ==> LongOk()
      ensures |old(direct)| <= |direct| && wire == old(wire) + direct[|old(direct)|..]
    {
      GatheredFits(dataToSend, bufferPos, |adsu|);
      ghost var s := Long();
      var size := Size(dataToSend, |adsu|);
      var toSend := SendStraight(adsu, size);
      Less16Twice(s.left, toSend, size - toSend);
      ghost var between := Long();
      assert between == Stream(dataToSend, s.direct + adsu[..toSend], s.handed, s.buffered);
      GatherInto(adsu[toSend..size]);
    }

    // cpyIntoLongBuffer, for a chunk that does not overrun the buffer.
    method CpyIntoLongBuffer(adsu: seq<byte>)
      requires Valid() && LongOk() && Gathered(dataToSend, |adsu|) <= LONG_BUFFER_DMA_SIZE
      requires Copies(dataToSend, bufferPos, |adsu|) ==> FirstUnused(dataSends[..]) < SLOTS
      modifies this`wire, this`dataToSend, this`bufferPos, this`direct, this`handed, arena.sendingBuffer, dataSends
      ensures Valid() && LongOk() && Long() == Copy(old(Long()), adsu)
      ensures old(direct) <= direct && old(handed) <= handed
      ensures var h := handed[|old(handed)|..];
              && |h| < 0x1_0000 && (h == [] || FirstUnused(old(dataSends[..])) < SLOTS)
              && dataSends[..] == FlushSlots(old(dataSends[..]), lastBuffer, h)
              && wire == old(wire) + direct[|old(direct)|..] + FlushLine(old(dataSends[..]), h)
    {
      TakeIn(adsu);
      if dataToSend <= 0 {
        LongBufferSend();
        bufferPos := 0;
      }
    }
  }
}
