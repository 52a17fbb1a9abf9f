/**
  The transmit arena: sixteen 16-byte blocks of one 256-byte buffer, granted in runs through a
  16-bit map with one bit per block (bit k is element k of the map).
 */
module SendArena {
  import opened Words

  const BLOCKS := 16
  const BLOCK_LEN := 16
  const HEADER_LEN := 6
  const HEADER1: byte := 0x55
  const HEADER2: byte := 0xAA
  const HEADER3: byte := 0x42

  type Bits = m: seq<bool> | |m| == BLOCKS witness seq(BLOCKS, _ => false)

  const EMPTY: Bits := seq(BLOCKS, _ => false)

  // ---------- Operations of a 16-bit word ----------

  function ShiftIn(m: Bits): Bits { [true] + m[..BLOCKS - 1] }

  function ShiftLeft(m: Bits, n: nat): Bits {
    seq(BLOCKS, k requires 0 <= k < BLOCKS => k >= n && m[k - n])
  }

  function ShiftRight(m: Bits): Bits { m[1..] + [false] }

  function And(a: Bits, b: Bits): Bits { seq(BLOCKS, k requires 0 <= k < BLOCKS => a[k] && b[k]) }

  function Or(a: Bits, b: Bits): Bits { seq(BLOCKS, k requires 0 <= k < BLOCKS => a[k] || b[k]) }

  function Not(a: Bits): Bits { seq(BLOCKS, k requires 0 <= k < BLOCKS => !a[k]) }

  // ---------- Runs of blocks ----------

  // The 8-bit count of blocks for a size.
  function BlockCount(size: word): byte {
    var whole: byte := size / BLOCK_LEN % 0x100;
    if size % BLOCK_LEN != 0 then (whole + 1) % 0x100 else whole
  }

  // The count covers the size with less than a block to spare, exactly up to 255 blocks; from
  // there on it wraps.
  lemma BlocksCoverExactly(size: word)
    ensures size <= 16 * BlockCount(size) < size + 16 <==> size <= 0xFF0
  {
  }

  // No block of the run from i is in use, as far as the map goes.
  ghost predicate Free(m: Bits, i: nat, n: nat) {
    forall k :: i <= k < i + n && k < BLOCKS ==> !m[k]
  }

  // m with the run from i in use, as far as the map goes.
  function Granted(m: Bits, i: nat, n: nat): Bits {
    seq(BLOCKS, k requires 0 <= k < BLOCKS => m[k] || i <= k < i + n)
  }

  // m with the run from block 0 free.
  function Cleared(m: Bits, n: nat): Bits {
    seq(BLOCKS, k requires 0 <= k < BLOCKS => m[k] && k >= n)
  }

  // A grant is the least index whose run is free; r is BLOCKS when there is none.
  ghost predicate IsGrant(m: Bits, n: nat, r: nat) {
    r <= BLOCKS && (r < BLOCKS ==> Free(m, r, n)) && forall j :: 0 <= j < r ==> !Free(m, j, n)
  }

  ghost predicate HasRun(m: Bits, n: nat) {
    exists j :: 0 <= j < BLOCKS && Free(m, j, n)
  }

  // Some run lies inside the arena and is free.
  ghost predicate HasRunInside(m: Bits, n: nat) {
    exists j :: 0 <= j && j + n <= BLOCKS && Free(m, j, n)
  }

  lemma RunInside(m: Bits, n: nat)
    requires 0 < n && HasRunInside(m, n)
    ensures HasRun(m, n)
  {
    var j :| 0 <= j && j + n <= BLOCKS && Free(m, j, n);
    assert j < BLOCKS;
  }

  // The run granted lies inside the arena exactly when some free run does.
  lemma GrantInside(m: Bits, n: nat, r: nat)
    requires IsGrant(m, n, r) && r < BLOCKS
    ensures r + n <= BLOCKS <==> HasRunInside(m, n)
  {
    if HasRunInside(m, n) {
      var j :| 0 <= j && j + n <= BLOCKS && Free(m, j, n);
      assert r <= j;
    }
  }

  // With any block in use there may be no run inside the arena and yet a grant: sixteen blocks
  // asked for while only block 0 is taken are granted from block 1, past the arena's end.
  lemma GrantMayOverrun(m: Bits)
    requires m == Granted(EMPTY, 0, 1)
    ensures IsGrant(m, BLOCKS, 1) && 1 + BLOCKS > BLOCKS
  {
    assert !Free(m, 0, BLOCKS) by {
      assert m[0];
    }
  }

  // The bytes every frame starts with: header, size of code and payload, code.
  function FrameHeader(size: word, code: byte): seq<byte> {
    [HEADER1, HEADER2, HEADER3, Lo(size), Hi(size), code]
  }

  // Clearing from block 0 undoes a grant exactly when the run was granted from block 0.
  lemma ClearUndoesGrant(m: Bits, n: nat, r: nat)
    requires 0 < n && IsGrant(m, n, r) && r < BLOCKS
    ensures Cleared(Granted(m, r, n), n) == m <==> r == 0
  {
    var g := Granted(m, r, n);
    if r == 0 {
      assert forall k :: 0 <= k < BLOCKS ==> Cleared(g, n)[k] == m[k];
    } else if n < BLOCKS {
      var top := if r + n <= BLOCKS then r + n - 1 else BLOCKS - 1;
      assert Cleared(g, n)[top] && !m[top];
    } else {
      assert !Free(m, 0, n);
      var k :| 0 <= k < n && k < BLOCKS && m[k];
      assert !Cleared(g, n)[k];
    }
  }

  // A buffer of `total` bytes asked for on an empty map and freed again with its size cut to 8
  // bits: for every size the arena can hold the map is empty again exactly when the size fits.
  lemma AllocThenFree(total: word)
    requires 0 < total <= BLOCKS * BLOCK_LEN
    ensures IsGrant(EMPTY, BlockCount(total), 0)
    ensures Cleared(Granted(EMPTY, 0, BlockCount(total)), BlockCount(total % 0x100)) == EMPTY <==> total <= 0xFF
  {
    var n := BlockCount(total);
    if total <= 0xFF {
      assert total % 0x100 == total && 0 < n;
      ClearUndoesGrant(EMPTY, n, 0);
    } else {
      assert total == 0x100 && n == BLOCKS && BlockCount(0) == 0;
      assert Cleared(Granted(EMPTY, 0, n), 0)[0];
    }
  }

  // ---------- The arena as it is updated ----------

  class Arena {
    const sendingBuffer: array<byte>
    var bufferMap: Bits

    ghost predicate Valid()
      reads this
    {
      sendingBuffer.Length == BLOCKS * BLOCK_LEN
    }

    constructor ()
      ensures Valid() && bufferMap == EMPTY && fresh(sendingBuffer)
    {
      sendingBuffer := new byte[BLOCKS * BLOCK_LEN](_ => 0);
      bufferMap := EMPTY;
    }

    // Bytes stored from position `at` on.
    method Store(at: nat, bytes: seq<byte>)
      requires at + |bytes| <= sendingBuffer.Length
      modifies sendingBuffer
      ensures forall j :: 0 <= j < sendingBuffer.Length ==>
                sendingBuffer[j] == if at <= j < at + |bytes| then bytes[j - at] else old(sendingBuffer[j])
    {
      for i := 0 to |bytes|
        invariant forall j :: 0 <= j < sendingBuffer.Length ==>
                    sendingBuffer[j] == if at <= j < at + i then bytes[j - at] else old(sendingBuffer[j])
      {
        sendingBuffer[at + i] := bytes[i];
      }
    }

    // Bytes stored behind the stretch from start to iter.
    method Append(start: nat, iter: nat, bytes: seq<byte>)
      requires start <= iter && iter + |bytes| <= sendingBuffer.Length
      modifies sendingBuffer
      ensures sendingBuffer[start..iter + |bytes|] == old(sendingBuffer[start..iter]) + bytes
      ensures forall j :: 0 <= j < iter || iter + |bytes| <= j < sendingBuffer.Length ==>
                sendingBuffer[j] == old(sendingBuffer[j])
    {
      Store(iter, bytes);
    }

    // A mask of n low bits, built bit by bit.
    static method MaskOf(n: byte) returns (mask: Bits)
      ensures forall k :: 0 <= k < BLOCKS ==> mask[k] == (k < n)
    {
      mask := EMPTY;
      for i := 0 to n
        invariant forall k :: 0 <= k < BLOCKS ==> mask[k] == (k < i)
      {
        mask := ShiftIn(mask);
      }
    }

    // The search: the map is shifted right until the masked test finds a free run.
    static method FirstWindow(m: Bits, mask: Bits, n: nat) returns (i: nat)
      requires forall k :: 0 <= k < BLOCKS ==> mask[k] == (k < n)
      ensures IsGrant(m, n, i)
    {
      var tmpMap := m;
      i := 0;
      WindowTest(m, tmpMap, mask, i, n);
      while i < BLOCKS && And(tmpMap, mask) != EMPTY
        invariant i <= BLOCKS
        invariant forall k :: 0 <= k < BLOCKS ==> tmpMap[k] == (k + i < BLOCKS && m[k + i])
        invariant forall j :: 0 <= j < i ==> !Free(m, j, n)
        invariant i < BLOCKS ==> (And(tmpMap, mask) == EMPTY <==> Free(m, i, n))
      {
        tmpMap := ShiftRight(tmpMap);
        i := i + 1;
        if i < BLOCKS {
          WindowTest(m, tmpMap, mask, i, n);
        }
      }
    }

    static lemma OrGrants(m: Bits, mask: Bits, i: nat, n: nat)
      requires forall k :: 0 <= k < BLOCKS ==> mask[k] == (k < n)
      ensures Or(m, ShiftLeft(mask, i)) == Granted(m, i, n)
    {
    }

    // internalAlloc: the index of the first block of the run, if there is one.
    method InternalAlloc(size: word) returns (r: Option<nat>)
      modifies this`bufferMap
      ensures var n := BlockCount(size);
              && IsGrant(old(bufferMap), n, if r.Some? then r.value else BLOCKS)
              && (r.Some? ==> r.value < BLOCKS)
              && bufferMap == if r.Some? then Granted(old(bufferMap), r.value, n) else old(bufferMap)
    {
      var blk := BlockCount(size);
      var mask := MaskOf(blk);
      var i := FirstWindow(bufferMap, mask, blk);
      if i == BLOCKS {
        return None;
      }
      OrGrants(bufferMap, mask, i, blk);
      bufferMap := Or(bufferMap, ShiftLeft(mask, i));
      return Some(i);
    }

    // The masked test on the shifted map asks whether the run from i is free.
    static lemma WindowTest(m: Bits, shifted: Bits, mask: Bits, i: nat, n: nat)
      requires i < BLOCKS
      requires forall k :: 0 <= k < BLOCKS ==> shifted[k] == (k + i < BLOCKS && m[k + i])
      requires forall k :: 0 <= k < BLOCKS ==> mask[k] == (k < n)
      ensures And(shifted, mask) == EMPTY <==> Free(m, i, n)
    {
      if And(shifted, mask) == EMPTY {
        forall k | i <= k < i + n && k < BLOCKS ensures !m[k] {
          assert !And(shifted, mask)[k - i];
        }
      }
      if Free(m, i, n) {
        assert forall k :: 0 <= k < BLOCKS ==> And(shifted, mask)[k] == EMPTY[k];
      }
    }

    // sendFree: a buffer that does not start with the header bytes is not freed at all, and the
    // run cleared always starts at block 0, because every buffer starts on a block.
    method SendFree(blk: nat, size: byte)
      requires Valid() && blk < BLOCKS
      modifies this`bufferMap
      ensures bufferMap == if sendingBuffer[blk * BLOCK_LEN] == HEADER1 && sendingBuffer[blk * BLOCK_LEN + 1] == HEADER2
                              && sendingBuffer[blk * BLOCK_LEN + 2] == HEADER3
                           then Cleared(old(bufferMap), BlockCount(size)) else old(bufferMap)
    {
      var buffer := blk * BLOCK_LEN;
      if sendingBuffer[buffer] != HEADER1 || sendingBuffer[buffer + 1] != HEADER2
         || sendingBuffer[buffer + 2] != HEADER3 {
        return;
      }
      var blkStart := buffer % 16;
      var blkCnt := BlockCount(size);
      var mask := MaskOf(blkCnt);
      mask := Not(ShiftLeft(mask, blkStart));
      assert And(bufferMap, mask) == Cleared(bufferMap, blkCnt);
      bufferMap := And(bufferMap, mask);
    }

    // sendAlloc, when there is a run to grant: the frame header goes into the run's first bytes.
    method SendAlloc(size: word) returns (blk: nat)
      requires Valid() && HEADER_LEN <= size
      requires HasRun(bufferMap, BlockCount(size))
      modifies this`bufferMap, sendingBuffer
      ensures blk < BLOCKS && IsGrant(old(bufferMap), BlockCount(size), blk)
      ensures bufferMap == Granted(old(bufferMap), blk, BlockCount(size))
      ensures var at := blk * BLOCK_LEN;
              && sendingBuffer[at..at + 5] == [HEADER1, HEADER2, HEADER3, Lo(size - HEADER_LEN), Hi(size - HEADER_LEN)]
              && forall i :: 0 <= i < at || at + 5 <= i < sendingBuffer.Length ==>
                   sendingBuffer[i] == old(sendingBuffer[i])
    {
      var r := InternalAlloc(size);
      blk := r.value;
      var at := blk * BLOCK_LEN;
      sendingBuffer[at] := HEADER1;
      sendingBuffer[at + 1] := HEADER2;
      sendingBuffer[at + 2] := HEADER3;
      sendingBuffer[at + 3] := Lo(size - HEADER_LEN);
      sendingBuffer[at + 4] := Hi(size - HEADER_LEN);
    }
  }
}
