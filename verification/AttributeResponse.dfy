/**
  The attribute-response message: a size pass over the attribute list, then a short form written
  into an arena buffer or a long form streamed to the line.
 */
module AttributeResponse {
  import opened Words
  import opened SendArena
  import opened LongBuffer
  import opened SerialSend

  const ZCL_STATUS_SUCCESS: byte := 0
  const ATTRIBUTE_RESPONSE: byte := 6

  // One attribute of the response. `data` is the attribute's value as zclGetAttrDataLength
  // measures it; the message carries its length in one byte.
  datatype Attr = Attr(attrID: word, status: byte, dataType: byte, data: seq<byte>)
  {
    function AttrSize(): byte { |data| % 0x100 }

    function Bytes(): seq<byte> {
      [Lo(attrID), Hi(attrID), status]
      + if status == ZCL_STATUS_SUCCESS then [dataType, AttrSize()] + data[..AttrSize()] else []
    }
  }

  datatype Response = Response(shortAddr: word, endPoint: byte, clusterId: word, attrs: seq<Attr>)
  {
    ghost predicate Valid() { |attrs| <= 0xFF }

    function Head(): seq<byte>
      requires |attrs| <= 0xFF
    {
      [Lo(shortAddr), Hi(shortAddr), endPoint, Lo(clusterId), Hi(clusterId), |attrs|]
    }

    // What the message carries after its code byte.
    function Payload(): seq<byte>
      requires |attrs| <= 0xFF
    {
      Head() + AllBytes(attrs)
    }
  }

  function AllBytes(attrs: seq<Attr>): seq<byte> {
    if attrs == [] then [] else attrs[0].Bytes() + AllBytes(attrs[1..])
  }

  lemma {:induction false} AllBytesNext(attrs: seq<Attr>, i: nat)
    requires i < |attrs|
    ensures AllBytes(attrs[..i + 1]) == AllBytes(attrs[..i]) + attrs[i].Bytes()
  {
    if i == 0 {
      assert attrs[..1] == [attrs[0]] && attrs[..0] == [];
    } else {
      AllBytesNext(attrs[1..], i - 1);
      assert attrs[..i + 1][1..] == attrs[1..][..i] && attrs[..i][1..] == attrs[1..][..i - 1];
      assert attrs[..i + 1][0] == attrs[..i][0] == attrs[0];
    }
  }

  // ---------- Reading the payload back ----------

  // What the host sees of an attribute: the value's type and bytes only if its status is success.
  datatype Seen = Seen(attrID: word, status: byte, value: Option<(byte, seq<byte>)>)

  function SeenOf(a: Attr): Seen {
    Seen(a.attrID, a.status, if a.status == 0 then Some((a.dataType, a.data[..|a.data| % 0x100])) else None)
  }

  function AllSeen(attrs: seq<Attr>): seq<Seen> {
    if attrs == [] then [] else [SeenOf(attrs[0])] + AllSeen(attrs[1..])
  }

  // n attributes read one after the other: id, status, and on success type, length and value.
  function ReadAttrs(s: seq<byte>, n: nat): Option<seq<Seen>>
    decreases n
  {
    if n == 0 then if s == [] then Some([]) else None
    else if |s| < 3 then None
    else if s[2] != 0 then
      var rest := ReadAttrs(s[3..], n - 1);
      if rest.None? then None else Some([Seen(BuildWord(s[0], s[1]), s[2], None)] + rest.value)
    else if |s| < 5 then None
    else
      var end: nat := s[4] as nat + 5;
      if |s| < end then None
      else
        var rest := ReadAttrs(s[end..], n - 1);
        if rest.None? then None
        else Some([Seen(BuildWord(s[0], s[1]), s[2], Some((s[3], s[5..end])))] + rest.value)
  }

  lemma {:induction false} AttrsReadBack(attrs: seq<Attr>)
    ensures ReadAttrs(AllBytes(attrs), |attrs|) == Some(AllSeen(attrs))
  {
    if attrs != [] {
      var a, tail := attrs[0], AllBytes(attrs[1..]);
      var s, n := AllBytes(attrs), |a.Bytes()|;
      AttrsReadBack(attrs[1..]);
      BuildOfSplit(a.attrID);
      assert s == a.Bytes() + tail && s[n..] == tail;
      assert s[0] == Lo(a.attrID) && s[1] == Hi(a.attrID) && s[2] == a.status;
      if a.status == ZCL_STATUS_SUCCESS {
        assert s[3] == a.dataType && s[4] == a.AttrSize() && s[5..n] == a.data[..a.AttrSize()];
      }
    }
  }

  // The payload reads back as the addresses, the cluster and every attribute it was made of.
  lemma PayloadReadsBack(r: Response)
    requires r.Valid()
    ensures var p := r.Payload();
            && |p| >= 6 && BuildWord(p[0], p[1]) == r.shortAddr && p[2] == r.endPoint
            && BuildWord(p[3], p[4]) == r.clusterId && p[5] == |r.attrs|
            && ReadAttrs(p[6..], p[5]) == Some(AllSeen(r.attrs))
  {
    BuildOfSplit(r.shortAddr);
    BuildOfSplit(r.clusterId);
    assert r.Payload()[6..] == AllBytes(r.attrs);
    AttrsReadBack(r.attrs);
  }

  // ---------- Frames and sizes ----------

  // The frame on the line: three header bytes, the 16-bit size of code and payload, the code,
  // the payload.
  function Frame(code: byte, payload: seq<byte>): seq<byte>
    requires |payload| < 0xFFFF
  {
    FrameHeader(1 + |payload|, code) + payload
  }

  // The size pass, as it adds up before being cut to 16 bits.
  function Sum(attrs: seq<Attr>): nat {
    if attrs == [] then 0
    else 3 + (if attrs[0].status == ZCL_STATUS_SUCCESS then 2 + attrs[0].AttrSize() else 0) + Sum(attrs[1..])
  }

  lemma {:induction false} SumIsLength(attrs: seq<Attr>)
    ensures Sum(attrs) == |AllBytes(attrs)|
  {
    if attrs != [] {
      SumIsLength(attrs[1..]);
    }
  }

  lemma {:induction false} SumNext(attrs: seq<Attr>, i: nat)
    requires i < |attrs|
    ensures Sum(attrs[..i + 1])
         == Sum(attrs[..i]) + 3 + (if attrs[i].status == ZCL_STATUS_SUCCESS then 2 + attrs[i].AttrSize() else 0)
  {
    SumIsLength(attrs[..i + 1]);
    SumIsLength(attrs[..i]);
    AllBytesNext(attrs, i);
  }

  // The size pass: one more than the bytes the write passes emit, cut to 16 bits.
  method SizePass(r: Response) returns (size: word)
    requires r.Valid()
    ensures size == (1 + |r.Payload()|) % 0x1_0000
  {
    size := 7;
    SumIsLength(r.attrs);
    var i := 0;
    while i < |r.attrs|
      invariant i <= |r.attrs| && size == Add16(7, Sum(r.attrs[..i]))
    {
      SumNext(r.attrs, i);
      Add16Twice(7, Sum(r.attrs[..i]), 3);
      size := Add16(size, 3);
      if r.attrs[i].status == ZCL_STATUS_SUCCESS {
        Add16Twice(7, Sum(r.attrs[..i]) + 3, 2 + r.attrs[i].AttrSize());
        size := Add16(size, 2 + r.attrs[i].AttrSize());
      }
      i := i + 1;
    }
    assert r.attrs[..i] == r.attrs;
  }

  // The short write pass: the payload goes through an advancing pointer.
  method WriteShort(arena: Arena, start: nat, r: Response)
    requires r.Valid() && arena.Valid() && start + |r.Payload()| <= BLOCKS * BLOCK_LEN
    modifies arena.sendingBuffer
    ensures arena.sendingBuffer[start..start + |r.Payload()|] == r.Payload()
    ensures forall i :: 0 <= i < start || start + |r.Payload()| <= i < BLOCKS * BLOCK_LEN ==>
              arena.sendingBuffer[i] == old(arena.sendingBuffer[i])
  {
    arena.Store(start, r.Head());
    var iter, i := start + 6, 0;
    ghost var end := start + |r.Payload()|;
    assert arena.sendingBuffer[start..iter] == r.Head() + AllBytes(r.attrs[..0]);
    while i < |r.attrs|
      invariant i <= |r.attrs| && iter == start + 6 + |AllBytes(r.attrs[..i])| <= end
      invariant arena.sendingBuffer[start..iter] == r.Head() + AllBytes(r.attrs[..i])
      invariant forall j :: 0 <= j < start || end <= j < BLOCKS * BLOCK_LEN ==>
                  arena.sendingBuffer[j] == old(arena.sendingBuffer[j])
    {
      AllBytesNext(r.attrs, i);
      PrefixFits(r.attrs, i + 1);
      arena.Append(start, iter, r.attrs[i].Bytes());
      Assoc(r.Head(), AllBytes(r.attrs[..i]), r.attrs[i].Bytes());
      iter := iter + |r.attrs[i].Bytes()|;
      i := i + 1;
    }
    assert r.attrs[..i] == r.attrs;
  }

  lemma {:induction false} PrefixFits(attrs: seq<Attr>, i: nat)
    requires i <= |attrs|
    ensures |AllBytes(attrs[..i])| <= |AllBytes(attrs)|
    decreases |attrs| - i
  {
    if i == |attrs| {
      assert attrs[..i] == attrs;
    } else {
      AllBytesNext(attrs, i);
      PrefixFits(attrs, i + 1);
    }
  }

  // The loop over an attribute's value.
  method StreamData(port: SerialPort, data: seq<byte>, attrSize: byte)
    requires port.Valid() && port.LongOk() && port.Streaming() && attrSize <= |data|
    modifies port`wire, port`dataToSend, port`bufferPos, port`direct, port.arena.sendingBuffer
    ensures port.Valid() && port.LongOk() && port.Streaming()
    ensures port.Long() == PushAll(old(port.Long()), data[..attrSize])
  {
    ghost var s := port.Long();
    var i := 0;
    while i < attrSize
      invariant i <= attrSize && port.Valid() && port.LongOk() && port.Streaming()
      invariant port.Long() == PushAll(s, data[..i])
    {
      port.LongBufferSendUInt8(data[i]);
      PushConcat(s, data[..i], [data[i]]);
      assert data[..i + 1] == data[..i] + [data[i]];
      PushOne(PushAll(s, data[..i]), data[i]);
      i := i + 1;
    }
  }

  // One attribute of the long write pass.
  method StreamAttr(port: SerialPort, a: Attr)
    requires port.Valid() && port.LongOk() && port.Streaming()
    modifies port`wire, port`dataToSend, port`bufferPos, port`direct, port.arena.sendingBuffer
    ensures port.Valid() && port.LongOk() && port.Streaming()
    ensures port.Long() == PushAll(old(port.Long()), a.Bytes())
  {
    ghost var s := port.Long();
    port.LongBufferSendUInt16(a.attrID);
    port.LongBufferSendUInt8(a.status);
    PushThree(s, Lo(a.attrID), Hi(a.attrID), a.status);
    ghost var head: seq<byte> := [Lo(a.attrID), Hi(a.attrID), a.status];
    if a.status == ZCL_STATUS_SUCCESS {
      StreamValue(port, a);
      PushConcat(s, head, [a.dataType, a.AttrSize()] + a.data[..a.AttrSize()]);
    } else {
      assert a.Bytes() == head;
    }
  }

  // The type, length and value of an attribute.
  method StreamValue(port: SerialPort, a: Attr)
    requires port.Valid() && port.LongOk() && port.Streaming()
    modifies port`wire, port`dataToSend, port`bufferPos, port`direct, port.arena.sendingBuffer
    ensures port.Valid() && port.LongOk() && port.Streaming()
    ensures port.Long() == PushAll(old(port.Long()), [a.dataType, a.AttrSize()] + a.data[..a.AttrSize()])
  {
    ghost var s := port.Long();
    port.LongBufferSendUInt8(a.dataType);
    var attrSize := a.AttrSize();
    port.LongBufferSendUInt8(attrSize);
    PushTwo(s, a.dataType, attrSize);
    StreamData(port, a.data, attrSize);
    PushConcat(s, [a.dataType, attrSize], a.data[..attrSize]);
  }

  // The long write pass.
  method WriteLong(port: SerialPort, r: Response)
    requires r.Valid() && port.Valid() && port.LongOk() && port.Streaming()
    modifies port`wire, port`dataToSend, port`bufferPos, port`direct, port.arena.sendingBuffer
    ensures port.Valid() && port.LongOk() && port.Streaming()
    ensures port.Long() == PushAll(old(port.Long()), r.Payload())
  {
    ghost var s := port.Long();
    port.LongBufferSendUInt16(r.shortAddr);
    port.LongBufferSendUInt8(r.endPoint);
    port.LongBufferSendUInt16(r.clusterId);
    port.LongBufferSendUInt8(|r.attrs|);
    PushHead(s, r);
    var i := 0;
    assert r.attrs[..0] == [] && r.Head() + [] == r.Head();
    while i < |r.attrs|
      invariant i <= |r.attrs| && port.Valid() && port.LongOk() && port.Streaming()
      invariant port.Long() == PushAll(s, r.Head() + AllBytes(r.attrs[..i]))
    {
      StreamAttr(port, r.attrs[i]);
      AllBytesNext(r.attrs, i);
      PushConcat(s, r.Head() + AllBytes(r.attrs[..i]), r.attrs[i].Bytes());
      Assoc(r.Head(), AllBytes(r.attrs[..i]), r.attrs[i].Bytes());
      i := i + 1;
    }
    assert r.attrs[..i] == r.attrs;
  }

  lemma PushHead(s: Stream, r: Response)
    requires r.Valid()
    ensures PushAll(s, r.Head()) ==
            Push(Push(Push(Push(Push(Push(s, Lo(r.shortAddr)), Hi(r.shortAddr)), r.endPoint),
                           Lo(r.clusterId)), Hi(r.clusterId)), |r.attrs|)
  {
    var a: seq<byte> := [Lo(r.shortAddr), Hi(r.shortAddr), r.endPoint];
    var b: seq<byte> := [Lo(r.clusterId), Hi(r.clusterId), |r.attrs|];
    PushThree(s, a[0], a[1], a[2]);
    PushThree(PushAll(s, a), b[0], b[1], b[2]);
    PushConcat(s, a, b);
    assert r.Head() == a + b;
  }

  // With the DMA idle, a slot free and room in the arena, the message goes out as one frame,
  // through either form, exactly when its size is below 32768. From there on, as far as 16 bits
  // can count it, only the header goes out.
  method SerialSendAttributeResponseMsg(port: SerialPort, r: Response)
    requires r.Valid() && 1 + |r.Payload()| < 0x1_0000
    requires port.Valid() && !DmaBusy(port.dataSends[..]) && FirstUnused(port.dataSends[..]) < SLOTS
    requires HasRunInside(port.arena.bufferMap, BlockCount(Room(1 + |r.Payload()|)))
    modifies port, port.dataSends, port.arena`bufferMap, port.arena.sendingBuffer
    ensures port.Valid()
    ensures port.wire == old(port.wire) + (if 1 + |r.Payload()| < 0x8000 then Frame(ATTRIBUTE_RESPONSE, r.Payload())
                                           else FrameHeader(1 + |r.Payload()|, ATTRIBUTE_RESPONSE))
  {
    var size := SizePass(r);
    if size < LONG_BUFFER_DMA_SIZE {
      SendShort(port, r, ATTRIBUTE_RESPONSE, size);
    } else {
      SendLong(port, r, ATTRIBUTE_RESPONSE, size);
    }
  }

  // A slot with its frame header written and room for the frame behind it.
  method Obtain(port: SerialPort, size: word) returns (k: nat)
    requires size < LONG_BUFFER_DMA_SIZE && port.Valid()
    requires !DmaBusy(port.dataSends[..]) && FirstUnused(port.dataSends[..]) < SLOTS
    requires HasRunInside(port.arena.bufferMap, BlockCount(size + HEADER_LEN))
    modifies port`wire, port.dataSends, port.arena`bufferMap, port.arena.sendingBuffer
    ensures port.Valid() && port.wire == old(port.wire) && !DmaBusy(port.dataSends[..])
    ensures k < SLOTS && port.dataSends[k].size == size + HEADER_LEN
    ensures var at := port.dataSends[k].blk * BLOCK_LEN;
            && at + size + HEADER_LEN <= BLOCKS * BLOCK_LEN
            && port.arena.sendingBuffer[at..at + 5] == [HEADER1, HEADER2, HEADER3, Lo(size), Hi(size)]
  {
    ghost var m := port.arena.bufferMap;
    RunInside(m, BlockCount(size + HEADER_LEN));
    var taken := port.GetSendBuffer(size);
    k := taken.value;
    GrantInside(m, BlockCount(size + HEADER_LEN), port.dataSends[k].blk);
  }

  method SendShort(port: SerialPort, r: Response, code: byte, size: word)
    requires r.Valid() && size == 1 + |r.Payload()| < LONG_BUFFER_DMA_SIZE
    requires port.Valid() && !DmaBusy(port.dataSends[..]) && FirstUnused(port.dataSends[..]) < SLOTS
    requires HasRunInside(port.arena.bufferMap, BlockCount(size + HEADER_LEN))
    modifies port`wire, port.dataSends, port.arena`bufferMap, port.arena.sendingBuffer
    ensures port.Valid() && port.wire == old(port.wire) + Frame(code, r.Payload())
  {
    var k := Obtain(port, size);
    var at := port.dataSends[k].blk * BLOCK_LEN;
    ghost var before := port.arena.sendingBuffer[..];
    WriteShort(port.arena, at + HEADER_LEN, r);
    ghost var buf := port.arena.sendingBuffer[..];
    assert buf[at..at + 5] == before[at..at + 5];
    FrameInBuffer(buf, at, code, r.Payload());
    port.Send(code, k);
  }

  // Completing the header puts a whole frame in the buffer.
  lemma FrameInBuffer(buf: seq<byte>, at: nat, code: byte, payload: seq<byte>)
    requires |payload| < 0xFFFF && at + HEADER_LEN + |payload| <= |buf|
    requires buf[at..at + 5] == [HEADER1, HEADER2, HEADER3, Lo(1 + |payload|), Hi(1 + |payload|)]
    requires buf[at + HEADER_LEN..at + HEADER_LEN + |payload|] == payload
    ensures buf[at + 5 := code][at..at + HEADER_LEN + |payload|] == Frame(code, payload)
  {
    var r := buf[at + 5 := code];
    assert r[at..at + 5] == buf[at..at + 5];
    assert r[at + HEADER_LEN..at + HEADER_LEN + |payload|] == payload;
    assert r[at..at + HEADER_LEN + |payload|]
        == r[at..at + 5] + [r[at + 5]] + r[at + HEADER_LEN..at + HEADER_LEN + |payload|];
  }

  method SendLong(port: SerialPort, r: Response, code: byte, size: word)
    requires r.Valid() && LONG_BUFFER_DMA_SIZE <= size == 1 + |r.Payload()|
    requires port.Valid() && !DmaBusy(port.dataSends[..]) && FirstUnused(port.dataSends[..]) < SLOTS
    requires HasRunInside(port.arena.bufferMap, BlockCount(LONG_BUFFER_DMA_SIZE))
    modifies port, port.dataSends, port.arena`bufferMap, port.arena.sendingBuffer
    ensures port.Valid()
    ensures port.wire == old(port.wire) + (if size < 0x8000 then Frame(code, r.Payload()) else FrameHeader(size, code))
  {
    port.InitLongBuffer(size, code);
    WriteLong(port, r);
    LongOutcome(size, r.Payload());
    FinishLong(port);
    SentAs(old(port.wire), size, code, r.Payload());
  }

  lemma SentAs(line: seq<byte>, size: word, code: byte, payload: seq<byte>)
    requires size == 1 + |payload|
    ensures line + FrameHeader(size, code) + (if size < 0x8000 then payload else [])
         == line + (if size < 0x8000 then Frame(code, payload) else FrameHeader(size, code))
  {
    Assoc(line, FrameHeader(size, code), payload);
  }

  // The last call of a message: what was gathered goes out behind what was sent.
  method FinishLong(port: SerialPort)
    requires port.Valid() && port.LongOk() && port.Streaming()
    requires !DmaBusy(port.dataSends[..]) && FirstUnused(port.dataSends[..]) < SLOTS
    modifies port`wire, port`bufferPos, port`handed, port.dataSends
    ensures port.Valid()
    ensures port.wire == port.lineStart + (old(port.Long()).direct + old(port.Long()).buffered)
  {
    Assoc(port.lineStart, port.Long().direct, port.Long().buffered);
    port.LongBufferSend();
  }

  // What the stream holds after the payload: all of it, or nothing when the size reads negative.
  lemma LongOutcome(size: word, payload: seq<byte>)
    requires size == 1 + |payload|
    ensures var s := PushAll(Stream(Signed(size), [], [], []), payload);
            s.handed == [] && s.direct + s.buffered == if size < 0x8000 then payload else []
  {
    var s := Stream(Signed(size), [], [], []);
    if size < 0x8000 {
      PushClosed(s, payload);
      Halved(payload, StraightPlain(size, |payload|));
    } else {
      PushNegative(s, payload);
    }
  }

  lemma Halved(payload: seq<byte>, n: nat)
    requires n <= |payload|
    ensures ([] + payload[..n]) + ([] + payload[n..|payload|]) == payload
  {
  }

  // The arena bytes a message of the given size asks for.
  function Room(size: word): word {
    if size < LONG_BUFFER_DMA_SIZE then size + HEADER_LEN else LONG_BUFFER_DMA_SIZE
  }

  lemma PushOne(s: Stream, x: byte)
    ensures PushAll(s, [x]) == Push(s, x)
  {
    assert [x][1..] == [];
  }

  lemma PushTwo(s: Stream, x: byte, y: byte)
    ensures PushAll(s, [x, y]) == Push(Push(s, x), y)
  {
    PushOne(Push(s, x), y);
    assert [x, y][1..] == [y];
  }

  lemma PushThree(s: Stream, x: byte, y: byte, z: byte)
    ensures PushAll(s, [x, y, z]) == Push(Push(Push(s, x), y), z)
  {
    PushTwo(Push(s, x), y, z);
    assert [x, y, z][1..] == [y, z];
  }
}
