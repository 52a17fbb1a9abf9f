/**
  The long-message stream: of the bytes of a long message all but the last 120 go straight to
  the line, and the rest is gathered in a buffer that is handed to the DMA in one piece.
 */
module LongBuffer {
  import opened Words

  const LONG_BUFFER_DMA_SIZE := 120

  // 16-bit signed values, the unsigned reading of one, and a 16-bit subtraction that wraps.
  type int16 = x: int | -0x8000 <= x < 0x8000

  function Signed(w: word): int16 { if w < 0x8000 then w else w - 0x1_0000 }

  function Unsigned(x: int16): word { if x < 0 then x + 0x1_0000 else x }

  function Less16(x: int16, n: nat): int16 { Signed((x - n) % 0x1_0000) }

  // left: bytes of the declared size still to come; direct: bytes sent straight to the line;
  // handed: bytes handed to the DMA; buffered: bytes gathered so far.
  datatype Stream = Stream(left: int16, direct: seq<byte>, handed: seq<byte>, buffered: seq<byte>)
  {
    function All(): seq<byte> { direct + handed + buffered }
  }

  // longBufferSendUInt8
  function Push(s: Stream, b: byte): Stream {
    if s.left > LONG_BUFFER_DMA_SIZE then s.(direct := s.direct + [b], left := s.left - 1)
    else if s.left > 0 then s.(buffered := s.buffered + [b], left := s.left - 1)
    else s
  }

  function PushAll(s: Stream, data: seq<byte>): Stream
    decreases |data|
  {
    if data == [] then s else PushAll(Push(s, data[0]), data[1..])
  }

  // longBufferSend
  function Flush(s: Stream): Stream { s.(handed := s.handed + s.buffered, buffered := []) }

  function Min(a: int, b: int): int { if a < b then a else b }

  // How many of n bytes cpyIntoLongBuffer takes: the comparison is unsigned, so a negative
  // count of bytes to come reads as 0x8000 or more.
  function Size(left: int16, n: nat): nat { Min(n, Unsigned(left)) }

  // How many of n bytes taken go straight to the line. The subtraction wraps.
  function Straight(left: int16, n: nat): (r: nat)
    ensures r <= n
  {
    var toSimpleCopy := Less16(left, LONG_BUFFER_DMA_SIZE);
    if toSimpleCopy > 0 then Min(n, toSimpleCopy) else 0
  }

  // cpyIntoLongBuffer before it looks whether the message is complete, and the whole of it
  function Taken(s: Stream, data: seq<byte>): Stream {
    var size := Size(s.left, |data|);
    var toSend := Straight(s.left, size);
    Stream(Less16(s.left, size), s.direct + data[..toSend], s.handed, s.buffered + data[toSend..size])
  }

  function Copy(s: Stream, data: seq<byte>): Stream {
    var t := Taken(s, data);
    if t.left <= 0 then Flush(t) else t
  }

  // Sending the bytes one by one, and a flush once the declared size is reached.
  function PushAndFlush(s: Stream, data: seq<byte>): Stream {
    var t := PushAll(s, data);
    if t.left <= 0 then Flush(t) else t
  }

  // A negative count of bytes to come swallows everything.
  lemma {:induction false} PushNegative(s: Stream, data: seq<byte>)
    requires s.left <= 0
    ensures PushAll(s, data) == s
    decreases |data|
  {
    if data != [] {
      PushNegative(s, data[1..]);
    }
  }

  lemma {:induction false} PushConcat(s: Stream, a: seq<byte>, b: seq<byte>)
    ensures PushAll(s, a + b) == PushAll(PushAll(s, a), b)
    decreases |a|
  {
    if a == [] {
      assert a + b == b;
    } else {
      assert (a + b)[1..] == a[1..] + b;
      PushConcat(Push(s, a[0]), a[1..], b);
    }
  }

  lemma AppendFirst(a: seq<byte>, data: seq<byte>, i: nat, n: nat)
    requires i < n <= |data|
    ensures a + data[i..n] == (a + [data[i]]) + data[i + 1..n]
  {
  }

  lemma TailSlice(data: seq<byte>, i: nat, n: nat)
    requires 1 <= i <= n <= |data|
    ensures data[1..][i - 1..n - 1] == data[i..n]
  {
  }

  // Taking data while the count is not negative: the arithmetic is plain.
  function TakenPlain(s: Stream, data: seq<byte>): Stream
    requires 0 <= s.left
  {
    var size, toSend := Min(|data|, s.left), StraightPlain(s.left, |data|);
    Stream(s.left - size, s.direct + data[..toSend], s.handed, s.buffered + data[toSend..size])
  }

  function StraightPlain(left: nat, n: nat): (r: nat)
    ensures r <= Min(n, left)
  {
    if left > LONG_BUFFER_DMA_SIZE then Min(n, left - LONG_BUFFER_DMA_SIZE) else 0
  }

  lemma TakenIsPlain(s: Stream, data: seq<byte>)
    requires 0 <= s.left
    ensures Taken(s, data) == TakenPlain(s, data)
  {
  }

  lemma TakenNext(s: Stream, data: seq<byte>)
    requires 0 <= s.left && data != []
    ensures TakenPlain(Push(s, data[0]), data[1..]) == TakenPlain(s, data)
  {
    var size, toSend := Min(|data|, s.left), StraightPlain(s.left, |data|);
    if s.left > LONG_BUFFER_DMA_SIZE {
      AppendFirst(s.direct, data, 0, toSend);
      TailSlice(data, 1, toSend);
      TailSlice(data, toSend, size);
    } else if s.left > 0 {
      AppendFirst(s.buffered, data, 0, size);
      TailSlice(data, 1, size);
    }
  }

  // Where pushing a run of bytes ends up, in closed form.
  lemma {:induction false} PushClosed(s: Stream, data: seq<byte>)
    requires 0 <= s.left
    ensures PushAll(s, data) == TakenPlain(s, data)
    decreases |data|
  {
    if data == [] {
      assert s.direct + data[..0] == s.direct && s.buffered + data[0..0] == s.buffered;
    } else {
      PushClosed(Push(s, data[0]), data[1..]);
      TakenNext(s, data);
    }
  }

  lemma CopyWhenPositive(s: Stream, data: seq<byte>)
    requires 0 <= s.left
    ensures Copy(s, data) == PushAndFlush(s, data)
  {
    TakenIsPlain(s, data);
    PushClosed(s, data);
  }

  // The chunk copy is the byte-by-byte stream, ended by a flush once the declared size is
  // reached, exactly while the count of bytes to come is not negative.
  lemma CopyIsPushAll(s: Stream, data: seq<byte>)
    ensures Copy(s, data) == PushAndFlush(s, data) <==> 0 <= s.left || data == []
  {
    if 0 <= s.left {
      CopyWhenPositive(s, data);
    } else {
      PushNegative(s, data);
      if data != [] {
        var t, u := Copy(s, data), PushAndFlush(s, data);
        assert |t.direct| + |t.handed| + |t.buffered| > |u.direct| + |u.handed| + |u.buffered|;
      }
    }
  }

  // From this unsigned reading on the subtraction that finds the direct part does not wrap.
  const WRAP_END: word := 0x8000 + LONG_BUFFER_DMA_SIZE

  // With a negative count, one copy gathers all it is given and hands it over at once; only
  // where the subtraction wraps does it send bytes straight to the line as it should.
  lemma CopyWhenNegative(s: Stream, data: seq<byte>)
    requires s.left < 0 && s.buffered == []
    ensures var n, count := Size(s.left, |data|), Unsigned(s.left);
            && (count >= WRAP_END ==> Taken(s, data) == s.(left := Less16(s.left, n), buffered := data[..n]))
            && (count >= WRAP_END && n <= LONG_BUFFER_DMA_SIZE ==>
                  Copy(s, data) == s.(left := s.left - n, handed := s.handed + data[..n]))
            && (count < WRAP_END ==>
                  Taken(s, data).direct == s.direct + data[..Min(n, count - LONG_BUFFER_DMA_SIZE)])
  {
    var n := Size(s.left, |data|);
    assert s.buffered + data[0..n] == data[..n];
    assert s.direct + data[..0] == s.direct;
  }

  // One copy of a whole message always takes all of it, and keeps to the buffer exactly when
  // the declared size is below 0x8078.
  lemma WholeCopyFitsExactly(size: word, data: seq<byte>)
    requires |data| == size > 0
    ensures var s := Copy(Stream(Signed(size), [], [], []), data);
            s.All() == data && s.left == 0 && (|s.handed| <= LONG_BUFFER_DMA_SIZE <==> size < WRAP_END)
  {
    var s := Stream(Signed(size), [], [], []);
    var toSend := Straight(s.left, size);
    assert Unsigned(s.left) == size;
    assert data[..toSend] + data[toSend..size] == data;
    assert Copy(s, data) == Stream(0, data[..toSend], data[toSend..size], []);
    assert data[..toSend] + data[toSend..size] + [] == data;
  }

  // ---------- Runs ----------

  datatype Op = Byte(b: byte) | Word16(w: word) | Bytes(data: seq<byte>) | Send

  function Input(op: Op): seq<byte> {
    match op case Byte(b) => [b] case Word16(w) => [Lo(w), Hi(w)] case Bytes(data) => data case Send => []
  }

  function Inputs(ops: seq<Op>): seq<byte> {
    if ops == [] then [] else Input(ops[0]) + Inputs(ops[1..])
  }

  function Apply(s: Stream, op: Op): (r: Stream)
    ensures 0 <= s.left ==> 0 <= r.left
    ensures s.direct <= r.direct && s.handed <= r.handed
  {
    match op
    case Byte(b) => Push(s, b)
    case Word16(w) => Push(Push(s, Lo(w)), Hi(w))
    case Bytes(data) => Copy(s, data)
    case Send => Flush(s)
  }

  function Run(s: Stream, ops: seq<Op>): Stream
    decreases |ops|
  {
    if ops == [] then s else Run(Apply(s, ops[0]), ops[1..])
  }

  function Cut(n: nat, s: seq<byte>): seq<byte> { if |s| <= n then s else s[..n] }

  // All but the last 120 bytes go straight to the line.
  function Head(size: nat): nat { if size > 120 then size - 120 else 0 }

  // The stream after the given input of a message of the declared size.
  ghost predicate Tracks(s: Stream, size: nat, input: seq<byte>) {
    && s.All() == Cut(size, input) && s.left == size - |s.All()| && s.direct == Cut(Head(size), input)
    && (s.left > LONG_BUFFER_DMA_SIZE ==> s.handed == [] && s.buffered == [])
    && |s.handed| + |s.buffered| + Min(s.left, LONG_BUFFER_DMA_SIZE) <= LONG_BUFFER_DMA_SIZE
  }

  lemma PushTracks(s: Stream, size: nat, input: seq<byte>, b: byte)
    requires Tracks(s, size, input)
    ensures Tracks(Push(s, b), size, input + [b])
  {
    if s.left > 0 {
      assert Cut(size, input + [b]) == Cut(size, input) + [b];
      if s.left > LONG_BUFFER_DMA_SIZE {
        assert Push(s, b).All() == s.All() + [b];
        assert Cut(Head(size), input + [b]) == Cut(Head(size), input) + [b];
      } else {
        assert Cut(Head(size), input + [b]) == Cut(Head(size), input);
      }
    } else {
      assert Cut(Head(size), input + [b]) == Cut(Head(size), input);
      assert Cut(size, input + [b]) == Cut(size, input);
    }
  }

  lemma {:induction false} PushAllTracks(s: Stream, size: nat, input: seq<byte>, data: seq<byte>)
    requires Tracks(s, size, input)
    ensures Tracks(PushAll(s, data), size, input + data)
    decreases |data|
  {
    if data == [] {
      assert input + data == input;
    } else {
      PushTracks(s, size, input, data[0]);
      PushAllTracks(Push(s, data[0]), size, input + [data[0]], data[1..]);
      assert input + [data[0]] + data[1..] == input + data;
    }
  }

  // A flush keeps the stream on track, and a second one hands over nothing.
  lemma FlushTracks(s: Stream, size: nat, input: seq<byte>)
    requires Tracks(s, size, input)
    ensures Tracks(Flush(s), size, input)
    ensures Flush(Flush(s)) == Flush(s)
  {
    assert Flush(s).All() == s.All();
  }

  lemma ApplyTracks(s: Stream, size: nat, input: seq<byte>, op: Op)
    requires Tracks(s, size, input)
    ensures Tracks(Apply(s, op), size, input + Input(op))
  {
    match op
    case Byte(b) => PushTracks(s, size, input, b);
    case Word16(w) =>
      PushTracks(s, size, input, Lo(w));
      PushTracks(Push(s, Lo(w)), size, input + [Lo(w)], Hi(w));
      assert input + [Lo(w)] + [Hi(w)] == input + [Lo(w), Hi(w)];
    case Bytes(data) =>
      PushAllTracks(s, size, input, data);
      CopyWhenPositive(s, data);
      FlushTracks(PushAll(s, data), size, input + data);
    case Send =>
      FlushTracks(s, size, input);
      assert input + [] == input;
  }

  lemma {:induction false} RunTracks(s: Stream, size: nat, input: seq<byte>, ops: seq<Op>)
    requires Tracks(s, size, input)
    ensures Tracks(Run(s, ops), size, input + Inputs(ops))
    decreases |ops|
  {
    if ops == [] {
      assert input + Inputs(ops) == input;
    } else {
      ApplyTracks(s, size, input, ops[0]);
      RunTracks(Apply(s, ops[0]), size, input + Input(ops[0]), ops[1..]);
      Assoc(input, Input(ops[0]), Inputs(ops[1..]));
    }
  }

  // Bytes sent directly, then bytes handed over, then bytes still gathered are the inputs in
  // order, cut at the declared size; those sent directly are all but the message's last 120, and
  // at most 120 are ever gathered.
  ghost predicate ShowsInputs(size: word, ops: seq<Op>) {
    var s := Run(Stream(Signed(size), [], [], []), ops);
    && s.All() == Cut(size, Inputs(ops)) && s.direct == Cut(Head(size), Inputs(ops))
    && |s.handed| + |s.buffered| <= LONG_BUFFER_DMA_SIZE
  }

  lemma RunShowsInputs(size: word, ops: seq<Op>)
    requires size < 0x8000
    ensures ShowsInputs(size, ops)
  {
    RunTracks(Stream(size, [], [], []), size, [], ops);
    assert [] + Inputs(ops) == Inputs(ops);
  }

  // That holds for every interleaving of calls after initLongBuffer exactly when the declared
  // size does not read as a negative number.
  lemma StreamIsInputs(size: word)
    ensures (forall ops :: ShowsInputs(size, ops)) <==> size < 0x8000
  {
    if size < 0x8000 {
      forall ops ensures ShowsInputs(size, ops) {
        RunShowsInputs(size, ops);
      }
    } else {
      var ops := [Byte(0)];
      assert ops[1..] == [];
      assert Run(Stream(Signed(size), [], [], []), ops) == Stream(Signed(size), [], [], []);
      assert Inputs(ops) == [0];
      assert !ShowsInputs(size, ops);
    }
  }

  // Byte by byte, the whole input comes through exactly when the declared size is not taken for
  // a negative number: for an input of the declared size, nothing is lost just for sizes below
  // 32768.
  lemma WholeInputExactly(size: word, data: seq<byte>)
    requires |data| == size > 0
    ensures PushAll(Stream(Signed(size), [], [], []), data).All() == data <==> size < 0x8000
  {
    var s := Stream(Signed(size), [], [], []);
    if size < 0x8000 {
      PushAllTracks(s, size, [], data);
      assert [] + data == data;
    } else {
      PushNegative(s, data);
    }
  }

  // ---------- Declared sizes that read as negative ----------

  // What the chunk copies of a run bring.
  function Copied(ops: seq<Op>): seq<byte> {
    if ops == [] then [] else (if ops[0].Bytes? then ops[0].data else []) + Copied(ops[1..])
  }

  ghost predicate SmallCopies(ops: seq<Op>) {
    forall i :: 0 <= i < |ops| && ops[i].Bytes? ==> |ops[i].data| <= LONG_BUFFER_DMA_SIZE
  }

  lemma Assoc(a: seq<byte>, b: seq<byte>, c: seq<byte>)
    ensures a + b + c == a + (b + c)
  {
  }

  // While the count reads as negative, single bytes vanish and every chunk that fits the buffer
  // is handed over at once, in order.
  lemma {:induction false} NegativeRun(s: Stream, ops: seq<Op>)
    requires s.left < 0 && s.buffered == [] && SmallCopies(ops)
    requires |Copied(ops)| + WRAP_END <= Unsigned(s.left)
    ensures Run(s, ops) == s.(left := s.left - |Copied(ops)|, handed := s.handed + Copied(ops))
    decreases |ops|
  {
    if ops == [] {
      assert s.handed + [] == s.handed;
    } else {
      var op, rest := ops[0], ops[1..];
      if op.Bytes? {
        assert op.data[..|op.data|] == op.data;
        CopyWhenNegative(s, op.data);
        var t := s.(left := s.left - |op.data|, handed := s.handed + op.data);
        assert Apply(s, op) == t;
        NegativeRun(t, rest);
        Assoc(s.handed, op.data, Copied(rest));
      } else {
        assert s.handed + [] == s.handed && [] + Copied(rest) == Copied(rest);
        NegativeRun(s, rest);
      }
    }
  }
}
