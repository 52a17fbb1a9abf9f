/**
  The serial receiver: a 24-byte ring filled by the receive interrupt and drained by a loop that
  recognises frames (three header bytes, a size, that many payload bytes) and hands each
  completed frame to serialProcessEvent when the loop ends.

  Each interrupt and each turn of the loop is one atomic step.
 */
module SerialReceive {
  import opened Words

  const HEADER1: byte := 0x45
  const HEADER2: byte := 0x65
  const HEADER3: byte := 0x42
  const RX_BUFFER_SIZE := 64
  const RING_LEN := 24

  // ---------- Recognising frames ----------

  datatype Status = Header1 | Header2 | Header3 | Size | Payload

  datatype Parser = Parser(status: Status, size: byte, rxData: seq<byte>, iter: nat, ready: bool, errors: word)

  ghost predicate ParserOk(p: Parser) {
    |p.rxData| == RX_BUFFER_SIZE && (p.status.Payload? ==> 1 <= p.iter && p.iter + p.size <= RX_BUFFER_SIZE)
  }

  function CountError(p: Parser): Parser { p.(errors := Add16(p.errors, 1)) }

  // One byte through the state machine.
  function ParseByte(p: Parser, c: byte): (r: Parser)
    requires ParserOk(p)
    ensures ParserOk(r)
  {
    match p.status
    case Header1 => if c == HEADER1 then p.(status := Header2) else CountError(p)
    case Header2 => if c == HEADER2 then p.(status := Header3) else CountError(p)
    case Header3 => if c == HEADER3 then p.(status := Size) else CountError(p)
    case Size =>
      if c < RX_BUFFER_SIZE then p.(size := c, status := Payload, rxData := p.rxData[0 := c], iter := 1)
      else p.(size := c, status := Header1)
    case Payload =>
      var q := if p.size > 0 then p.(rxData := p.rxData[p.iter := c], iter := p.iter + 1, size := p.size - 1) else p;
      if q.size == 0 then q.(status := Header1, ready := true) else q
  }

  function ParseAll(p: Parser, s: seq<byte>): (r: Parser)
    requires ParserOk(p)
    ensures ParserOk(r)
    decreases |s|
  {
    if s == [] then p else ParseAll(ParseByte(p, s[0]), s[1..])
  }

  lemma {:induction false} ParseConcat(p: Parser, s: seq<byte>, t: seq<byte>)
    requires ParserOk(p)
    ensures ParseAll(p, s + t) == ParseAll(ParseAll(p, s), t)
    decreases |s|
  {
    if s == [] {
      assert s + t == t;
    } else {
      assert (s + t)[1..] == s[1..] + t;
      ParseConcat(ParseByte(p, s[0]), s[1..], t);
    }
  }

  // ---------- One frame ----------

  function Awaited(st: Status): byte
    requires st.Header1? || st.Header2? || st.Header3?
  {
    match st case Header1 => HEADER1 case Header2 => HEADER2 case _ => HEADER3
  }

  function After(st: Status): Status {
    match st case Header1 => Header2 case Header2 => Header3 case _ => Size
  }

  // Junk is counted, byte by byte.
  lemma {:induction false} Skip(p: Parser, junk: seq<byte>)
    requires ParserOk(p) && (p.status.Header1? || p.status.Header2? || p.status.Header3?)
    requires Awaited(p.status) !in junk
    ensures ParseAll(p, junk) == p.(errors := Add16(p.errors, |junk|))
    decreases |junk|
  {
    if junk != [] {
      assert ParseByte(p, junk[0]) == CountError(p);
      Skip(CountError(p), junk[1..]);
      Add16Twice(p.errors, 1, |junk| - 1);
    }
  }

  // The awaited header byte behind the junk moves the parser on.
  lemma Seek(p: Parser, junk: seq<byte>)
    requires ParserOk(p) && (p.status.Header1? || p.status.Header2? || p.status.Header3?)
    requires Awaited(p.status) !in junk
    ensures ParseAll(p, junk + [Awaited(p.status)])
         == p.(errors := Add16(p.errors, |junk|), status := After(p.status))
  {
    Skip(p, junk);
    ParseConcat(p, junk, [Awaited(p.status)]);
    ParseOne(ParseAll(p, junk), Awaited(p.status));
  }

  lemma ParseOne(p: Parser, c: byte)
    requires ParserOk(p)
    ensures ParseAll(p, [c]) == ParseByte(p, c)
  {
    assert [c][1..] == [];
  }

  // Three stretches of the stream, one after the other.
  lemma ParseThree(p: Parser, a: seq<byte>, b: seq<byte>, c: seq<byte>)
    requires ParserOk(p)
    ensures ParseAll(p, a + b + c) == ParseAll(ParseAll(ParseAll(p, a), b), c)
  {
    ParseConcat(p, a + b, c);
    ParseConcat(p, a, b);
  }

  // d with `bytes` written from position i on.
  function Overlay(d: seq<byte>, i: nat, bytes: seq<byte>): seq<byte>
    requires i + |bytes| <= |d|
  {
    d[..i] + bytes + d[i + |bytes|..]
  }

  lemma OverlayStep(d: seq<byte>, i: nat, bytes: seq<byte>)
    requires i + |bytes| <= |d| && bytes != []
    ensures Overlay(d[i := bytes[0]], i + 1, bytes[1..]) == Overlay(d, i, bytes)
  {
  }

  // The payload goes into rxData behind the size; the frame is ready with its last byte and not
  // before.
  function Collected(p: Parser, payload: seq<byte>): Parser
    requires ParserOk(p) && p.status.Payload? && |payload| <= p.size
  {
    var q := p.(rxData := Overlay(p.rxData, p.iter, payload), iter := p.iter + |payload|, size := p.size - |payload|);
    if |payload| == p.size then q.(status := Header1, ready := true) else q
  }

  lemma CollectByte(p: Parser, payload: seq<byte>)
    requires ParserOk(p) && p.status.Payload? && 1 < p.size && 0 < |payload| <= p.size
    ensures var q := ParseByte(p, payload[0]);
            q.status.Payload? && q.size == p.size - 1 && Collected(q, payload[1..]) == Collected(p, payload)
  {
    OverlayStep(p.rxData, p.iter, payload);
  }

  lemma {:induction false} Collect(p: Parser, payload: seq<byte>)
    requires ParserOk(p) && p.status.Payload? && p.size > 0 && |payload| <= p.size
    ensures ParseAll(p, payload) == Collected(p, payload)
    decreases |payload|
  {
    if payload == [] {
      assert Overlay(p.rxData, p.iter, []) == p.rxData;
    } else if p.size > 1 {
      CollectByte(p, payload);
      Collect(ParseByte(p, payload[0]), payload[1..]);
    } else {
      assert payload == [payload[0]];
      ParseOne(p, payload[0]);
      assert Overlay(p.rxData, p.iter, payload) == p.rxData[p.iter := payload[0]];
    }
  }

  // Three header bytes with junk before each.
  datatype Lead = Lead(junk1: seq<byte>, junk2: seq<byte>, junk3: seq<byte>)
  {
    ghost predicate Valid() { HEADER1 !in junk1 && HEADER2 !in junk2 && HEADER3 !in junk3 }

    function Bytes(): seq<byte> {
      junk1 + [HEADER1] + (junk2 + [HEADER2]) + (junk3 + [HEADER3])
    }

    function Junk(): nat { |junk1| + |junk2| + |junk3| }
  }

  // A start of a frame that the parser gives up: the size is too large.
  datatype Reject = Reject(lead: Lead, size: byte)
  {
    ghost predicate Valid() { lead.Valid() && size >= RX_BUFFER_SIZE }
  }

  function RejectBytes(rs: seq<Reject>): seq<byte> {
    if rs == [] then [] else rs[0].lead.Bytes() + [rs[0].size] + RejectBytes(rs[1..])
  }

  function RejectJunk(rs: seq<Reject>): nat {
    if rs == [] then 0 else rs[0].lead.Junk() + RejectJunk(rs[1..])
  }

  type ShortData = s: seq<byte> | |s| < RX_BUFFER_SIZE

  // A frame on the line: rejected starts and junk, then size and payload. A frame of size 0
  // takes one more byte, which it ignores.
  datatype Frame = Frame(rejects: seq<Reject>, lead: Lead, payload: ShortData, ignored: byte)
  {
    ghost predicate Valid() {
      (forall r :: r in rejects ==> r.Valid()) && lead.Valid()
    }

    function Opening(): seq<byte> { RejectBytes(rejects) + lead.Bytes() }

    // What follows the size on the line.
    function Body(): seq<byte> { if payload == [] then [ignored] else payload }

    function Bytes(): seq<byte>
    {
      Opening() + [|payload|] + Body()
    }

    function Junk(): nat { RejectJunk(rejects) + lead.Junk() }

    // What serialProcessEvent is handed for this frame: size and payload.
    function Content(): seq<byte>
    {
      [|payload|] + payload
    }
  }

  lemma LeadParsed(p: Parser, l: Lead)
    requires ParserOk(p) && p.status.Header1? && l.Valid()
    ensures ParseAll(p, l.Bytes()) == p.(errors := Add16(p.errors, l.Junk()), status := Size)
  {
    var a, b, c := l.junk1 + [HEADER1], l.junk2 + [HEADER2], l.junk3 + [HEADER3];
    ParseThree(p, a, b, c);
    Seek(p, l.junk1);
    var pa := ParseAll(p, a);
    Seek(pa, l.junk2);
    var pb := ParseAll(pa, b);
    Seek(pb, l.junk3);
    Add16Thrice(p.errors, |l.junk1|, |l.junk2|, |l.junk3|);
  }

  lemma Add16Thrice(e: word, a: nat, b: nat, c: nat)
    ensures Add16(Add16(Add16(e, a), b), c) == Add16(e, a + b + c)
  {
    Add16Twice(e, a, b);
    Add16Twice(e, a + b, c);
  }

  lemma {:induction false} RejectsParsed(p: Parser, rs: seq<Reject>)
    requires ParserOk(p) && p.status.Header1? && forall r :: r in rs ==> r.Valid()
    ensures var r := ParseAll(p, RejectBytes(rs));
            r == p.(errors := Add16(p.errors, RejectJunk(rs)), size := r.size)
    decreases |rs|
  {
    if rs != [] {
      var first := rs[0];
      assert first in rs;
      LeadParsed(p, first.lead);
      ParseThree(p, first.lead.Bytes(), [first.size], RejectBytes(rs[1..]));
      ParseOne(ParseAll(p, first.lead.Bytes()), first.size);
      var q := p.(errors := Add16(p.errors, first.lead.Junk()), size := first.size);
      RejectsParsed(q, rs[1..]);
      Add16Twice(p.errors, first.lead.Junk(), RejectJunk(rs[1..]));
    }
  }

  lemma OpeningParsed(p: Parser, f: Frame)
    requires ParserOk(p) && p.status.Header1? && f.Valid()
    ensures var r := ParseAll(p, f.Opening());
            r == p.(errors := Add16(p.errors, f.Junk()), status := Size, size := r.size)
  {
    RejectsParsed(p, f.rejects);
    ParseConcat(p, RejectBytes(f.rejects), f.lead.Bytes());
    LeadParsed(ParseAll(p, RejectBytes(f.rejects)), f.lead);
    Add16Twice(p.errors, RejectJunk(f.rejects), f.lead.Junk());
  }

  // The parser behind the opening of a frame and its size byte.
  function Sized(p: Parser, f: Frame): (r: Parser)
    requires ParserOk(p) && f.Valid()
    ensures ParserOk(r) && r.status.Payload?
  {
    p.(errors := Add16(p.errors, f.Junk()), status := Payload, size := |f.payload|,
       rxData := p.rxData[0 := |f.payload|], iter := 1)
  }

  lemma SizeParsed(p: Parser, f: Frame, more: seq<byte>)
    requires ParserOk(p) && p.status.Header1? && f.Valid()
    ensures ParseAll(p, f.Opening() + [|f.payload|] + more) == ParseAll(Sized(p, f), more)
  {
    OpeningParsed(p, f);
    var n: byte := |f.payload|;
    ParseThree(p, f.Opening(), [n], more);
    ParseOne(ParseAll(p, f.Opening()), n);
  }

  // A whole frame is recognised: its content is in rxData, the parser awaits the next frame,
  // and the error count has risen by the junk.
  lemma FrameParsed(p: Parser, f: Frame)
    requires ParserOk(p) && p.status.Header1? && f.Valid()
    ensures var r := ParseAll(p, f.Bytes());
            && r.status == Header1 && r.ready
            && r.rxData == Overlay(p.rxData, 0, f.Content())
            && r.errors == Add16(p.errors, f.Junk())
  {
    SizeParsed(p, f, f.Body());
    BodyParsed(Sized(p, f), f);
    OverlayStep(p.rxData, 0, f.Content());
    assert f.Content()[1..] == f.payload;
  }

  lemma BodyParsed(q: Parser, f: Frame)
    requires ParserOk(q) && q.status.Payload? && q.size == |f.payload|
    ensures var r := ParseAll(q, f.Body());
            r.status == Header1 && r.ready && r.rxData == Overlay(q.rxData, q.iter, f.payload) && r.errors == q.errors
  {
    if f.payload == [] {
      ParseOne(q, f.ignored);
      assert Overlay(q.rxData, q.iter, []) == q.rxData;
    } else {
      Collect(q, f.payload);
    }
  }

  // rxData then starts with the content.
  lemma ContentFirst(d: seq<byte>, content: seq<byte>)
    requires |content| <= |d|
    ensures content <= Overlay(d, 0, content)
  {
  }

  // The first bytes of a frame: the opening and its first part change nothing in rxData, then
  // come the first bytes of the content. The frame is not ready before its last byte.
  lemma PartParsed(p: Parser, f: Frame, k: nat)
    requires ParserOk(p) && p.status.Header1? && f.Valid() && k < |f.Bytes()|
    ensures var r, t := ParseAll(p, f.Bytes()[..k]), k - |f.Opening()|;
            && r.ready == p.ready && t <= |f.Content()|
            && r.rxData == if t <= 0 then p.rxData else Overlay(p.rxData, 0, f.Content()[..t])
  {
    var all, o, n: byte := f.Bytes(), f.Opening(), |f.payload|;
    var r := ParseAll(p, all[..k]);
    if k <= |o| {
      assert all[..k] == o[..k] && o == o[..k] + o[k..];
      ParseConcat(p, o[..k], o[k..]);
      OpeningParsed(p, f);
      ReadyStays(r, o[k..]);
      ReadyStays(p, o[..k]);
      LeadsStoreNothing(p, f.rejects, f.lead, k);
    } else {
      var part := f.Body()[..k - |o| - 1];
      assert all[..k] == o + [n] + part;
      assert part < f.Body();
      SizeParsed(p, f, part);
      PayloadPart(p, f, part);
    }
  }

  lemma PayloadPart(p: Parser, f: Frame, part: seq<byte>)
    requires ParserOk(p) && p.status.Header1? && f.Valid() && part < f.Body()
    ensures var r := ParseAll(Sized(p, f), part);
            && r.ready == p.ready && 1 + |part| <= |f.Content()|
            && r.rxData == Overlay(p.rxData, 0, f.Content()[..1 + |part|])
  {
    ContentPart(f, part);
    Behind(p.rxData, |f.payload|, part);
    if f.payload == [] {
      assert ParseAll(Sized(p, f), part) == Sized(p, f);
      assert Overlay(p.rxData[0 := 0], 1, []) == p.rxData[0 := 0];
    } else {
      Collect(Sized(p, f), part);
    }
  }

  lemma ContentPart(f: Frame, part: seq<byte>)
    requires part < f.Body()
    ensures 1 + |part| <= |f.Content()| && f.Content()[..1 + |part|] == [|f.payload|] + part
    ensures f.payload == [] ==> part == []
  {
    assert part == f.Body()[..|part|];
  }

  lemma Behind(d: seq<byte>, n: byte, part: seq<byte>)
    requires 1 + |part| <= |d|
    ensures Overlay(d[0 := n], 1, part) == Overlay(d, 0, [n] + part)
  {
  }

  // Rejected starts and the header bytes store nothing.
  lemma {:induction false} LeadsStoreNothing(p: Parser, rs: seq<Reject>, l: Lead, k: nat)
    requires ParserOk(p) && p.status.Header1? && l.Valid() && forall r :: r in rs ==> r.Valid()
    requires k <= |RejectBytes(rs) + l.Bytes()|
    ensures ParseAll(p, (RejectBytes(rs) + l.Bytes())[..k]).rxData == p.rxData
    decreases |rs|
  {
    var all := RejectBytes(rs) + l.Bytes();
    if rs == [] {
      assert all == l.Bytes();
      LeadStoresNothing(p, l, k);
    } else {
      var first := rs[0];
      assert first in rs;
      var head := first.lead.Bytes() + [first.size];
      assert all == head + (RejectBytes(rs[1..]) + l.Bytes());
      LeadParsed(p, first.lead);
      ParseConcat(p, first.lead.Bytes(), [first.size]);
      ParseOne(ParseAll(p, first.lead.Bytes()), first.size);
      if k < |head| {
        assert all[..k] == first.lead.Bytes()[..k];
        LeadStoresNothing(p, first.lead, k);
      } else {
        var rest := (RejectBytes(rs[1..]) + l.Bytes())[..k - |head|];
        assert all[..k] == head + rest;
        ParseConcat(p, head, rest);
        LeadsStoreNothing(ParseAll(p, head), rs[1..], l, k - |head|);
      }
    }
  }

  lemma LeadStoresNothing(p: Parser, l: Lead, k: nat)
    requires ParserOk(p) && p.status.Header1? && l.Valid() && k <= |l.Bytes()|
    ensures ParseAll(p, l.Bytes()[..k]).rxData == p.rxData
  {
    var a, b := l.junk1 + [HEADER1], l.junk2 + [HEADER2];
    Seek(p, l.junk1);
    var pa := ParseAll(p, a);
    Seek(pa, l.junk2);
    if k < |a| {
      assert l.Bytes()[..k] == l.junk1[..k];
      Skip(p, l.junk1[..k]);
    } else if k < |a| + |b| {
      assert l.Bytes()[..k] == a + l.junk2[..k - |a|];
      ParseConcat(p, a, l.junk2[..k - |a|]);
      Skip(pa, l.junk2[..k - |a|]);
    } else if k < |l.Bytes()| {
      var part := l.junk3[..k - |a| - |b|];
      assert l.Bytes()[..k] == a + b + part;
      ParseThree(p, a, b, part);
      Skip(ParseAll(pa, b), part);
    } else {
      assert l.Bytes()[..k] == l.Bytes();
      LeadParsed(p, l);
    }
  }

  lemma {:induction false} ReadyStays(p: Parser, s: seq<byte>)
    requires ParserOk(p)
    ensures p.ready ==> ParseAll(p, s).ready
    decreases |s|
  {
    if s != [] {
      ReadyStays(ParseByte(p, s[0]), s[1..]);
    }
  }

  // ---------- Calls of the receive loop ----------

  // One call consumes a chunk of the stream, then hands over rxData if a frame completed.
  function Call(p: Parser, chunk: seq<byte>): (r: (Parser, seq<seq<byte>>))
    requires ParserOk(p)
    ensures ParserOk(r.0) && !r.0.ready
  {
    var q := ParseAll(p, chunk);
    if q.ready then (q.(ready := false), [q.rxData]) else (q, [])
  }

  function Calls(p: Parser, chunks: seq<seq<byte>>): (r: (Parser, seq<seq<byte>>))
    requires ParserOk(p)
    ensures ParserOk(r.0)
    decreases |chunks|
  {
    if chunks == [] then (p, [])
    else
      var (q, events) := Call(p, chunks[0]);
      var (r, more) := Calls(q, chunks[1..]);
      (r, events + more)
  }

  function Concat(chunks: seq<seq<byte>>): seq<byte> {
    if chunks == [] then [] else chunks[0] + Concat(chunks[1..])
  }

  lemma {:induction false} CallsOnNothing(p: Parser, chunks: seq<seq<byte>>)
    requires ParserOk(p) && !p.ready && Concat(chunks) == []
    ensures Calls(p, chunks) == (p, [])
    decreases |chunks|
  {
    if chunks != [] {
      CallsOnNothing(p, chunks[1..]);
    }
  }

  // ---------- One frame, and whatever the same call reads after it ----------

  // Where a byte is stored, if it is: a size that is accepted, or a byte of payload.
  function Store(p: Parser, c: byte): Option<nat>
    requires ParserOk(p)
  {
    if p.status.Size? && c < RX_BUFFER_SIZE then Some(0)
    else if p.status.Payload? && p.size > 0 then Some(p.iter)
    else None
  }

  // The last byte of s that is stored at place i, if there is one.
  function LastStored(p: Parser, s: seq<byte>, i: nat): Option<byte>
    requires ParserOk(p)
    decreases |s|
  {
    if s == [] then None
    else
      var later := LastStored(ParseByte(p, s[0]), s[1..], i);
      if later.None? && Store(p, s[0]) == Some(i) then Some(s[0]) else later
  }

  lemma {:induction false} LastStoredShows(p: Parser, s: seq<byte>, i: nat)
    requires ParserOk(p) && i < RX_BUFFER_SIZE
    ensures var last := LastStored(p, s, i);
            ParseAll(p, s).rxData[i] == if last.Some? then last.value else p.rxData[i]
    decreases |s|
  {
    if s != [] {
      LastStoredShows(ParseByte(p, s[0]), s[1..], i);
    }
  }

  // A completed frame is handed over intact by its call exactly when no byte that the call
  // reads later leaves another value in one of the frame's places.
  lemma KeptUntilHandedOver(p: Parser, f: Frame, rest: seq<byte>)
    requires ParserOk(p) && p.status.Header1? && f.Valid()
    ensures var events := Call(p, f.Bytes() + rest).1;
            && |events| == 1
            && (f.Content() <= events[0] <==>
                  forall i :: 0 <= i < |f.Content()| ==>
                    var last := LastStored(ParseAll(p, f.Bytes()), rest, i);
                    last.Some? ==> last.value == f.Content()[i])
  {
    var q := ParseAll(p, f.Bytes());
    ParseConcat(p, f.Bytes(), rest);
    FrameParsed(p, f);
    ReadyStays(q, rest);
    ContentFirst(p.rxData, f.Content());
    forall i | 0 <= i < |f.Content()|
      ensures var last := LastStored(q, rest, i);
              ParseAll(q, rest).rxData[i] == if last.Some? then last.value else f.Content()[i]
    {
      LastStoredShows(q, rest, i);
    }
  }

  // ---------- Any frames, split over calls in any way ----------

  function Shared(a: seq<byte>, b: seq<byte>): (n: nat)
    ensures n <= |a| && n <= |b| && a[..n] == b[..n]
    ensures n < |a| && n < |b| ==> a[n] != b[n]
  {
    if a == [] || b == [] || a[0] != b[0] then 0
    else
      var n := Shared(a[1..], b[1..]);
      assert a[..1 + n] == [a[0]] + a[1..][..n] && b[..1 + n] == [b[0]] + b[1..][..n];
      1 + n
  }

  // How many bytes of the next frame g can be read before the content of f is overwritten or,
  // when g repeats it, before g is complete.
  function Room(f: Frame, g: Frame): (n: nat)
    ensures n < |g.Bytes()|
  {
    |g.Opening()| + Min(Shared(f.Content(), g.Content()), |g.Body()|)
  }

  function Min(a: nat, b: nat): nat { if a <= b then a else b }

  // Writing the first t bytes of b over data that starts with a leaves a in place exactly when
  // a and b agree that far.
  lemma OverlayKeeps(d: seq<byte>, a: seq<byte>, b: seq<byte>, t: nat)
    requires a <= d && t <= |b| <= |d| && a != [] && b != []
    requires a[0] == b[0] ==> |a| == |b|
    ensures a <= Overlay(d, 0, b[..t]) <==> t <= Shared(a, b)
  {
    var n, r := Shared(a, b), Overlay(d, 0, b[..t]);
    assert forall i :: 0 <= i < t ==> r[i] == b[i];
    if t <= n {
      forall i | 0 <= i < |a| ensures r[i] == a[i] {
        if i < t {
          assert a[..n][i] == b[..n][i];
        }
      }
    } else {
      if n > 0 {
        assert a[..n][0] == b[..n][0];
      }
      assert n < |a| && r[n] == b[n] != a[n];
    }
  }

  // Reading part of the next frame leaves a frame intact exactly within that room.
  lemma IntactWithinRoom(q: Parser, f: Frame, g: Frame, k: nat)
    requires ParserOk(q) && q.status.Header1? && f.Valid() && g.Valid() && k < |g.Bytes()|
    requires f.Content() <= q.rxData
    ensures f.Content() <= ParseAll(q, g.Bytes()[..k]).rxData <==> k <= Room(f, g)
  {
    PartParsed(q, g, k);
    var t := k - |g.Opening()|;
    if t > 0 {
      OverlayKeeps(q.rxData, f.Content(), g.Content(), t);
    }
  }

  // Two frames in one call: only the second is handed over.
  lemma TwoFramesOneCall(p: Parser, f: Frame, g: Frame)
    requires ParserOk(p) && p.status.Header1? && f.Valid() && g.Valid()
    ensures var (r, events) := Call(p, f.Bytes() + g.Bytes());
            r.status == Header1 && |events| == 1 && g.Content() <= events[0]
  {
    ParseConcat(p, f.Bytes(), g.Bytes());
    FrameParsed(p, f);
    FrameParsed(ParseAll(p, f.Bytes()), g);
    ContentFirst(ParseAll(p, f.Bytes()).rxData, g.Content());
  }

  // How many bytes of s complete a frame.
  function Completions(p: Parser, s: seq<byte>): nat
    requires ParserOk(p)
    decreases |s|
  {
    if s == [] then 0
    else
      var q := ParseByte(p, s[0]);
      (if p.status.Payload? && q.status.Header1? then 1 else 0) + Completions(q, s[1..])
  }

  lemma {:induction false} CompletionsConcat(p: Parser, s: seq<byte>, t: seq<byte>)
    requires ParserOk(p)
    ensures Completions(p, s + t) == Completions(p, s) + Completions(ParseAll(p, s), t)
    decreases |s|
  {
    if s == [] {
      assert s + t == t;
    } else {
      assert (s + t)[0] == s[0] && (s + t)[1..] == s[1..] + t;
      CompletionsConcat(ParseByte(p, s[0]), s[1..], t);
    }
  }

  // The flag rises with a completion and with nothing else; handing over resets it and
  // nothing else.
  lemma {:induction false} ReadyByCompletion(p: Parser, s: seq<byte>)
    requires ParserOk(p)
    ensures ParseAll(p, s).ready <==> p.ready || Completions(p, s) > 0
    decreases |s|
  {
    if s != [] {
      ReadyByCompletion(ParseByte(p, s[0]), s[1..]);
    }
  }

  lemma {:induction false} ReadyApart(p: Parser, s: seq<byte>)
    requires ParserOk(p) && Completions(p, s) == 0
    ensures ParseAll(p.(ready := false), s) == ParseAll(p, s).(ready := false)
    decreases |s|
  {
    if s != [] {
      ReadyApart(ParseByte(p, s[0]), s[1..]);
    }
  }

  lemma {:induction false} CompletionsApart(p: Parser, s: seq<byte>)
    requires ParserOk(p)
    ensures Completions(p.(ready := false), s) == Completions(p, s)
    decreases |s|
  {
    if s != [] {
      var q := ParseByte(p, s[0]);
      CompletionsApart(q, s[1..]);
      var q' := ParseByte(p.(ready := false), s[0]);
      assert q'.(ready := false) == q.(ready := false);
      CompletionsApart(q', s[1..]);
    }
  }

  // There are never more events than completions.
  lemma {:induction false} EventsBounded(p: Parser, chunks: seq<seq<byte>>)
    requires ParserOk(p) && !p.ready
    ensures |Calls(p, chunks).1| <= Completions(p, Concat(chunks))
    decreases |chunks|
  {
    if chunks != [] {
      var q := ParseAll(p, chunks[0]);
      ReadyByCompletion(p, chunks[0]);
      CompletionsConcat(p, chunks[0], Concat(chunks[1..]));
      CompletionsApart(q, Concat(chunks[1..]));
      EventsBounded(Call(p, chunks[0]).0, chunks[1..]);
      assert q.(ready := false) == Call(p, chunks[0]).0;
    }
  }

  // Part of a frame completes nothing, all of it one frame.
  lemma PartCompletesNothing(p: Parser, f: Frame, k: nat)
    requires ParserOk(p) && p.status.Header1? && f.Valid() && k < |f.Bytes()|
    ensures Completions(p, f.Bytes()[..k]) == 0
  {
    CompletionsApart(p, f.Bytes()[..k]);
    PartParsed(p.(ready := false), f, k);
    ReadyByCompletion(p.(ready := false), f.Bytes()[..k]);
  }

  lemma FrameCompletesOnce(p: Parser, f: Frame)
    requires ParserOk(p) && p.status.Header1? && f.Valid()
    ensures Completions(p, f.Bytes()) == 1
  {
    var n := |f.Bytes()| - 1;
    var part, last := f.Bytes()[..n], f.Bytes()[n..];
    assert f.Bytes() == part + last && last == [f.Bytes()[n]] && last[1..] == [];
    PartCompletesNothing(p, f, n);
    CompletionsConcat(p, part, last);
    var p0 := p.(ready := false);
    FrameParsed(p0, f);
    ReadyByCompletion(p0, f.Bytes());
    CompletionsApart(p, f.Bytes());
    assert Completions(ParseAll(p, part), last) <= 1;
  }

  ghost predicate AllValid(fs: seq<Frame>) { forall f :: f in fs ==> f.Valid() }

  // Frames one after the other, then the first k bytes of another.
  function Line(fs: seq<Frame>, g: Frame, k: nat): seq<byte>
    requires k <= |g.Bytes()|
  {
    if fs == [] then g.Bytes()[..k] else fs[0].Bytes() + Line(fs[1..], g, k)
  }

  lemma {:induction false} LineCompletes(p: Parser, fs: seq<Frame>, g: Frame, k: nat)
    requires ParserOk(p) && p.status.Header1? && AllValid(fs) && g.Valid() && k < |g.Bytes()|
    ensures Completions(p, Line(fs, g, k)) == |fs|
    decreases |fs|
  {
    if fs == [] {
      PartCompletesNothing(p, g, k);
    } else {
      assert fs[0] in fs;
      CompletionsConcat(p, fs[0].Bytes(), Line(fs[1..], g, k));
      FrameCompletesOnce(p, fs[0]);
      FrameParsed(p, fs[0]);
      LineCompletes(ParseAll(p, fs[0].Bytes()), fs[1..], g, k);
    }
  }

  // Some call ends, or the first one starts, after at least lo and at most hi more bytes.
  predicate CallEnds(chunks: seq<seq<byte>>, lo: int, hi: int) {
    lo <= 0 <= hi || (chunks != [] && CallEnds(chunks[1..], lo - |chunks[0]|, hi - |chunks[0]|))
  }

  lemma {:induction false} LastCallEnds(chunks: seq<seq<byte>>, hi: int)
    requires |Concat(chunks)| <= hi
    ensures CallEnds(chunks, |Concat(chunks)|, hi)
    decreases |chunks|
  {
    if chunks != [] {
      LastCallEnds(chunks[1..], hi - |chunks[0]|);
    }
  }

  lemma {:induction false} NoneEnds(chunks: seq<seq<byte>>, lo: int, hi: int)
    requires hi < 0
    ensures !CallEnds(chunks, lo, hi)
    decreases |chunks|
  {
    if chunks != [] {
      NoneEnds(chunks[1..], lo - |chunks[0]|, hi - |chunks[0]|);
    }
  }

  function Next(fs: seq<Frame>, g: Frame): Frame
    requires fs != []
  {
    if |fs| > 1 then fs[1] else g
  }

  // The frames' lengths, each with the room the frame behind leaves it.
  function Gaps(fs: seq<Frame>, g: Frame): seq<(nat, nat)> {
    if fs == [] then [] else [(|fs[0].Bytes()|, Room(fs[0], Next(fs, g)))] + Gaps(fs[1..], g)
  }

  // Between each frame's last byte and the byte of the next frame that overwrites it some call
  // ends; o bytes of the first frame have been read before.
  predicate Separated(gaps: seq<(nat, nat)>, chunks: seq<seq<byte>>, o: int) {
    gaps == []
    || (var len := gaps[0].0 - o;
        CallEnds(chunks, len, len + gaps[0].1) && Separated(gaps[1..], chunks, -len))
  }

  // One event for each frame, in order, starting with the frame's size and payload.
  ghost predicate Delivered(events: seq<seq<byte>>, fs: seq<Frame>)
  {
    |events| == |fs| && forall i :: 0 <= i < |fs| ==> fs[i].Content() <= events[i]
  }

  // A call that stays inside the first frame hands over nothing.
  lemma CallWithin(p: Parser, f: Frame, chunk: seq<byte>, o: nat)
    requires ParserOk(p) && p.status.Header1? && !p.ready && f.Valid()
    requires o + |chunk| < |f.Bytes()| && f.Bytes()[..o + |chunk|] == f.Bytes()[..o] + chunk
    ensures Call(ParseAll(p, f.Bytes()[..o]), chunk) == (ParseAll(p, f.Bytes()[..o + |chunk|]), [])
  {
    ParseConcat(p, f.Bytes()[..o], chunk);
    PartParsed(p, f, o + |chunk|);
  }

  // A call that completes the first frame hands over what rxData then holds.
  lemma CallAcross(p: Parser, f: Frame, o: nat, more: seq<byte>)
    requires ParserOk(p) && p.status.Header1? && f.Valid() && o <= |f.Bytes()|
    ensures var r := ParseAll(ParseAll(p, f.Bytes()), more);
            Call(ParseAll(p, f.Bytes()[..o]), f.Bytes()[o..] + more) == (r.(ready := false), [r.rxData])
  {
    var a, b := f.Bytes()[..o], f.Bytes()[o..];
    assert f.Bytes() == a + b;
    ParseConcat(p, a, b);
    ParseConcat(ParseAll(p, a), b, more);
    FrameParsed(p, f);
    ReadyStays(ParseAll(p, f.Bytes()), more);
  }

  lemma {:induction false} SeparatedNext(gaps: seq<(nat, nat)>, chunks: seq<seq<byte>>, o: int)
    requires chunks != [] && (gaps != [] ==> o < gaps[0].0)
    requires forall i :: 0 <= i < |gaps| ==> 0 < gaps[i].0
    ensures Separated(gaps, chunks, o) <==> Separated(gaps, chunks[1..], o + |chunks[0]|)
    decreases |gaps|
  {
    if gaps != [] {
      var len := gaps[0].0 - o;
      SeparatedNext(gaps[1..], chunks, -len);
      assert gaps[0].0 - (o + |chunks[0]|) == len - |chunks[0]|;
    }
  }

  lemma {:induction false} GapsPositive(fs: seq<Frame>, g: Frame)
    ensures forall i :: 0 <= i < |Gaps(fs, g)| ==> 0 < Gaps(fs, g)[i].0
  {
    if fs != [] {
      GapsPositive(fs[1..], g);
    }
  }

  // When the first call reads m bytes beyond the first frame, that frame is separated from the
  // next exactly when m is within the room.
  lemma FirstSeparated(chunks: seq<seq<byte>>, len: nat, room: nat, m: nat)
    requires chunks != [] && 0 < len && |chunks[0]| == len + m
    ensures CallEnds(chunks, len, len + room) <==> m <= room
  {
    if m > room {
      var hi: int := room - m;
      NoneEnds(chunks[1..], 0 - m, hi);
    }
  }

  // The first call reads to the end of the first frame, m bytes of the next, and no further.
  lemma DeliveredAcross(p: Parser, fs: seq<Frame>, g: Frame, k: nat, chunks: seq<seq<byte>>, o: nat, m: nat)
    requires ParserOk(p) && p.status.Header1? && !p.ready && AllValid(fs) && g.Valid() && k < |g.Bytes()|
    requires fs != [] && o < |fs[0].Bytes()| && chunks != [] && m < |Next(fs, g).Bytes()|
    requires chunks[0] == fs[0].Bytes()[o..] + Next(fs, g).Bytes()[..m]
    ensures var p1, nx := ParseAll(p, fs[0].Bytes()).(ready := false), Next(fs, g);
            var (q, events) := Calls(ParseAll(p, fs[0].Bytes()[..o]), chunks);
            var more := Calls(ParseAll(p1, nx.Bytes()[..m]), chunks[1..]).1;
            && ParserOk(p1) && p1.status.Header1?
            && (Delivered(events, fs) <==> m <= Room(fs[0], nx) && Delivered(more, fs[1..]))
  {
    var f, nx := fs[0], Next(fs, g);
    assert f in fs && (|fs| > 1 ==> fs[1] in fs);
    var all := ParseAll(p, f.Bytes());
    var p1, part := all.(ready := false), nx.Bytes()[..m];
    FrameParsed(p, f);
    ContentFirst(p.rxData, f.Content());
    CallAcross(p, f, o, part);
    IntactWithinRoom(all, f, nx, m);
    PartCompletesNothing(all, nx, m);
    ReadyApart(all, part);
    var rx := ParseAll(all, part).rxData;
    var more := Calls(ParseAll(p1, part), chunks[1..]).1;
    assert Calls(ParseAll(p, f.Bytes()[..o]), chunks).1 == [rx] + more;
    DeliveredFirst(rx, more, fs);
  }

  lemma DeliveredFirst(rx: seq<byte>, more: seq<seq<byte>>, fs: seq<Frame>)
    requires AllValid(fs) && fs != []
    ensures Delivered([rx] + more, fs) <==> fs[0].Content() <= rx && Delivered(more, fs[1..])
  {
    var events := [rx] + more;
    assert forall i :: 0 <= i < |more| ==> events[i + 1] == more[i];
    if Delivered(events, fs) {
      forall i | 0 <= i < |fs[1..]| ensures fs[1..][i].Content() <= more[i] {
        assert fs[i + 1].Content() <= events[i + 1];
      }
    }
    if fs[0].Content() <= rx && Delivered(more, fs[1..]) {
      forall i | 0 <= i < |fs| ensures fs[i].Content() <= events[i] {
        assert i > 0 ==> fs[1..][i - 1].Content() <= more[i - 1];
      }
    }
  }

  // A call that completes two frames leaves fewer events than frames.
  lemma TwoInOneCall(p: Parser, fs: seq<Frame>, g: Frame, k: nat, chunks: seq<seq<byte>>, o: nat)
    requires ParserOk(p) && p.status.Header1? && !p.ready && AllValid(fs) && g.Valid() && k < |g.Bytes()|
    requires |fs| > 1 && o < |fs[0].Bytes()| && chunks != [] && o <= |Line(fs, g, k)|
    requires Concat(chunks) == Line(fs, g, k)[o..]
    requires |chunks[0]| >= |fs[0].Bytes()| - o + |fs[1].Bytes()|
    ensures |Calls(ParseAll(p, fs[0].Bytes()[..o]), chunks).1| < |fs|
  {
    var before, chunk, rest := fs[0].Bytes()[..o], chunks[0], Concat(chunks[1..]);
    var line := Line(fs, g, k);
    assert line == before + chunk + rest by {
      assert before == line[..o] && line == line[..o] + line[o..];
    }
    LineCompletes(p, fs, g, k);
    CompletionsConcat(p, before + chunk, rest);
    TwoCompleted(p, fs, g, k, before + chunk);
    ParseConcat(p, before, chunk);
    var q := ParseAll(ParseAll(p, before), chunk);
    CompletionsApart(q, rest);
    EventsBounded(q.(ready := false), chunks[1..]);
    PartParsed(p, fs[0], o);
  }

  lemma TwoCompleted(p: Parser, fs: seq<Frame>, g: Frame, k: nat, s: seq<byte>)
    requires ParserOk(p) && p.status.Header1? && AllValid(fs) && g.Valid() && k < |g.Bytes()|
    requires |fs| > 1 && s <= Line(fs, g, k) && |s| >= |fs[0].Bytes()| + |fs[1].Bytes()|
    ensures Completions(p, s) >= 2
  {
    var f, h := fs[0], fs[1];
    assert f in fs && h in fs;
    var beyond := s[|f.Bytes()| + |h.Bytes()|..];
    assert Line(fs, g, k) == f.Bytes() + (h.Bytes() + Line(fs[1..][1..], g, k));
    assert s == f.Bytes() + (h.Bytes() + beyond);
    CompletionsConcat(p, f.Bytes(), h.Bytes() + beyond);
    FrameCompletesOnce(p, f);
    FrameParsed(p, f);
    var q := ParseAll(p, f.Bytes());
    CompletionsConcat(q, h.Bytes(), beyond);
    FrameCompletesOnce(q, h);
  }

  lemma {:induction false} DeliveredFrom(p: Parser, fs: seq<Frame>, g: Frame, k: nat, chunks: seq<seq<byte>>, o: nat)
    requires ParserOk(p) && p.status.Header1? && !p.ready && AllValid(fs) && g.Valid() && k < |g.Bytes()|
    requires o <= |Line(fs, g, k)| && (fs != [] ==> o < |fs[0].Bytes()|)
    requires Concat(chunks) == Line(fs, g, k)[o..]
    ensures Delivered(Calls(ParseAll(p, Line(fs, g, k)[..o]), chunks).1, fs) <==> Separated(Gaps(fs, g), chunks, o)
    decreases |chunks|, 1
  {
    if fs == [] {
      NothingCompleted(p, g, k, chunks, o);
    } else {
      assert |Line(fs, g, k)| > o;
      if o + |chunks[0]| < |fs[0].Bytes()| {
        DeliveredWithin(p, fs, g, k, chunks, o);
      } else {
        DeliveredBeyond(p, fs, g, k, chunks, o);
      }
    }
  }

  lemma {:induction false} DeliveredWithin(p: Parser, fs: seq<Frame>, g: Frame, k: nat, chunks: seq<seq<byte>>, o: nat)
    requires ParserOk(p) && p.status.Header1? && !p.ready && AllValid(fs) && g.Valid() && k < |g.Bytes()|
    requires o <= |Line(fs, g, k)| && (fs != [] ==> o < |fs[0].Bytes()|)
    requires Concat(chunks) == Line(fs, g, k)[o..]
    requires fs != [] && chunks != [] && o + |chunks[0]| < |fs[0].Bytes()|
    ensures Delivered(Calls(ParseAll(p, Line(fs, g, k)[..o]), chunks).1, fs) <==> Separated(Gaps(fs, g), chunks, o)
    decreases |chunks|, 0
  {
    FirstWithin(p, fs, g, k, chunks, o);
    GapsPositive(fs, g);
    SeparatedNext(Gaps(fs, g), chunks, o);
    DeliveredFrom(p, fs, g, k, chunks[1..], o + |chunks[0]|);
  }

  lemma {:induction false} DeliveredBeyond(p: Parser, fs: seq<Frame>, g: Frame, k: nat, chunks: seq<seq<byte>>, o: nat)
    requires ParserOk(p) && p.status.Header1? && !p.ready && AllValid(fs) && g.Valid() && k < |g.Bytes()|
    requires o <= |Line(fs, g, k)| && (fs != [] ==> o < |fs[0].Bytes()|)
    requires Concat(chunks) == Line(fs, g, k)[o..]
    requires fs != [] && chunks != [] && o + |chunks[0]| >= |fs[0].Bytes()|
    ensures Delivered(Calls(ParseAll(p, Line(fs, g, k)[..o]), chunks).1, fs) <==> Separated(Gaps(fs, g), chunks, o)
    decreases |chunks|, 0
  {
    var f, m := fs[0], o + |chunks[0]| - |fs[0].Bytes()|;
    LineAcross(fs, g, k, chunks, o);
    GapsPositive(fs, g);
    SeparatedBeyond(Gaps(fs, g), chunks, o, m);
    if m < |Next(fs, g).Bytes()| {
      DeliveredAcross(p, fs, g, k, chunks, o, m);
      DeliveredFrom(ParseAll(p, f.Bytes()).(ready := false), fs[1..], g, k, chunks[1..], m);
    } else {
      TwoInOneCall(p, fs, g, k, chunks, o);
    }
  }

  lemma SeparatedBeyond(gaps: seq<(nat, nat)>, chunks: seq<seq<byte>>, o: nat, m: nat)
    requires gaps != [] && o < gaps[0].0 && chunks != [] && |chunks[0]| == gaps[0].0 - o + m
    requires forall i :: 0 <= i < |gaps| ==> 0 < gaps[i].0
    ensures Separated(gaps, chunks, o) <==> m <= gaps[0].1 && Separated(gaps[1..], chunks[1..], m)
  {
    var len := gaps[0].0 - o;
    FirstSeparated(chunks, len, gaps[0].1, m);
    SeparatedNext(gaps[1..], chunks, -len);
    assert -len + |chunks[0]| == m;
  }

  // The first call stays inside the first frame: nothing is handed over by it.
  lemma FirstWithin(p: Parser, fs: seq<Frame>, g: Frame, k: nat, chunks: seq<seq<byte>>, o: nat)
    requires ParserOk(p) && p.status.Header1? && !p.ready && AllValid(fs) && g.Valid() && k < |g.Bytes()|
    requires fs != [] && o < |fs[0].Bytes()| && chunks != [] && o + |chunks[0]| < |fs[0].Bytes()|
    requires o <= |Line(fs, g, k)| && Concat(chunks) == Line(fs, g, k)[o..]
    ensures o + |chunks[0]| <= |Line(fs, g, k)| && Concat(chunks[1..]) == Line(fs, g, k)[o + |chunks[0]|..]
    ensures Calls(ParseAll(p, Line(fs, g, k)[..o]), chunks).1
         == Calls(ParseAll(p, Line(fs, g, k)[..o + |chunks[0]|]), chunks[1..]).1
  {
    var f, line, chunk := fs[0], Line(fs, g, k), chunks[0];
    assert f in fs;
    var o' := o + |chunk|;
    TakeWithin(f.Bytes(), Line(fs[1..], g, k), chunk, Concat(chunks[1..]), o);
    CallWithin(p, f, chunk, o);
    CallsUnfold(ParseAll(p, line[..o]), chunks);
  }

  lemma CallsUnfold(p: Parser, chunks: seq<seq<byte>>)
    requires ParserOk(p) && chunks != []
    ensures Calls(p, chunks).1 == Call(p, chunks[0]).1 + Calls(Call(p, chunks[0]).0, chunks[1..]).1
  {
  }

  lemma TakeWithin(a: seq<byte>, b: seq<byte>, c: seq<byte>, d: seq<byte>, o: nat)
    requires o + |c| <= |a| && (a + b)[o..] == c + d
    ensures (a + b)[..o] == a[..o] && (a + b)[..o + |c|] == a[..o + |c|] == a[..o] + c
    ensures d == (a + b)[o + |c|..]
  {
    assert c == (a + b)[o..][..|c|] && d == (a + b)[o..][|c|..];
  }

  // The first call reads beyond the first frame.
  lemma LineAcross(fs: seq<Frame>, g: Frame, k: nat, chunks: seq<seq<byte>>, o: nat)
    requires k < |g.Bytes()| && fs != [] && o < |fs[0].Bytes()| && chunks != []
    requires o <= |Line(fs, g, k)| && Concat(chunks) == Line(fs, g, k)[o..]
    requires o + |chunks[0]| >= |fs[0].Bytes()|
    ensures var m, tail := o + |chunks[0]| - |fs[0].Bytes()|, Line(fs[1..], g, k);
            && m <= |tail| && Concat(chunks[1..]) == tail[m..]
            && chunks[0] == fs[0].Bytes()[o..] + tail[..m]
            && (m < |Next(fs, g).Bytes()| ==> tail[..m] == Next(fs, g).Bytes()[..m])
            && (m >= |Next(fs, g).Bytes()| ==> |fs| > 1)
    ensures Line(fs, g, k)[..o] == fs[0].Bytes()[..o]
  {
    var tail := Line(fs[1..], g, k);
    TakeFrom(fs[0].Bytes(), tail, chunks[0], Concat(chunks[1..]), o);
    var m := o + |chunks[0]| - |fs[0].Bytes()|;
    if |fs| > 1 {
      assert tail == fs[1].Bytes() + Line(fs[1..][1..], g, k);
    }
  }

  lemma TakeFrom(a: seq<byte>, b: seq<byte>, c: seq<byte>, d: seq<byte>, o: nat)
    requires o <= |a| && (a + b)[o..] == c + d && o + |c| >= |a|
    ensures var m := o + |c| - |a|; m <= |b| && c == a[o..] + b[..m] && d == b[m..]
    ensures (a + b)[..o] == a[..o]
  {
    var m := o + |c| - |a|;
    assert (a + b)[o..] == a[o..] + b;
    assert |a[o..]| + |b| == |c| + |d|;
    assert c == (a[o..] + b)[..|c|] && d == (a[o..] + b)[|c|..];
  }

  lemma NothingCompleted(p: Parser, g: Frame, k: nat, chunks: seq<seq<byte>>, o: nat)
    requires ParserOk(p) && p.status.Header1? && !p.ready && g.Valid() && o <= k < |g.Bytes()|
    requires Concat(chunks) == g.Bytes()[..k][o..]
    ensures Calls(ParseAll(p, g.Bytes()[..k][..o]), chunks).1 == []
  {
    var a, b := g.Bytes()[..k][..o], g.Bytes()[..k][o..];
    assert a == g.Bytes()[..o] && a + b == g.Bytes()[..k];
    PartCompletesNothing(p, g, k);
    CompletionsConcat(p, a, b);
    PartParsed(p, g, o);
    EventsBounded(ParseAll(p, a), chunks);
  }

  // However frames, and the start of another one, are split over calls of the loop: every frame
  // is handed over once, in order and intact, exactly when between its last byte and the next
  // frame's first byte that overwrites it some call ends.
  lemma EachDeliveredExactly(p: Parser, fs: seq<Frame>, g: Frame, k: nat, chunks: seq<seq<byte>>)
    requires ParserOk(p) && p.status.Header1? && !p.ready && AllValid(fs) && g.Valid() && k < |g.Bytes()|
    requires Concat(chunks) == Line(fs, g, k)
    ensures Delivered(Calls(p, chunks).1, fs) <==> Separated(Gaps(fs, g), chunks, 0)
  {
    var line := Line(fs, g, k);
    assert line[..0] == [] && line[0..] == line;
    DeliveredFrom(p, fs, g, k, chunks, 0);
  }

  // One frame with nothing behind it is handed over intact in every split, and the parser
  // awaits the next frame, with the junk counted.
  lemma OneFrameAnySplit(p: Parser, f: Frame, chunks: seq<seq<byte>>)
    requires ParserOk(p) && p.status.Header1? && !p.ready && f.Valid()
    requires Concat(chunks) == f.Bytes()
    ensures var (r, events) := Calls(p, chunks);
            && r.status == Header1 && !r.ready && r.errors == Add16(p.errors, f.Junk())
            && |events| == 1 && f.Content() <= events[0]
  {
    assert Line([f], f, 0) == f.Bytes() + [];
    LastCallEnds(chunks, |f.Bytes()| + Room(f, f));
    assert [f][1..] == [];
    EachDeliveredExactly(p, [f], f, 0, chunks);
    CallsParse(p, chunks);
    FrameParsed(p, f);
  }

  // Handing over aside, calls parse what they read.
  lemma {:induction false} CallsParse(p: Parser, chunks: seq<seq<byte>>)
    requires ParserOk(p) && !p.ready
    ensures Calls(p, chunks).0 == ParseAll(p, Concat(chunks)).(ready := false)
    decreases |chunks|
  {
    if chunks != [] {
      var q := ParseAll(p, chunks[0]);
      ParseConcat(p, chunks[0], Concat(chunks[1..]));
      CallsParse(q.(ready := false), chunks[1..]);
      FlagApart(q, Concat(chunks[1..]));
    }
  }

  lemma {:induction false} FlagApart(p: Parser, s: seq<byte>)
    requires ParserOk(p)
    ensures ParseAll(p.(ready := false), s).(ready := false) == ParseAll(p, s).(ready := false)
    decreases |s|
  {
    if s != [] {
      var q, q' := ParseByte(p, s[0]), ParseByte(p.(ready := false), s[0]);
      assert q.(ready := false) == q'.(ready := false);
      FlagApart(q, s[1..]);
      FlagApart(q', s[1..]);
    }
  }

  // A frame of size 0 takes one byte more from the line and stores nothing but its size.
  lemma SizeZeroTakesOneByte(p: Parser, f: Frame)
    requires ParserOk(p) && p.status.Header1? && f.Valid() && f.payload == []
    ensures var q := ParseAll(p, f.Opening() + [0]);
            && q.status == Payload && q.ready == p.ready
            && ParseAll(p, f.Bytes()).ready && ParseAll(p, f.Bytes()).status == Header1
            && ParseAll(p, f.Bytes()).rxData == p.rxData[0 := 0]
  {
    SizeParsed(p, f, []);
    assert f.Opening() + [0] == f.Opening() + [0] + [];
    FrameParsed(p, f);
    assert Overlay(p.rxData, 0, [0]) == p.rxData[0 := 0];
  }

  // ---------- The ring ----------

  datatype Ring = Ring(buf: seq<byte>, wr: nat, rd: nat, used: word)

  ghost predicate RingInBounds(r: Ring) {
    |r.buf| == RING_LEN && r.wr < RING_LEN && r.rd < RING_LEN
  }

  function Advance(i: nat): nat { if i + 1 >= RING_LEN then 0 else i + 1 }

  // The receive interrupt stores the byte from the line.
  function Isr(r: Ring, b: byte): (r': Ring)
    requires RingInBounds(r)
    ensures RingInBounds(r')
  {
    r.(buf := r.buf[r.wr := b], wr := Advance(r.wr), used := (r.used + 1) % 0x1_0000)
  }

  // The loop reads a byte while the pointers differ.
  predicate LooksEmpty(r: Ring) { r.rd == r.wr }

  function Take(r: Ring): (r': (byte, Ring))
    requires RingInBounds(r)
    ensures RingInBounds(r'.1)
  {
    (r.buf[r.rd], r.(rd := Advance(r.rd), used := (r.used - 1) % 0x1_0000))
  }

  // Reads as the queue q: the slots from rd on hold q, and the count is its length.
  ghost predicate Holds(r: Ring, q: seq<byte>) {
    && RingInBounds(r) && |q| < RING_LEN && r.used == |q|
    && r.wr == Slot(r.rd, |q|)
    && forall i :: 0 <= i < |q| ==> r.buf[Slot(r.rd, i)] == q[i]
  }

  // The slot k places on from rd.
  function Slot(rd: nat, k: nat): nat
    requires rd < RING_LEN && k < RING_LEN
  {
    if rd + k < RING_LEN then rd + k else rd + k - RING_LEN
  }

  lemma IsrHolds(r: Ring, q: seq<byte>, b: byte)
    requires Holds(r, q) && |q| < RING_LEN - 1
    ensures Holds(Isr(r, b), q + [b])
  {
  }

  lemma TakeHolds(r: Ring, q: seq<byte>)
    requires Holds(r, q)
    ensures LooksEmpty(r) <==> q == []
    ensures q != [] ==> Take(r).0 == q[0] && Holds(Take(r).1, q[1..])
  {
    if q != [] {
      var r' := Take(r).1;
      assert r.buf[Slot(r.rd, 0)] == q[0];
      forall i | 0 <= i < |q[1..]| ensures r'.buf[Slot(r'.rd, i)] == q[1..][i] {
        assert r.buf[Slot(r.rd, i + 1)] == q[i + 1];
      }
    }
  }

  // The 24th unread byte makes the ring look empty, with 24 bytes counted.
  lemma IsrOverflows(r: Ring, q: seq<byte>, b: byte)
    requires Holds(r, q) && |q| == RING_LEN - 1
    ensures LooksEmpty(Isr(r, b)) && Isr(r, b).used == RING_LEN
  {
  }

  // Interrupts and loop turns in any order. A turn on a ring that looks empty does nothing.
  datatype Event = Received(b: byte) | Turn

  function RunRing(r: Ring, events: seq<Event>): (r': (Ring, seq<byte>))
    requires RingInBounds(r)
    ensures RingInBounds(r'.0)
    decreases |events|
  {
    if events == [] then (r, [])
    else
      match events[0]
      case Received(b) => RunRing(Isr(r, b), events[1..])
      case Turn =>
        if LooksEmpty(r) then RunRing(r, events[1..])
        else
          var (c, r1) := Take(r);
          var (r2, more) := RunRing(r1, events[1..]);
          (r2, [c] + more)
  }

  // Bytes the interrupts delivered, in order.
  function Produced(events: seq<Event>): seq<byte> {
    if events == [] then []
    else (if events[0].Received? then [events[0].b] else []) + Produced(events[1..])
  }

  // The unread count stays at or below 23, starting from n unread bytes.
  predicate NeverFull(n: nat, events: seq<Event>)
    decreases |events|
  {
    n < RING_LEN
    && (events == []
        || NeverFull(if events[0].Received? then n + 1 else if n > 0 then n - 1 else 0, events[1..]))
  }

  // For every interleaving that keeps at most 23 bytes unread, nothing is lost, duplicated or
  // reordered: what was produced is what was consumed followed by what the ring still holds.
  lemma {:induction false} RingIsFifo(r: Ring, q: seq<byte>, events: seq<Event>) returns (q': seq<byte>)
    requires Holds(r, q) && NeverFull(|q|, events)
    ensures Holds(RunRing(r, events).0, q')
    ensures q + Produced(events) == RunRing(r, events).1 + q'
    decreases |events|
  {
    if events == [] {
      q' := q;
    } else if events[0].Received? {
      IsrHolds(r, q, events[0].b);
      q' := RingIsFifo(Isr(r, events[0].b), q + [events[0].b], events[1..]);
      Assoc(q, [events[0].b], Produced(events[1..]));
    } else {
      TakeHolds(r, q);
      assert Produced(events) == Produced(events[1..]);
      if q == [] {
        q' := RingIsFifo(r, q, events[1..]);
      } else {
        q' := RingIsFifo(Take(r).1, q[1..], events[1..]);
        assert q == [q[0]] + q[1..];
        Assoc([q[0]], q[1..], Produced(events[1..]));
        Assoc([q[0]], RunRing(Take(r).1, events[1..]).1, q');
      }
    }
  }

  lemma Assoc(a: seq<byte>, b: seq<byte>, c: seq<byte>)
    ensures a + b + c == a + (b + c)
  {
  }

  function Step(r: Ring, e: Event): (r': Ring)
    requires RingInBounds(r)
    ensures RingInBounds(r')
  {
    match e
    case Received(b) => Isr(r, b)
    case Turn => if LooksEmpty(r) then r else Take(r).1
  }

  // What the pointers show as unread.
  function Contents(r: Ring): seq<byte>
    requires RingInBounds(r)
  {
    var n := if r.rd <= r.wr then r.wr - r.rd else r.wr + RING_LEN - r.rd;
    seq(n, i requires 0 <= i < n => r.buf[Slot(r.rd, i)])
  }

  lemma HeldContents(r: Ring, q: seq<byte>)
    requires Holds(r, q)
    ensures Contents(r) == q
  {
    assert |Contents(r)| == |q|;
  }

  // What was unread and what was produced is what was consumed and what is unread now.
  ghost predicate Conserved(r: Ring, q: seq<byte>, events: seq<Event>)
    requires RingInBounds(r)
  {
    q + Produced(events) == RunRing(r, events).1 + Contents(RunRing(r, events).0)
  }

  // The queue after one event that does not overflow the ring.
  function Queue(q: seq<byte>, e: Event): seq<byte> {
    if e.Received? then q + [e.b] else if q == [] then q else q[1..]
  }

  lemma ConservedIsr(r: Ring, q: seq<byte>, b: byte, rest: seq<Event>)
    requires Holds(r, q) && |q| < RING_LEN - 1
    ensures Conserved(r, q, [Received(b)] + rest) <==> Conserved(Isr(r, b), q + [b], rest)
  {
    var events := [Received(b)] + rest;
    assert events[0] == Received(b) && events[1..] == rest;
    Assoc(q, [b], Produced(rest));
  }

  lemma ConservedTake(r: Ring, q: seq<byte>, rest: seq<Event>)
    requires Holds(r, q) && q != []
    ensures Conserved(r, q, [Turn] + rest) <==> Conserved(Take(r).1, q[1..], rest)
  {
    var events := [Turn] + rest;
    assert events[0] == Turn && events[1..] == rest;
    TakeHolds(r, q);
    var (r', consumed) := RunRing(Take(r).1, rest);
    assert RunRing(r, events) == (r', [q[0]] + consumed);
    assert Produced(events) == Produced(rest);
    Shifted(q, Produced(rest), consumed, Contents(r'));
  }

  lemma Shifted(q: seq<byte>, produced: seq<byte>, consumed: seq<byte>, contents: seq<byte>)
    requires q != []
    ensures q + produced == [q[0]] + consumed + contents <==> q[1..] + produced == consumed + contents
  {
    assert q == [q[0]] + q[1..];
    Assoc([q[0]], q[1..], produced);
    Assoc([q[0]], consumed, contents);
    SameFirst(q[0], q[1..] + produced, consumed + contents);
  }

  lemma ConservedStep(r: Ring, q: seq<byte>, e: Event, rest: seq<Event>)
    requires Holds(r, q) && (e.Received? ==> |q| < RING_LEN - 1)
    ensures Holds(Step(r, e), Queue(q, e))
    ensures Conserved(r, q, [e] + rest) <==> Conserved(Step(r, e), Queue(q, e), rest)
  {
    TakeHolds(r, q);
    if e.Received? {
      IsrHolds(r, q, e.b);
      ConservedIsr(r, q, e.b, rest);
    } else if q != [] {
      ConservedTake(r, q, rest);
    } else {
      var events := [e] + rest;
      assert events[0] == e && events[1..] == rest;
    }
  }

  lemma SameFirst(b: byte, s: seq<byte>, t: seq<byte>)
    ensures [b] + s == [b] + t <==> s == t
  {
    assert ([b] + s)[1..] == s && ([b] + t)[1..] == t;
  }

  // With 23 bytes unread the next one that arrives loses them all.
  lemma OverflowLoses(r: Ring, q: seq<byte>, b: byte)
    requires Holds(r, q) && |q| == RING_LEN - 1
    ensures !Conserved(r, q, [Received(b)])
  {
    IsrOverflows(r, q, b);
    assert [Received(b)][1..] == [];
    assert RunRing(r, [Received(b)]) == (Isr(r, b), []);
    assert Contents(Isr(r, b)) == [];
    assert |q + Produced([Received(b)])| > 0;
  }

  // Nothing is lost, duplicated or reordered up to any point of a run exactly when at most 23
  // bytes are ever unread.
  lemma {:induction false} SoundExactly(r: Ring, q: seq<byte>, events: seq<Event>)
    requires Holds(r, q)
    ensures (forall k :: 0 <= k <= |events| ==> Conserved(r, q, events[..k])) <==> NeverFull(|q|, events)
    decreases |events|
  {
    HeldContents(r, q);
    assert Conserved(r, q, []);
    if events != [] {
      var e, rest := events[0], events[1..];
      if e.Received? && |q| == RING_LEN - 1 {
        OverflowLoses(r, q, e.b);
        assert events[..1] == [e];
      } else {
        ConservedStep(r, q, e, []);
        SoundExactly(Step(r, e), Queue(q, e), rest);
        PrefixesShift(r, q, events);
      }
    }
  }

  // Every prefix of a run is conserved exactly when every prefix of what follows its first
  // event is.
  lemma PrefixesShift(r: Ring, q: seq<byte>, events: seq<Event>)
    requires Holds(r, q) && events != [] && (events[0].Received? ==> |q| < RING_LEN - 1)
    ensures (forall k :: 0 <= k <= |events| ==> Conserved(r, q, events[..k])) <==>
              (forall k :: 0 <= k <= |events[1..]| ==>
                 Conserved(Step(r, events[0]), Queue(q, events[0]), events[1..][..k]))
  {
    var e, rest := events[0], events[1..];
    HeldContents(r, q);
    assert events[..0] == [] && Conserved(r, q, []);
    forall k | 0 <= k <= |rest|
      ensures Conserved(Step(r, e), Queue(q, e), rest[..k]) <==> Conserved(r, q, events[..k + 1])
    {
      assert events[..k + 1] == [e] + rest[..k];
      ConservedStep(r, q, e, rest[..k]);
    }
    if forall k :: 0 <= k <= |rest| ==> Conserved(Step(r, e), Queue(q, e), rest[..k]) {
      forall k | 0 <= k <= |events| ensures Conserved(r, q, events[..k]) {
        if k > 0 {
          assert Conserved(Step(r, e), Queue(q, e), rest[..k - 1]);
        }
      }
    }
  }

  // ---------- The receiver as it runs ----------

  // The two diagnostic logs: bytes are appended until the last slot, which then keeps the newest.
  function Log(log: (seq<byte>, nat), c: byte): (r: (seq<byte>, nat))
    requires log.1 < |log.0|
    ensures |r.0| == |log.0| && r.1 < |r.0| && r.0[log.1] == c
    ensures forall i :: 0 <= i < |r.0| && i != log.1 ==> r.0[i] == log.0[i]
    ensures r.1 == log.1 + 1 || r.1 == log.1 == |r.0| - 1
  {
    (log.0[log.1 := c], if log.1 + 1 >= |log.0| then |log.0| - 1 else log.1 + 1)
  }

  class Receiver {
    const rxDataTmp: array<byte>
    var rxDataTmpWRIter: nat
    var rxDataTmpRDIter: nat
    var rxDataUsed: word
    var rxDataUsedMax: word
    const rxData: array<byte>
    var rxDataIter: nat
    var size: byte
    var statusReceived: Status
    var rxReady: bool
    var rxDataError: word
    const errorData: array<byte>
    var errorDataIndex: nat
    const sizeData: array<byte>
    var sizeDataIndex: nat
    // What serialProcessEvent has been handed so far.
    var processed: seq<seq<byte>>

    ghost function RingState(): Ring
      reads this, rxDataTmp
    {
      Ring(rxDataTmp[..], rxDataTmpWRIter, rxDataTmpRDIter, rxDataUsed)
    }

    ghost function ParserState(): Parser
      reads this, rxData
    {
      Parser(statusReceived, size, rxData[..], rxDataIter, rxReady, rxDataError)
    }

    ghost predicate Valid()
      reads this, rxDataTmp, rxData, errorData, sizeData
    {
      && rxDataTmp != rxData && rxDataTmp != errorData && rxDataTmp != sizeData
      && rxData != errorData && rxData != sizeData && errorData != sizeData
      && RingInBounds(RingState()) && ParserOk(ParserState())
      && errorData.Length == 20 && errorDataIndex < 20 && sizeData.Length == 10 && sizeDataIndex < 10
    }

    constructor ()
      ensures Valid() && fresh(rxDataTmp) && fresh(rxData) && fresh(errorData) && fresh(sizeData)
      ensures Holds(RingState(), []) && statusReceived == Header1 && !rxReady && rxDataError == 0 && processed == []
    {
      rxDataTmp := new byte[RING_LEN](_ => 0);
      rxData := new byte[RX_BUFFER_SIZE](_ => 0);
      errorData := new byte[20](_ => 0);
      sizeData := new byte[10](_ => 0);
      rxDataTmpWRIter, rxDataTmpRDIter, rxDataUsed, rxDataUsedMax := 0, 0, 0, 0;
      rxDataIter, size, statusReceived, rxReady := 0, 0, Header1, false;
      rxDataError, errorDataIndex, sizeDataIndex, processed := 0, 0, 0, [];
    }

    method Usart0RXIsr(b: byte)
      requires Valid()
      modifies this`rxDataTmpWRIter, this`rxDataUsed, this`rxDataUsedMax, rxDataTmp
      ensures Valid() && RingState() == Isr(old(RingState()), b) && ParserState() == old(ParserState())
      ensures rxDataUsedMax == if rxDataUsed > old(rxDataUsedMax) then rxDataUsed else old(rxDataUsedMax)
    {
      rxDataTmp[rxDataTmpWRIter] := b;
      assert rxDataTmp[..] == old(rxDataTmp[..])[rxDataTmpWRIter := b];
      rxDataTmpWRIter := rxDataTmpWRIter + 1;
      rxDataUsed := (rxDataUsed + 1) % 0x1_0000;
      if rxDataUsed > rxDataUsedMax {
        rxDataUsedMax := rxDataUsed;
      }
      if rxDataTmpWRIter >= RING_LEN {
        rxDataTmpWRIter := 0;
      }
    }

    method AddErrorData(c: byte)
      requires Valid()
      modifies this`rxDataError, this`errorDataIndex, errorData
      ensures Valid() && RingState() == old(RingState()) && ParserState() == CountError(old(ParserState()))
      ensures (errorData[..], errorDataIndex) == Log(old((errorData[..], errorDataIndex)), c)
    {
      rxDataError := (rxDataError + 1) % 0x1_0000;
      errorData[errorDataIndex] := c;
      assert errorData[..] == old(errorData[..])[errorDataIndex := c];
      errorDataIndex := errorDataIndex + 1;
      if errorDataIndex >= 20 {
        errorDataIndex := 19;
      }
    }

    method AddSizeData()
      requires Valid()
      modifies this`sizeDataIndex, sizeData
      ensures Valid() && RingState() == old(RingState()) && ParserState() == old(ParserState())
      ensures (sizeData[..], sizeDataIndex) == Log(old((sizeData[..], sizeDataIndex)), size)
    {
      sizeData[sizeDataIndex] := size;
      assert sizeData[..] == old(sizeData[..])[sizeDataIndex := size];
      sizeDataIndex := sizeDataIndex + 1;
      if sizeDataIndex >= 10 {
        sizeDataIndex := 9;
      }
    }

    // The body of the loop's switch.
    method Accept(c: byte)
      requires Valid()
      modifies this`statusReceived, this`size, this`rxDataIter, this`rxReady, this`rxDataError,
               this`errorDataIndex, this`sizeDataIndex, rxData, errorData, sizeData
      ensures Valid() && RingState() == old(RingState()) && ParserState() == ParseByte(old(ParserState()), c)
      ensures (sizeData[..], sizeDataIndex) ==
                if old(statusReceived).Size? then Log(old((sizeData[..], sizeDataIndex)), c)
                else old((sizeData[..], sizeDataIndex))
      ensures (errorData[..], errorDataIndex) ==
                if ParserState().errors != old(ParserState()).errors then Log(old((errorData[..], errorDataIndex)), c)
                else old((errorData[..], errorDataIndex))
    {
      match statusReceived
      case Header1 =>
        if c == HEADER1 { statusReceived := Header2; } else { AddErrorData(c); }
      case Header2 =>
        if c == HEADER2 { statusReceived := Header3; } else { AddErrorData(c); }
      case Header3 =>
        if c == HEADER3 { statusReceived := Size; } else { AddErrorData(c); }
      case Size =>
        size := c;
        AddSizeData();
        if size < RX_BUFFER_SIZE {
          statusReceived := Payload;
          rxData[0] := size;
          assert rxData[..] == old(rxData[..])[0 := c];
          rxDataIter := 1;
        } else {
          statusReceived := Header1;
        }
      case Payload =>
        if size > 0 {
          rxData[rxDataIter] := c;
          assert rxData[..] == old(rxData[..])[rxDataIter := c];
          rxDataIter := rxDataIter + 1;
          size := size - 1;
        }
        if size == 0 {
          statusReceived := Header1;
          rxReady := true;
        }
    }

    // One turn of the loop on a ring that does not look empty.
    method Turn()
      requires Valid() && !LooksEmpty(RingState())
      modifies this`rxDataTmpRDIter, this`rxDataUsed, this`statusReceived, this`size, this`rxDataIter, this`rxReady,
               this`rxDataError, this`errorDataIndex, this`sizeDataIndex, rxData, errorData, sizeData
      ensures Valid() && RingState() == Take(old(RingState())).1
      ensures ParserState() == ParseByte(old(ParserState()), Take(old(RingState())).0)
    {
      var c := rxDataTmp[rxDataTmpRDIter];
      rxDataTmpRDIter := rxDataTmpRDIter + 1;
      if rxDataTmpRDIter >= RING_LEN {
        rxDataTmpRDIter := 0;
      }
      rxDataUsed := (rxDataUsed - 1) % 0x1_0000;
      Accept(c);
    }

    // Bytes that arrive between two turns of the loop.
    method Arrive(bytes: seq<byte>, ghost q: seq<byte>)
      requires Valid() && Holds(RingState(), q) && |q| + |bytes| < RING_LEN
      modifies this`rxDataTmpWRIter, this`rxDataUsed, this`rxDataUsedMax, rxDataTmp
      ensures Valid() && Holds(RingState(), q + bytes) && ParserState() == old(ParserState())
    {
      assert q + bytes[..0] == q;
      for i := 0 to |bytes|
        invariant Valid() && Holds(RingState(), q + bytes[..i]) && ParserState() == old(ParserState())
      {
        IsrHolds(RingState(), q + bytes[..i], bytes[i]);
        assert q + bytes[..i] + [bytes[i]] == q + bytes[..i + 1];
        Usart0RXIsr(bytes[i]);
      }
      assert bytes[..|bytes|] == bytes;
    }

    // The end of a call: a completed frame is handed over.
    method HandOver()
      requires Valid()
      modifies this`processed, this`rxReady
      ensures Valid() && RingState() == old(RingState()) && ParserState() == old(ParserState()).(ready := false)
      ensures processed == old(processed) + if old(rxReady) then [rxData[..]] else []
    {
      if rxReady {
        processed := processed + [rxData[..]];
        rxReady := false;
      }
    }

    // The next arrivals, if any are left.
    method ArriveNext(arrivals: seq<seq<byte>>, n: nat, ghost p0: Parser, ghost q: seq<byte>, ghost rest: seq<byte>)
      returns (n': nat, ghost rest': seq<byte>)
      requires Valid() && Holds(RingState(), rest) && ParserOk(p0) && n <= |arrivals|
      requires NoOverflow(|rest|, arrivals[n..]) && ReadSoFar(p0, ParserState(), q, arrivals, n, rest)
      modifies this`rxDataTmpWRIter, this`rxDataUsed, this`rxDataUsedMax, rxDataTmp
      ensures Valid() && Holds(RingState(), rest') && ParserState() == old(ParserState())
      ensures if n < |arrivals| then n' == n + 1 else n' == n && rest' == rest
      ensures rest' != [] ==> NoOverflow(|rest'| - 1, arrivals[n'..])
      ensures ReadSoFar(p0, ParserState(), q, arrivals, n', rest')
    {
      n', rest' := n, rest;
      if n < |arrivals| {
        Arrive(arrivals[n], rest);
        n', rest' := n + 1, rest + arrivals[n];
        ReadOn(p0, ParserState(), q, arrivals, n, rest);
        assert arrivals[n..][0] == arrivals[n] && arrivals[n..][1..] == arrivals[n + 1..];
      }
    }

    // One call, with bytes arriving before each test of the loop's condition while at most 23
    // are unread: it reads what was in the ring and what arrived, in order, until the ring is
    // empty, and hands over at most one frame.
    method SerialReceiveLoop(arrivals: seq<seq<byte>>, ghost q: seq<byte>) returns (n: nat)
      requires Valid() && Holds(RingState(), q) && NoOverflow(|q|, arrivals)
      modifies this, rxDataTmp, rxData, errorData, sizeData
      ensures Valid() && Holds(RingState(), []) && n <= |arrivals|
      ensures var (p, events) := Call(old(ParserState()), q + Concat(arrivals[..n]));
              ParserState() == p && processed == old(processed) + events
    {
      ghost var p0, rest := ParserState(), q;
      assert q + Concat(arrivals[..0]) == q && arrivals[0..] == arrivals;
      n, rest := ArriveNext(arrivals, 0, p0, q, rest);
      while rxDataTmpRDIter != rxDataTmpWRIter
        invariant Valid() && Holds(RingState(), rest) && processed == old(processed) && n <= |arrivals|
        invariant rest != [] ==> NoOverflow(|rest| - 1, arrivals[n..])
        invariant ReadSoFar(p0, ParserState(), q, arrivals, n, rest)
        decreases |arrivals| - n, |rest|
      {
        TakeHolds(RingState(), rest);
        Turn();
        n, rest := ArriveNext(arrivals, n, p0, q, rest[1..]);
      }
      TakeHolds(RingState(), rest);
      HandOver();
    }
  }

  // What is still in the ring completes what was there and has arrived.
  ghost predicate ReadSoFar(p0: Parser, p: Parser, q: seq<byte>, arrivals: seq<seq<byte>>, n: nat, rest: seq<byte>)
    requires ParserOk(p0) && ParserOk(p) && n <= |arrivals|
  {
    ParseAll(p, rest) == ParseAll(p0, q + Concat(arrivals[..n]))
  }

  lemma ReadOn(p0: Parser, p: Parser, q: seq<byte>, arrivals: seq<seq<byte>>, n: nat, rest: seq<byte>)
    requires ParserOk(p0) && ParserOk(p) && n < |arrivals| && ReadSoFar(p0, p, q, arrivals, n, rest)
    ensures ReadSoFar(p0, p, q, arrivals, n + 1, rest + arrivals[n])
  {
    ParseConcat(p, rest, arrivals[n]);
    ParseConcat(p0, q + Concat(arrivals[..n]), arrivals[n]);
    ConcatNext(arrivals, n);
    Assoc(q, Concat(arrivals[..n]), arrivals[n]);
  }

  // With n bytes unread and these arrivals, each followed by a turn, at most 23 are ever unread.
  predicate NoOverflow(n: nat, arrivals: seq<seq<byte>>)
    decreases |arrivals|
  {
    arrivals == []
    || (n + |arrivals[0]| < RING_LEN
        && (n + |arrivals[0]| > 0 ==> NoOverflow(n + |arrivals[0]| - 1, arrivals[1..])))
  }

  lemma {:induction false} ConcatNext(chunks: seq<seq<byte>>, n: nat)
    requires n < |chunks|
    ensures Concat(chunks[..n + 1]) == Concat(chunks[..n]) + chunks[n]
  {
    if n == 0 {
      assert chunks[..1][1..] == [] && chunks[..0] == [];
    } else {
      ConcatNext(chunks[1..], n - 1);
      assert chunks[..n + 1][1..] == chunks[1..][..n] && chunks[..n][1..] == chunks[1..][..n - 1];
      Assoc(chunks[0], Concat(chunks[1..][..n - 1]), chunks[n]);
    }
  }
}
