/**
  Batching of beacon notifications: beacons are packed into a buffer as fixed-size records behind
  a count byte; a packet goes out when no further record fits, and at the end of the discovery.
 */
module BeaconBatch {
  import opened Words

  const REC := 21

  datatype BeaconRec = Beacon(sourceAddr: word, panID: word, logicalChannel: byte, permitJoining: byte,
                           routerCapacity: byte, deviceCapacity: byte, protocolVersion: byte, stackProfile: byte,
                           lqi: byte, depth: byte, updateID: byte, extendedPanID: seq<byte>)

  type Beacon = b: BeaconRec | |b.extendedPanID| == 8
    witness Beacon(0, 0, 0, 0, 0, 0, 0, 0, 0, 0, 0, [0, 0, 0, 0, 0, 0, 0, 0])

  // ---------- Records and packets ----------

  function Bytes(b: Beacon): (r: seq<byte>)
    ensures |r| == REC
  {
    [Lo(b.sourceAddr), Hi(b.sourceAddr), Lo(b.panID), Hi(b.panID), b.logicalChannel, b.permitJoining,
     b.routerCapacity, b.deviceCapacity, b.protocolVersion, b.stackProfile, b.lqi, b.depth, b.updateID]
    + b.extendedPanID
  }

  // What the host reads from a record.
  function Decode(r: seq<byte>): Beacon
    requires |r| == REC
  {
    Beacon(BuildWord(r[0], r[1]), BuildWord(r[2], r[3]), r[4], r[5], r[6], r[7], r[8], r[9], r[10], r[11], r[12],
           r[13..])
  }

  lemma DecodeOfBytes(b: Beacon)
    ensures Decode(Bytes(b)) == b
  {
    BuildOfSplit(b.sourceAddr);
    BuildOfSplit(b.panID);
    assert Bytes(b)[13..] == b.extendedPanID;
  }

  function Records(bs: seq<Beacon>): (r: seq<byte>)
    ensures |r| == |bs| * REC
  {
    if bs == [] then [] else Bytes(bs[0]) + Records(bs[1..])
  }

  function Packet(bs: seq<Beacon>): seq<byte>
    requires |bs| <= 0xFF
  {
    [|bs|] + Records(bs)
  }

  function DecodeRecords(r: seq<byte>): seq<Beacon>
    requires |r| % REC == 0
    decreases |r|
  {
    if r == [] then [] else [Decode(r[..REC])] + DecodeRecords(r[REC..])
  }

  lemma {:induction false} DecodeOfRecords(bs: seq<Beacon>)
    ensures DecodeRecords(Records(bs)) == bs
  {
    if bs != [] {
      var r := Records(bs);
      assert r[..REC] == Bytes(bs[0]) && r[REC..] == Records(bs[1..]);
      DecodeOfBytes(bs[0]);
      DecodeOfRecords(bs[1..]);
    }
  }

  lemma {:induction false} RecordsNext(bs: seq<Beacon>, b: Beacon)
    ensures Records(bs + [b]) == Records(bs) + Bytes(b)
  {
    if bs == [] {
      assert bs + [b] == [b] && [b][1..] == [];
    } else {
      assert (bs + [b])[1..] == bs[1..] + [b];
      RecordsNext(bs[1..], b);
    }
  }

  // A packet whose count byte equals its number of records and that fits the pack length.
  ghost predicate Sound(p: seq<byte>, packLen: nat) {
    p != [] && |p| == 1 + p[0] * REC <= packLen && 0 < p[0]
  }

  function Read(p: seq<byte>): seq<Beacon> {
    if p == [] || (|p| - 1) % REC != 0 then [] else DecodeRecords(p[1..])
  }

  function ReadAll(ps: seq<seq<byte>>): seq<Beacon> {
    if ps == [] then [] else Read(ps[0]) + ReadAll(ps[1..])
  }

  lemma {:induction false} ReadAllNext(ps: seq<seq<byte>>, p: seq<byte>)
    ensures ReadAll(ps + [p]) == ReadAll(ps) + Read(p)
  {
    if ps == [] {
      assert ps + [p] == [p] && [p][1..] == [];
    } else {
      assert (ps + [p])[1..] == ps[1..] + [p];
      ReadAllNext(ps[1..], p);
    }
  }

  // ---------- Batching ----------

  // The beacons in the buffer, if it is allocated, and the packets sent.
  datatype State = State(pending: Option<seq<Beacon>>, sent: seq<seq<byte>>)

  predicate NoRoom(n: nat, packLen: nat) { (n + 1) * REC + 1 > packLen }

  // What the buffer holds between calls: room for one more record.
  ghost predicate Ok(s: State, packLen: nat) {
    REC + 1 <= packLen <= 0xFF && (s.pending.Some? ==> !NoRoom(|s.pending.value|, packLen))
  }

  // MT_ZdoBeaconIndCB with a beacon; memory says whether the buffer can be allocated.
  function Notify(s: State, b: Beacon, memory: bool, packLen: nat): (r: State)
    requires Ok(s, packLen)
    ensures Ok(r, packLen)
  {
    if s.pending.None? && !memory then s
    else
      var bs := (if s.pending.Some? then s.pending.value else []) + [b];
      if NoRoom(|bs|, packLen) then State(Some([]), s.sent + [Packet(bs)]) else State(Some(bs), s.sent)
  }

  // MT_ZdoBeaconIndCB with NULL, as the discovery confirm calls it.
  function Finish(s: State, packLen: nat): (r: State)
    requires Ok(s, packLen)
    ensures Ok(r, packLen)
  {
    if s.pending.Some? && s.pending.value != [] then State(None, s.sent + [Packet(s.pending.value)])
    else State(None, s.sent)
  }

  datatype Event = Reported(b: Beacon, memory: bool) | Confirm

  function Run(s: State, events: seq<Event>, packLen: nat): (r: State)
    requires Ok(s, packLen)
    ensures Ok(r, packLen)
    decreases |events|
  {
    if events == [] then s
    else Run(Step(s, events[0], packLen), events[1..], packLen)
  }

  function Carried(e: Event): seq<Beacon> { if e.Reported? then [e.b] else [] }

  // The beacons reported in a run, in order.
  function Beacons(events: seq<Event>): seq<Beacon> {
    if events == [] then [] else Carried(events[0]) + Beacons(events[1..])
  }

  // Whether the buffer exists after an event, and the beacons that found it or could have it
  // allocated when they were reported.
  predicate Buffered(buffer: bool, e: Event) { e.Reported? && (buffer || e.memory) }

  function Heard(buffer: bool, events: seq<Event>): seq<Beacon>
    decreases |events|
  {
    if events == [] then []
    else
      (if Buffered(buffer, events[0]) then Carried(events[0]) else [])
      + Heard(Buffered(buffer, events[0]), events[1..])
  }

  // No beacon is reported while there is neither a buffer nor memory for one.
  predicate NeverShort(buffer: bool, events: seq<Event>)
    decreases |events|
  {
    events == []
    || ((events[0].Reported? ==> Buffered(buffer, events[0])) && NeverShort(Buffered(buffer, events[0]), events[1..]))
  }

  lemma {:induction false} HeardAll(buffer: bool, events: seq<Event>)
    ensures |Heard(buffer, events)| <= |Beacons(events)|
    ensures Heard(buffer, events) == Beacons(events) <==> NeverShort(buffer, events)
    decreases |events|
  {
    if events != [] {
      var e, next := events[0], Buffered(buffer, events[0]);
      HeardAll(next, events[1..]);
      var h, b := Heard(next, events[1..]), Beacons(events[1..]);
      if next {
        assert (Carried(e) + h)[1..] == h && (Carried(e) + b)[1..] == b;
      } else {
        assert [] + h == h && (e.Confirm? ==> [] + b == b);
      }
    }
  }

  // Everything read from the packets, then what waits in the buffer.
  function Seen(s: State): seq<Beacon> {
    ReadAll(s.sent) + if s.pending.Some? then s.pending.value else []
  }

  ghost predicate AllSound(ps: seq<seq<byte>>, packLen: nat) {
    forall i :: 0 <= i < |ps| ==> Sound(ps[i], packLen)
  }

  lemma PacketSound(bs: seq<Beacon>, packLen: nat)
    requires 0 < |bs| && 1 + |bs| * REC <= packLen <= 0xFF
    ensures Sound(Packet(bs), packLen) && Read(Packet(bs)) == bs
  {
    DecodeOfRecords(bs);
    assert Packet(bs)[1..] == Records(bs);
  }

  // A reported beacon is the next one seen, unless the buffer is missing and cannot be
  // allocated: then it is lost.
  lemma NotifySees(s: State, b: Beacon, memory: bool, packLen: nat)
    requires Ok(s, packLen) && AllSound(s.sent, packLen)
    ensures var r := Notify(s, b, memory, packLen);
            && AllSound(r.sent, packLen)
            && Seen(r) == Seen(s) + (if s.pending.None? && !memory then [] else [b])
  {
    if s.pending.Some? || memory {
      var waiting := if s.pending.Some? then s.pending.value else [];
      Assoc(ReadAll(s.sent), waiting, [b]);
      if NoRoom(|waiting + [b]|, packLen) {
        PacketSound(waiting + [b], packLen);
        ReadAllNext(s.sent, Packet(waiting + [b]));
      }
    }
  }

  lemma FinishSees(s: State, packLen: nat)
    requires Ok(s, packLen) && AllSound(s.sent, packLen)
    ensures var r := Finish(s, packLen);
            AllSound(r.sent, packLen) && Seen(r) == Seen(s) && r.pending.None?
  {
    if s.pending.Some? && s.pending.value != [] {
      PacketSound(s.pending.value, packLen);
      ReadAllNext(s.sent, Packet(s.pending.value));
    }
  }

  function Step(s: State, e: Event, packLen: nat): (r: State)
    requires Ok(s, packLen)
    ensures Ok(r, packLen)
  {
    match e case Reported(b, memory) => Notify(s, b, memory, packLen) case Confirm => Finish(s, packLen)
  }

  lemma StepSees(s: State, e: Event, packLen: nat)
    requires Ok(s, packLen) && AllSound(s.sent, packLen)
    ensures var r, kept := Step(s, e, packLen), Buffered(s.pending.Some?, e);
            AllSound(r.sent, packLen) && (r.pending.Some? <==> kept)
            && Seen(r) == Seen(s) + (if kept then Carried(e) else [])
  {
    if e.Reported? {
      NotifySees(s, e.b, e.memory, packLen);
    } else {
      FinishSees(s, packLen);
    }
  }

  lemma Assoc(a: seq<Beacon>, b: seq<Beacon>, c: seq<Beacon>)
    ensures a + b + c == a + (b + c)
  {
  }

  lemma {:induction false} RunSees(s: State, events: seq<Event>, packLen: nat)
    requires Ok(s, packLen) && AllSound(s.sent, packLen)
    ensures AllSound(Run(s, events, packLen).sent, packLen)
    ensures Seen(Run(s, events, packLen)) == Seen(s) + Heard(s.pending.Some?, events)
    decreases |events|
  {
    if events == [] {
      assert Seen(s) + [] == Seen(s);
    } else {
      StepSees(s, events[0], packLen);
      var t, kept := Step(s, events[0], packLen), Buffered(s.pending.Some?, events[0]);
      RunSees(t, events[1..], packLen);
      Assoc(Seen(s), if kept then Carried(events[0]) else [], Heard(kept, events[1..]));
    }
  }

  // Over any run ended by a confirm, the packets sent are sound and hold, exactly once and in
  // the order of arrival, the beacons that found the buffer or memory for it; these are all the
  // beacons reported exactly when none came while both were missing.
  lemma EveryBeaconOnce(events: seq<Event>, packLen: nat)
    requires REC + 1 <= packLen <= 0xFF
    ensures var r := Run(State(None, []), events + [Confirm], packLen);
            && AllSound(r.sent, packLen) && r.pending.None?
            && ReadAll(r.sent) == Heard(false, events)
            && (ReadAll(r.sent) == Beacons(events) <==> NeverShort(false, events))
  {
    var s := State(None, []);
    RunConcat(s, events, packLen);
    RunSees(s, events, packLen);
    FinishSees(Run(s, events, packLen), packLen);
    assert Seen(s) + Heard(false, events) == Heard(false, events);
    var r := Finish(Run(s, events, packLen), packLen);
    assert Seen(r) == ReadAll(r.sent);
    HeardAll(false, events);
  }

  lemma {:induction false} RunConcat(s: State, events: seq<Event>, packLen: nat)
    requires Ok(s, packLen)
    ensures Run(s, events + [Confirm], packLen) == Finish(Run(s, events, packLen), packLen)
    decreases |events|
  {
    if events == [] {
      assert events + [Confirm] == [Confirm] && [Confirm][1..] == [];
    } else {
      assert (events + [Confirm])[1..] == events[1..] + [Confirm];
      RunConcat(Step(s, events[0], packLen), events[1..], packLen);
    }
  }

  // ---------- How the packets are filled and laid out ----------

  // As many records as fit behind the count byte.
  ghost predicate Full(p: seq<byte>, packLen: nat) {
    p != [] && |p| == 1 + 21 * (p[0] as int) && |p| <= packLen < |p| + 21
  }

  ghost predicate AllFull(ps: seq<seq<byte>>, packLen: nat) {
    forall i :: 0 <= i < |ps| ==> Full(ps[i], packLen)
  }

  ghost predicate AllReported(events: seq<Event>) {
    forall i :: 0 <= i < |events| ==> events[i].Reported?
  }

  lemma NotifyFull(s: State, b: Beacon, memory: bool, packLen: nat)
    requires Ok(s, packLen) && AllFull(s.sent, packLen)
    ensures AllFull(Notify(s, b, memory, packLen).sent, packLen)
  {
    var t := Notify(s, b, memory, packLen);
    var bs := (if s.pending.Some? then s.pending.value else []) + [b];
    if t.sent != s.sent {
      assert t.sent[|s.sent|] == Packet(bs) && Packet(bs)[0] == |bs|;
    }
  }

  // Until the confirm, every packet sent is full.
  lemma {:induction false} RunFull(s: State, events: seq<Event>, packLen: nat)
    requires Ok(s, packLen) && AllReported(events) && AllFull(s.sent, packLen)
    ensures AllFull(Run(s, events, packLen).sent, packLen)
    decreases |events|
  {
    if events != [] {
      NotifyFull(s, events[0].b, events[0].memory, packLen);
      RunFull(Step(s, events[0], packLen), events[1..], packLen);
    }
  }

  // Over a discovery, all packets but the last are full, and none is empty.
  lemma AllButLastFull(events: seq<Event>, packLen: nat)
    requires REC + 1 <= packLen <= 0xFF && AllReported(events)
    ensures var r := Run(State(None, []), events + [Confirm], packLen);
            && (forall i :: 0 <= i < |r.sent| - 1 ==> Full(r.sent[i], packLen))
            && (forall i :: 0 <= i < |r.sent| ==>
                  r.sent[i] != [] && 0 < r.sent[i][0] && 21 * r.sent[i][0] + 1 <= packLen)
  {
    var s := State(None, []);
    RunConcat(s, events, packLen);
    RunFull(s, events, packLen);
    EveryBeaconOnce(events, packLen);
    var r := Run(s, events + [Confirm], packLen);
    forall i | 0 <= i < |r.sent| ensures r.sent[i] != [] && 0 < r.sent[i][0] && 21 * r.sent[i][0] + 1 <= packLen {
      assert Sound(r.sent[i], packLen);
    }
  }

  // The fields of a record that lies at a place in a packet.
  ghost predicate RecordAt(p: seq<byte>, at: nat, b: Beacon) {
    && at + 21 <= |p|
    && BuildWord(p[at], p[at + 1]) == b.sourceAddr && BuildWord(p[at + 2], p[at + 3]) == b.panID
    && p[at + 4] == b.logicalChannel && p[at + 5] == b.permitJoining && p[at + 6] == b.routerCapacity
    && p[at + 7] == b.deviceCapacity && p[at + 8] == b.protocolVersion && p[at + 9] == b.stackProfile
    && p[at + 10] == b.lqi && p[at + 11] == b.depth && p[at + 12] == b.updateID
    && p[at + 13..at + 21] == b.extendedPanID
  }

  // Record i of a packet lies behind the count byte and i records, its fields in this order.
  lemma PacketLayout(bs: seq<Beacon>, i: nat)
    requires |bs| <= 0xFF && i < |bs|
    ensures Packet(bs)[0] == |bs| && RecordAt(Packet(bs), 1 + 21 * i, bs[i])
  {
    RecordsAt(bs, i);
    var p, at, b := Packet(bs), 1 + 21 * i, bs[i];
    assert p[1..] == Records(bs);
    var r := p[at..at + 21];
    assert r == p[1..][21 * i..21 * i + 21] == Bytes(b);
    BuildOfSplit(b.sourceAddr);
    BuildOfSplit(b.panID);
    assert r[0] == p[at] && r[1] == p[at + 1] && r[2] == p[at + 2] && r[3] == p[at + 3];
    assert r[4] == p[at + 4] && r[5] == p[at + 5] && r[6] == p[at + 6] && r[7] == p[at + 7];
    assert r[8] == p[at + 8] && r[9] == p[at + 9] && r[10] == p[at + 10] && r[11] == p[at + 11];
    assert r[12] == p[at + 12] && r[13..] == p[at + 13..at + 21];
    assert Bytes(b)[13..] == b.extendedPanID;
  }

  lemma {:induction false} RecordsAt(bs: seq<Beacon>, i: nat)
    requires i < |bs|
    ensures 21 * i + 21 <= |Records(bs)| && Records(bs)[21 * i..21 * i + 21] == Bytes(bs[i])
  {
    var first, tail := Bytes(bs[0]), Records(bs[1..]);
    assert Records(bs) == first + tail;
    if i > 0 {
      RecordsAt(bs[1..], i - 1);
      assert Records(bs)[21 * i..21 * i + 21] == tail[21 * (i - 1)..21 * (i - 1) + 21];
    }
  }

  // ---------- The buffer as it is filled ----------

  class Batcher {
    const packLen: nat
    var pBeaconIndBuf: array?<byte>
    var sent: seq<seq<byte>>
    ghost var beacons: seq<Beacon>

    ghost function Abstract(): State
      reads this
    {
      State(if pBeaconIndBuf == null then None else Some(beacons), sent)
    }

    ghost predicate Valid()
      reads this, pBeaconIndBuf
    {
      && Ok(Abstract(), packLen)
      && (pBeaconIndBuf != null ==>
            && pBeaconIndBuf.Length == packLen && |beacons| <= 0xFF
            && pBeaconIndBuf[..1 + |beacons| * REC] == Packet(beacons))
    }

    constructor (packLen: nat)
      requires REC + 1 <= packLen <= 0xFF
      ensures Valid() && Abstract() == State(None, []) && this.packLen == packLen
    {
      this.packLen := packLen;
      pBeaconIndBuf, sent, beacons := null, [], [];
    }

    method SendPacket()
      requires pBeaconIndBuf != null && 0 < pBeaconIndBuf.Length && 1 + pBeaconIndBuf[0] * REC <= pBeaconIndBuf.Length
      modifies this`sent
      ensures sent == old(sent) + [pBeaconIndBuf[..1 + pBeaconIndBuf[0] * REC]]
    {
      sent := sent + [pBeaconIndBuf[..1 + pBeaconIndBuf[0] * REC]];
    }

    method StoreRecord(buf: array<byte>, at: nat, bytes: seq<byte>)
      requires at + |bytes| <= buf.Length
      modifies buf
      ensures buf[..at] == old(buf[..at]) && buf[at..at + |bytes|] == bytes
    {
      for i := 0 to |bytes|
        invariant buf[..at] == old(buf[..at]) && buf[at..at + i] == bytes[..i]
      {
        buf[at + i] := bytes[i];
        assert buf[at..at + i + 1] == buf[at..at + i] + [bytes[i]];
        assert bytes[..i + 1] == bytes[..i] + [bytes[i]];
      }
      assert bytes[..|bytes|] == bytes;
    }

    // The record behind those already in the buffer, and the new count.
    method Append(buf: array<byte>, b: Beacon)
      requires Valid() && buf == pBeaconIndBuf
      modifies this`beacons, buf
      ensures beacons == old(beacons) + [b] && |beacons| <= 0xFF && 1 + |beacons| * REC <= packLen
      ensures buf[..1 + |beacons| * REC] == Packet(beacons)
    {
      ghost var bs := beacons;
      assert buf[0] == buf[..1 + |bs| * REC][0] == |bs|;
      var at := 1 + buf[0] * REC;
      StoreRecord(buf, at, Bytes(b));
      ghost var packed := buf[..at + REC];
      assert packed == Packet(bs) + Bytes(b);
      buf[0] := buf[0] + 1;
      beacons := beacons + [b];
      RecordsNext(bs, b);
      assert buf[..at + REC] == packed[0 := buf[0]];
    }

    method Notified(b: Beacon, memory: bool)
      requires Valid()
      modifies this, pBeaconIndBuf
      ensures Valid() && Abstract() == Notify(old(Abstract()), b, memory, packLen)
      ensures pBeaconIndBuf == old(pBeaconIndBuf) || fresh(pBeaconIndBuf)
    {
      if pBeaconIndBuf == null {
        if !memory {
          return;
        }
        pBeaconIndBuf := new byte[packLen](_ => 0);
        pBeaconIndBuf[0] := 0;
        beacons := [];
        assert pBeaconIndBuf[..1 + 0 * REC] == Packet([]);
      }
      var buf := pBeaconIndBuf;
      Append(buf, b);
      assert buf[0] == buf[..1 + |beacons| * REC][0] == |beacons|;
      if (buf[0] + 1) * REC + 1 > packLen {
        SendPacket();
        buf[0] := 0;
        beacons := [];
        assert buf[..1 + 0 * REC] == Packet([]);
      }
    }

    method Finished()
      requires Valid()
      modifies this
      ensures Valid() && Abstract() == Finish(old(Abstract()), packLen)
    {
      if pBeaconIndBuf != null {
        assert pBeaconIndBuf[0] == pBeaconIndBuf[..1 + |beacons| * REC][0] == |beacons|;
        if pBeaconIndBuf[0] != 0 {
          SendPacket();
        }
        pBeaconIndBuf := null;
      }
    }
  }
}
