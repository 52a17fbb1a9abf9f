/**
  The inter-PAN frame codec: building a frame from a data request, claiming and checking a
  received frame, and parsing it back.

  NWK frame control (16 bits, low byte first): frame type in bits 0-1, protocol version in bits
  2-5, route discovery in bits 6-7, then one bit each for multicast, security, source route,
  destination and source extended address; bits 13-15 reserved. APS frame control (8 bits):
  frame type in bits 0-1, delivery mode in bits 2-3, then ack format, security, ack request and
  extended header (sections 3.3.1.1 and 2.2.5.1.1 of the ZigBee Specification 053474).
 */
module InterPan {
  import opened Words

  const STUB_NWK_FRAME_TYPE := 3
  const STUB_APS_FRAME := 3
  const DM_UNICAST: byte := 0
  const DM_INDIRECT: byte := 1
  const DM_BROADCAST: byte := 2
  const DM_GROUP: byte := 3
  const STUBAPS_INTER_PAN_EP: byte := 0xFE
  const NWK_BROADCAST_SHORTADDR_DEVALL: word := 0xFFFF
  const STUB_NWK_HDR_LEN := 2
  const MAC_A_MAX_PHY_PACKET_SIZE := 127
  const MAC_A_MAX_FRAME_OVERHEAD := 25
  const MAC_A_MAX_FRAME_SIZE := MAC_A_MAX_PHY_PACKET_SIZE - MAC_A_MAX_FRAME_OVERHEAD

  datatype Addr =
    | NotPresent
    | Group(id: word)
    | Short(shortAddr: word)
    | Extended(extAddr: seq<byte>)
    | Broadcast(shortAddr: word)

  datatype DataReq = DataReq(dstAddr: Addr, dstEP: byte, dstPanId: word, clusterID: word, profileID: word,
                             asdu: seq<byte>, txOptions: word, transID: byte)

  datatype Status = ZSuccess | ZFailure | ZApsNotSupported | ZMemError

  // The MAC request handed on: addressing, acknowledgement and the frame.
  datatype MacReq = MacReq(dstAddr: Addr, dstPANId: word, handle: byte, ack: bool, msdu: seq<byte>)

  // What the upper layer is told about a received frame.
  datatype Indication = Indication(mode: byte, wasBroadcast: bool, groupID: word, clusterID: word, profileID: word,
                                   asdu: seq<byte>)

  // ---------- Building ----------

  // Security, acknowledgement and fragmentation options.
  predicate Unsupported(txOptions: word) {
    txOptions % 2 == 1 || txOptions / 4 % 2 == 1 || txOptions / 8 % 2 == 1
  }

  function Mode(a: Addr): byte {
    match a case Group(_) => DM_GROUP case Broadcast(_) => DM_BROADCAST case _ => DM_UNICAST
  }

  function MacAddr(a: Addr): Addr {
    match a
    case Group(_) => Short(NWK_BROADCAST_SHORTADDR_DEVALL)
    case Broadcast(w) => Short(w)
    case _ => a
  }

  function ApsControl(mode: byte): byte
    requires mode < 4
  {
    STUB_APS_FRAME + 4 * mode
  }

  function NwkControl(protoVer: byte): word { STUB_NWK_FRAME_TYPE + 4 * protoVer }

  function HdrLen(mode: byte): nat { 1 + (if mode == DM_GROUP then 2 else 0) + 2 + 2 + STUB_NWK_HDR_LEN }

  function ApsHeader(req: DataReq): seq<byte> {
    [ApsControl(Mode(req.dstAddr))]
    + (match req.dstAddr case Group(id) => [Lo(id), Hi(id)] case _ => [])
    + [Lo(req.clusterID), Hi(req.clusterID), Lo(req.profileID), Hi(req.profileID)]
  }

  function FrameOf(req: DataReq, protoVer: byte): seq<byte> {
    [Lo(NwkControl(protoVer)), Hi(NwkControl(protoVer))] + ApsHeader(req) + req.asdu
  }

  // INTERP_DataReqMTU
  const MTU: byte := MAC_A_MAX_FRAME_SIZE - STUB_NWK_HDR_LEN - (1 + 2 + 2 + 2)

  // ---------- Receiving ----------

  function Fc(msdu: seq<byte>): word
    requires |msdu| >= 3
  {
    BuildWord(msdu[0], msdu[1])
  }

  function NwkType(fc: word): byte { fc % 4 }

  function ApsType(aps: byte): byte { aps % 4 }

  function ApsMode(aps: byte): byte { aps / 4 % 4 }

  // StubAPS_ZMacCallback: a frame is claimed by its two frame types.
  predicate Claimed(msdu: seq<byte>)
    requires |msdu| >= 3
  {
    NwkType(Fc(msdu)) == STUB_NWK_FRAME_TYPE && ApsType(msdu[2]) == STUB_APS_FRAME
  }

  // Every header field the parser reads is there. The code itself does not check this.
  predicate HeadersPresent(msdu: seq<byte>) {
    3 <= |msdu| <= 0xFF && HdrLen(ApsMode(msdu[2])) <= |msdu|
  }

  // The NWK frame control checks: type, version, and every other sub-field zero.
  predicate NwkAccepted(fc: word, protoVer: byte) {
    && NwkType(fc) == STUB_NWK_FRAME_TYPE && fc / 4 % 16 == protoVer
    && fc / 64 % 4 == 0 && fc / 256 % 2 == 0 && fc / 512 % 2 == 0 && fc / 1024 % 2 == 0
    && fc / 2048 % 2 == 0 && fc / 4096 % 2 == 0
  }

  // The APS frame control checks: type, delivery mode, no security, no extended header.
  predicate ApsAccepted(aps: byte) {
    ApsType(aps) == STUB_APS_FRAME && ApsMode(aps) != DM_INDIRECT && aps / 32 % 2 == 0 && aps / 128 % 2 == 0
  }

  // StubAPS_ParseMsg
  function Fields(msdu: seq<byte>): Indication
    requires HeadersPresent(msdu)
  {
    var mode := ApsMode(msdu[2]);
    var at := if mode == DM_GROUP then 5 else 3;
    Indication(mode, mode == DM_BROADCAST, if mode == DM_GROUP then BuildWord(msdu[3], msdu[4]) else 0,
               BuildWord(msdu[at], msdu[at + 1]), BuildWord(msdu[at + 2], msdu[at + 3]), msdu[at + 4..])
  }

  // INTERP_DataIndication: the checks, then the parsed fields.
  function Indicate(msdu: seq<byte>, protoVer: byte): Option<Indication>
    requires HeadersPresent(msdu)
  {
    if NwkAccepted(Fc(msdu), protoVer) && ApsAccepted(msdu[2]) then Some(Fields(msdu)) else None
  }

  // ---------- Round trips ----------

  function Sent(req: DataReq): Indication {
    Indication(Mode(req.dstAddr), req.dstAddr.Broadcast?, if req.dstAddr.Group? then req.dstAddr.id else 0,
               req.clusterID, req.profileID, req.asdu)
  }

  lemma FrameLength(req: DataReq, protoVer: byte)
    ensures |FrameOf(req, protoVer)| == HdrLen(Mode(req.dstAddr)) + |req.asdu|
  {
  }

  // The length the code computes for the frame, and allocates: it has eight bits.
  function MsduLength(req: DataReq): byte { (HdrLen(Mode(req.dstAddr)) + |req.asdu|) % 0x100 }

  // The buffer allocated holds the frame exactly when header and payload fit eight bits; from
  // there on every frame overruns it. Payloads within the MTU do fit.
  lemma AllocationHoldsExactly(req: DataReq, protoVer: byte)
    ensures |FrameOf(req, protoVer)| <= MsduLength(req) <==> HdrLen(Mode(req.dstAddr)) + |req.asdu| <= 0xFF
    ensures |req.asdu| <= MTU ==> |FrameOf(req, protoVer)| <= MsduLength(req)
  {
    FrameLength(req, protoVer);
  }

  lemma ControlBits(protoVer: byte, mode: byte)
    requires mode < 4
    ensures NwkType(NwkControl(protoVer)) == STUB_NWK_FRAME_TYPE
    ensures NwkAccepted(NwkControl(protoVer), protoVer) <==> protoVer < 16
    ensures ApsType(ApsControl(mode)) == STUB_APS_FRAME && ApsMode(ApsControl(mode)) == mode
    ensures ApsAccepted(ApsControl(mode)) <==> mode != DM_INDIRECT
  {
  }

  // Every frame built is claimed, and is indicated with the fields it was built from exactly
  // when the protocol version fits its four bits.
  lemma RoundTrip(req: DataReq, protoVer: byte)
    requires HdrLen(Mode(req.dstAddr)) + |req.asdu| <= 0xFF
    ensures var msdu := FrameOf(req, protoVer);
            && HeadersPresent(msdu) && Claimed(msdu)
            && (Indicate(msdu, protoVer) == if protoVer < 16 then Some(Sent(req)) else None)
  {
    var msdu, mode := FrameOf(req, protoVer), Mode(req.dstAddr);
    FrameLength(req, protoVer);
    BuildOfSplit(NwkControl(protoVer));
    ControlBits(protoVer, mode);
    assert Fc(msdu) == NwkControl(protoVer) && msdu[2] == ApsControl(mode);
    FieldsOfFrame(req, protoVer);
  }

  // Where each field lies in a frame: two control bytes, the APS control, the group id of a group
  // frame, then cluster and profile, low bytes first, and the payload.
  lemma FrameLayout(req: DataReq, protoVer: byte)
    ensures var f, at := FrameOf(req, protoVer), if req.dstAddr.Group? then 5 else 3;
            && |f| == at + 4 + |req.asdu|
            && BuildWord(f[0], f[1]) == 3 + 4 * protoVer
            && f[2] == 3 + 4 * (if req.dstAddr.Group? then 3 else if req.dstAddr.Broadcast? then 2 else 0)
            && (req.dstAddr.Group? ==> BuildWord(f[3], f[4]) == req.dstAddr.id)
            && BuildWord(f[at], f[at + 1]) == req.clusterID && BuildWord(f[at + 2], f[at + 3]) == req.profileID
            && f[at + 4..] == req.asdu
  {
    BuildOfSplit(NwkControl(protoVer));
    BuildOfSplit(req.clusterID);
    BuildOfSplit(req.profileID);
    if req.dstAddr.Group? {
      BuildOfSplit(req.dstAddr.id);
    }
  }

  // What a receiver of the same protocol version is told about a frame, field by field.
  lemma RoundTripFields(req: DataReq, protoVer: byte)
    requires HdrLen(Mode(req.dstAddr)) + |req.asdu| <= 0xFF && protoVer < 16
    ensures var msdu := FrameOf(req, protoVer);
            && HeadersPresent(msdu) && Indicate(msdu, protoVer).Some?
            && var ind := Indicate(msdu, protoVer).value;
               && ind.mode == (if req.dstAddr.Group? then 3 else if req.dstAddr.Broadcast? then 2 else 0)
               && (ind.wasBroadcast <==> req.dstAddr.Broadcast?)
               && ind.groupID == (if req.dstAddr.Group? then req.dstAddr.id else 0)
               && ind.clusterID == req.clusterID && ind.profileID == req.profileID && ind.asdu == req.asdu
  {
    RoundTrip(req, protoVer);
  }

  // Security, acknowledgement or fragmentation asked for: bits 0, 2 and 3 of the options.
  lemma UnsupportedBits(txOptions: word)
    ensures Unsupported(txOptions) <==> (txOptions as bv16) & 0x000D != 0
  {
    var o := txOptions as bv16;
    assert (o & 1 != 0) <==> txOptions % 2 == 1;
    assert (o & 4 != 0) <==> txOptions / 4 % 2 == 1;
    assert (o & 8 != 0) <==> txOptions / 8 % 2 == 1;
  }

  // A frame with its unchecked bits set: the NWK reserved bits, the APS ack format and ack request.
  function WithUnchecked(msdu: seq<byte>, reserved: nat, ackFormat: nat, ackRequest: nat): seq<byte>
    requires |msdu| >= 3 && reserved < 8 && ackFormat < 2 && ackRequest < 2
    requires msdu[1] + 32 * reserved < 0x100 && msdu[2] + 16 * ackFormat + 64 * ackRequest < 0x100
  {
    msdu[1 := msdu[1] + 32 * reserved][2 := msdu[2] + 16 * ackFormat + 64 * ackRequest]
  }

  // Those bits change nothing: the frame is claimed and indicated as before. So what is indicated
  // is exactly the frames that are built, with any of these bits set.
  lemma UncheckedBitsIgnored(req: DataReq, protoVer: byte, reserved: nat, ackFormat: nat, ackRequest: nat)
    requires HdrLen(Mode(req.dstAddr)) + |req.asdu| <= 0xFF && protoVer < 16
    requires reserved < 8 && ackFormat < 2 && ackRequest < 2
    ensures var f := FrameOf(req, protoVer);
            && |f| >= 3 && f[1] + 32 * reserved < 0x100 && f[2] + 16 * ackFormat + 64 * ackRequest < 0x100
            && var g := WithUnchecked(f, reserved, ackFormat, ackRequest);
               HeadersPresent(g) && Claimed(g) && Indicate(g, protoVer) == Some(Sent(req))
  {
    var f := FrameOf(req, protoVer);
    ControlBytes(req, protoVer);
    FrameLength(req, protoVer);
    ControlBits(protoVer, Mode(req.dstAddr));
    assert HeadersPresent(f) && ApsMode(f[2]) == Mode(req.dstAddr);
    FieldsOfFrame(req, protoVer);
    UncheckedNwk(protoVer, reserved);
    UncheckedAps(f[2], ackFormat, ackRequest);
    var g := WithUnchecked(f, reserved, ackFormat, ackRequest);
    assert g[3..] == f[3..];
    SameFields(f, g);
    IndicatedWhen(g, protoVer);
  }

  lemma ControlBytes(req: DataReq, protoVer: byte)
    requires protoVer < 16
    ensures var f := FrameOf(req, protoVer);
            |f| >= 3 && f[0] == 3 + 4 * protoVer && f[1] == 0 && (f[2] == 3 || f[2] == 11 || f[2] == 15)
  {
  }

  lemma IndicatedWhen(g: seq<byte>, protoVer: byte)
    requires HeadersPresent(g) && NwkAccepted(BuildWord(g[0], g[1]), protoVer) && ApsAccepted(g[2])
    ensures Claimed(g) && Indicate(g, protoVer) == Some(Fields(g))
  {
  }

  lemma SameFields(f: seq<byte>, g: seq<byte>)
    requires HeadersPresent(f) && |g| == |f| && g[3..] == f[3..] && ApsMode(g[2]) == ApsMode(f[2])
    ensures HeadersPresent(g) && Fields(g) == Fields(f)
  {
    assert forall i :: 3 <= i < |f| ==> g[i] == g[3..][i - 3] == f[3..][i - 3] == f[i];
    var at := if ApsMode(f[2]) == DM_GROUP then 9 else 7;
    assert g[at..] == f[at..];
  }

  lemma UncheckedNwk(protoVer: byte, reserved: nat)
    requires protoVer < 16 && reserved < 8
    ensures NwkAccepted(BuildWord(3 + 4 * protoVer, 32 * reserved), protoVer)
  {
    var low: nat, fc: nat := 3 + 4 * protoVer, BuildWord(3 + 4 * protoVer, 32 * reserved);
    assert fc == low + 8192 * reserved && low < 67;
    assert fc % 4 == 3 && fc / 4 == protoVer + 2048 * reserved;
    assert (protoVer + 2048 * reserved) % 16 == protoVer;
    assert fc / 64 == 128 * reserved && fc / 256 == 32 * reserved && fc / 512 == 16 * reserved;
    assert fc / 1024 == 8 * reserved && fc / 2048 == 4 * reserved && fc / 4096 == 2 * reserved;
  }

  lemma UncheckedAps(aps: byte, ackFormat: nat, ackRequest: nat)
    requires aps == 3 || aps == 11 || aps == 15
    requires ackFormat < 2 && ackRequest < 2
    ensures var b := aps + 16 * ackFormat + 64 * ackRequest;
            b < 0x100 && ApsAccepted(b) && ApsMode(b) == ApsMode(aps)
  {
  }

  // Only frames of both types are claimed, and every frame that is indicated is.
  lemma ClaimsExactly(msdu: seq<byte>, protoVer: byte)
    requires HeadersPresent(msdu)
    ensures Claimed(msdu) <==> msdu[0] % 4 == 3 && msdu[2] % 4 == 3
    ensures Indicate(msdu, protoVer).Some? ==> Claimed(msdu)
  {
  }

  lemma FieldsOfFrame(req: DataReq, protoVer: byte)
    requires HdrLen(Mode(req.dstAddr)) + |req.asdu| <= 0xFF && HeadersPresent(FrameOf(req, protoVer))
    requires ApsMode(FrameOf(req, protoVer)[2]) == Mode(req.dstAddr)
    ensures Fields(FrameOf(req, protoVer)) == Sent(req)
  {
    var msdu, at := FrameOf(req, protoVer), HdrLen(Mode(req.dstAddr));
    BuildOfSplit(req.clusterID);
    BuildOfSplit(req.profileID);
    assert msdu[at..] == req.asdu;
    if req.dstAddr.Group? {
      BuildOfSplit(req.dstAddr.id);
    }
  }

  // The request a frame would have been built from.
  function Rebuilt(ind: Indication): DataReq {
    var dst := if ind.mode == DM_GROUP then Group(ind.groupID)
               else if ind.mode == DM_BROADCAST then Broadcast(NWK_BROADCAST_SHORTADDR_DEVALL)
               else Short(0);
    DataReq(dst, STUBAPS_INTER_PAN_EP, 0, ind.clusterID, ind.profileID, ind.asdu, 0, 0)
  }

  // A frame that is indicated is the very frame its fields build, exactly when the bits nobody
  // checks are zero: the NWK reserved bits, ack format and ack request.
  lemma IndicatedIsRebuilt(msdu: seq<byte>, protoVer: byte)
    requires HeadersPresent(msdu) && Indicate(msdu, protoVer).Some?
    ensures FrameOf(Rebuilt(Indicate(msdu, protoVer).value), protoVer) == msdu <==>
              Fc(msdu) / 0x2000 == 0 && msdu[2] / 16 % 2 == 0 && msdu[2] / 64 % 2 == 0
  {
    var frame := FrameOf(Rebuilt(Fields(msdu)), protoVer);
    ApsBits(msdu[2]);
    NwkBits(Fc(msdu), protoVer);
    BuildOfSplit(NwkControl(protoVer));
    SplitOfBuild(msdu[0], msdu[1]);
    SameBehindControl(msdu, protoVer);
    assert frame == frame[..3] + frame[3..] && msdu == msdu[..3] + msdu[3..];
    assert frame[0] == Lo(NwkControl(protoVer)) && frame[1] == Hi(NwkControl(protoVer));
    assert frame[2] == ApsControl(ApsMode(msdu[2]));
    if Fc(msdu) == NwkControl(protoVer) && msdu[2] == frame[2] {
      assert frame[..3] == msdu[..3];
    }
  }

  lemma SameBehindControl(msdu: seq<byte>, protoVer: byte)
    requires HeadersPresent(msdu) && ApsAccepted(msdu[2])
    ensures FrameOf(Rebuilt(Fields(msdu)), protoVer)[3..] == msdu[3..]
  {
    var ind := Fields(msdu);
    var at := HdrLen(ind.mode);
    var frame := FrameOf(Rebuilt(ind), protoVer);
    FrameLength(Rebuilt(ind), protoVer);
    if ind.mode == DM_GROUP {
      SplitOfBuild(msdu[3], msdu[4]);
    }
    SplitOfBuild(msdu[at - 4], msdu[at - 3]);
    SplitOfBuild(msdu[at - 2], msdu[at - 1]);
    assert frame[at..] == ind.asdu == msdu[at..];
    assert frame[3..at] == msdu[3..at];
    assert frame[3..] == frame[3..at] + frame[at..] && msdu[3..] == msdu[3..at] + msdu[at..];
  }

  lemma SplitOfBuild(lo: byte, hi: byte)
    ensures Lo(BuildWord(lo, hi)) == lo && Hi(BuildWord(lo, hi)) == hi
  {
  }

  lemma ApsBits(aps: byte)
    requires ApsAccepted(aps)
    ensures aps == ApsControl(ApsMode(aps)) <==> aps / 16 % 2 == 0 && aps / 64 % 2 == 0
  {
  }

  lemma NwkBits(fc: word, protoVer: byte)
    requires NwkAccepted(fc, protoVer)
    ensures fc == NwkControl(protoVer) <==> fc / 0x2000 == 0
  {
  }

  // Payloads within the MTU fit a MAC frame in every delivery mode, and no larger limit does.
  lemma MtuIsTight(n: nat)
    ensures n <= MTU <==> forall req: DataReq, v :: |req.asdu| == n ==> |FrameOf(req, v)| <= MAC_A_MAX_FRAME_SIZE
  {
    forall req: DataReq, v ensures |FrameOf(req, v)| == HdrLen(Mode(req.dstAddr)) + |req.asdu| {
      FrameLength(req, v);
    }
    var longest := DataReq(Group(0), 0, 0, 0, 0, seq(n, _ => 0), 0, 0);
    assert |longest.asdu| == n && |FrameOf(longest, 0)| == 9 + n;
  }

  // ---------- The codec as it runs ----------

  method StubNwkBuildMsg(buf: array<byte>, protoVer: byte)
    requires buf.Length >= 2
    modifies buf
    ensures buf[0] == Lo(NwkControl(protoVer)) && buf[1] == Hi(NwkControl(protoVer))
    ensures forall i :: 2 <= i < buf.Length ==> buf[i] == old(buf[i])
  {
    var frmCtrl: word := NwkControl(protoVer);
    buf[0] := Lo(frmCtrl);
    buf[1] := Hi(frmCtrl);
  }

  lemma Behind(b: seq<byte>, header: seq<byte>, from: nat, payload: seq<byte>)
    requires from <= |header| <= |b| && b[..|header|] == header && b[|header|..] == payload
    ensures b[from..] == header[from..] + payload
  {
    assert b == header + payload;
  }

  method CopyPayload(buf: array<byte>, at: nat, asdu: seq<byte>)
    requires at + |asdu| == buf.Length
    modifies buf
    ensures buf[..at] == old(buf[..at]) && buf[at..] == asdu
  {
    for n := 0 to |asdu|
      invariant buf[..at] == old(buf[..at])
      invariant forall i :: 0 <= i < n ==> buf[at + i] == asdu[i]
    {
      buf[at + n] := asdu[n];
    }
  }

  // The APS header and the payload, from position 2 on.
  method StubApsBuildMsg(buf: array<byte>, frmCtrl: byte, groupID: word, req: DataReq)
    requires frmCtrl == ApsControl(Mode(req.dstAddr)) && (req.dstAddr.Group? ==> groupID == req.dstAddr.id)
    requires buf.Length == HdrLen(Mode(req.dstAddr)) + |req.asdu|
    modifies buf
    ensures buf[2..] == ApsHeader(req) + req.asdu
  {
    ControlBits(0, Mode(req.dstAddr));
    var at := 2;
    buf[at] := frmCtrl;
    at := at + 1;
    if ApsMode(frmCtrl) == DM_GROUP {
      buf[at], buf[at + 1] := Lo(groupID), Hi(groupID);
      at := at + 2;
    }
    buf[at], buf[at + 1] := Lo(req.clusterID), Hi(req.clusterID);
    at := at + 2;
    buf[at], buf[at + 1] := Lo(req.profileID), Hi(req.profileID);
    at := at + 2;
    ghost var header := buf[..at];
    assert at == HdrLen(Mode(req.dstAddr)) && header[2..] == ApsHeader(req);
    CopyPayload(buf, at, req.asdu);
    Behind(buf[..], header, 2, req.asdu);
  }

  // INTERP_DataReq; mac is what the MAC answers, memory says whether the buffer was allocated.
  method InterpDataReq(req: DataReq, channelChangeInProgress: bool, protoVer: byte, memory: bool, mac: Status)
    returns (status: Status, sent: Option<MacReq>)
    requires !channelChangeInProgress && req.dstEP == STUBAPS_INTER_PAN_EP && memory
             && !Unsupported(req.txOptions) && !req.dstAddr.NotPresent? ==>
               HdrLen(Mode(req.dstAddr)) + |req.asdu| <= 0xFF
    ensures sent.Some? <==>
              && !channelChangeInProgress && req.dstEP == STUBAPS_INTER_PAN_EP
              && !Unsupported(req.txOptions) && !req.dstAddr.NotPresent? && memory
    ensures sent.Some? ==> status == mac
    ensures sent.Some? ==>
              && sent.value.msdu == FrameOf(req, protoVer)
              && sent.value.dstPANId == req.dstPanId
              && (req.dstAddr.Group? || req.dstAddr.Broadcast? ==> sent.value.dstAddr.Short?)
              && (req.dstAddr.Group? ==> sent.value.dstAddr.shortAddr == NWK_BROADCAST_SHORTADDR_DEVALL)
              && (req.dstAddr.Broadcast? ==> sent.value.dstAddr.shortAddr == req.dstAddr.shortAddr)
              && (req.dstAddr.Short? || req.dstAddr.Extended? ==> sent.value.dstAddr == req.dstAddr)
              && sent.value.handle == req.transID && (sent.value.ack <==> Mode(req.dstAddr) == DM_UNICAST)
    ensures sent.None? ==>
              status == if channelChangeInProgress || req.dstEP != STUBAPS_INTER_PAN_EP then ZFailure
                        else if Unsupported(req.txOptions) || req.dstAddr.NotPresent? then ZApsNotSupported
                        else ZMemError
  {
    sent := None;
    if channelChangeInProgress || req.dstEP != STUBAPS_INTER_PAN_EP {
      return ZFailure, None;
    }
    if Unsupported(req.txOptions) || req.dstAddr.NotPresent? {
      return ZApsNotSupported, None;
    }
    var frmCtrl := ApsControl(Mode(req.dstAddr));
    var groupID := if req.dstAddr.Group? then req.dstAddr.id else 0;
    var msduLength := MsduLength(req);
    if !memory {
      return ZMemError, None;
    }
    var buf := new byte[msduLength](_ => 0);
    StubApsBuildMsg(buf, frmCtrl, groupID, req);
    ghost var rest := buf[2..];
    StubNwkBuildMsg(buf, protoVer);
    assert buf[2..] == rest;
    assert buf[..] == [Lo(NwkControl(protoVer)), Hi(NwkControl(protoVer))] + buf[2..];
    status := mac;
    sent := Some(MacReq(MacAddr(req.dstAddr), req.dstPanId, req.transID, Mode(req.dstAddr) == DM_UNICAST, buf[..]));
  }

  // StubAPS_ParseMsg: the fields are read through an advancing pointer, the payload is what is
  // left of the 8-bit length.
  method StubApsParseMsg(msdu: array<byte>) returns (ind: Indication)
    requires HeadersPresent(msdu[..]) && ApsType(msdu[2]) == STUB_APS_FRAME
    ensures ind == Fields(msdu[..])
  {
    var at, asduLength: nat := 2, msdu.Length - 2;
    var frmCtrl := msdu[at];
    at := at + 1;
    var mode := ApsMode(frmCtrl);
    var groupID: word := 0;
    if mode == DM_GROUP {
      groupID := BuildWord(msdu[at], msdu[at + 1]);
      at := at + 2;
    }
    var clusterID := BuildWord(msdu[at], msdu[at + 1]);
    at := at + 2;
    var profileID := BuildWord(msdu[at], msdu[at + 1]);
    at := at + 2;
    asduLength := asduLength - (at - 2);
    ind := Indication(mode, mode == DM_BROADCAST, groupID, clusterID, profileID, msdu[at..at + asduLength]);
    assert msdu[at..at + asduLength] == msdu[..][at..];
  }

  method InterpDataIndication(msdu: array<byte>, protoVer: byte) returns (ind: Option<Indication>)
    requires HeadersPresent(msdu[..])
    ensures ind == Indicate(msdu[..], protoVer)
  {
    if !NwkAccepted(Fc(msdu[..]), protoVer) {
      return None;
    }
    if ApsType(msdu[2]) != STUB_APS_FRAME {
      return None;
    }
    var parsed := StubApsParseMsg(msdu);
    if parsed.mode == DM_INDIRECT || msdu[2] / 32 % 2 != 0 || msdu[2] / 128 % 2 != 0 {
      return None;
    }
    return Some(parsed);
  }
}
