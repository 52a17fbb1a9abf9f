/**
  The endpoint registry and the dispatch of incoming data to endpoints, for unicast and
  broadcast frames.

  An entry's profile comes from its descriptor callback if it has one (which may give none),
  else from its simple descriptor if it has one.
 */
module Endpoints {
  import opened Words

  const AF_BROADCAST_ENDPOINT: byte := 0xFF
  const ZDO_EP: byte := 0
  const ZDO_PROFILE_ID: word := 0
  const ZDO_WILDCARD_PROFILE_ID: word := 0xFFFF
  const NO_PROFILE: word := 0xFFFE

  datatype Desc = Desc(endPoint: byte, simpleProfile: Option<word>)
  datatype Callback = NoCallback | Gives(profile: Option<word>)
  datatype Item = Item(desc: Desc, cb: Callback)
  datatype Status = Success | Failed | InvalidParameter | MemFail

  // ---------- The registry as a value ----------

  function Find(items: seq<Item>, ep: byte): (k: nat)
    ensures k <= |items|
    ensures k < |items| ==> items[k].desc.endPoint == ep
    ensures forall j :: 0 <= j < k ==> items[j].desc.endPoint != ep
  {
    if items == [] then 0 else if items[0].desc.endPoint == ep then 0 else 1 + Find(items[1..], ep)
  }

  // afRegister
  function Register(items: seq<Item>, desc: Desc, memory: bool): (seq<Item>, Status) {
    if Find(items, desc.endPoint) < |items| then (items, InvalidParameter)
    else if !memory then (items, MemFail)
    else ([Item(desc, NoCallback)] + items, Success)
  }

  // afDelete
  function Delete(items: seq<Item>, ep: byte): (seq<Item>, Status) {
    var k := Find(items, ep);
    if items == [] then (items, Failed)
    else if k == |items| then (items, InvalidParameter)
    else (items[..k] + items[k + 1..], Success)
  }

  ghost predicate Distinct(items: seq<Item>) {
    forall i, j :: 0 <= i < j < |items| ==> items[i].desc.endPoint != items[j].desc.endPoint
  }

  ghost predicate Registered(items: seq<Item>, ep: byte) {
    exists i :: 0 <= i < |items| && items[i].desc.endPoint == ep
  }

  // Registering keeps endpoints distinct and the order of the others; it succeeds exactly when
  // the endpoint was not registered and there was memory, and then adds just that endpoint.
  lemma RegisterKeeps(items: seq<Item>, desc: Desc, memory: bool)
    requires Distinct(items)
    ensures var (items', status) := Register(items, desc, memory);
            && Distinct(items')
            && (status == Success <==> memory && !Registered(items, desc.endPoint))
            && (status == InvalidParameter <==> Registered(items, desc.endPoint))
            && (status != Success ==> items' == items)
            && (status == Success ==>
                  forall ep :: Registered(items', ep) <==> Registered(items, ep) || ep == desc.endPoint)
  {
    var items' := Register(items, desc, memory).0;
    if items' != items {
      forall ep ensures Registered(items', ep) <==> Registered(items, ep) || ep == desc.endPoint {
        assert items'[0].desc.endPoint == desc.endPoint;
        assert forall i :: 0 <= i < |items| ==> items'[i + 1] == items[i];
      }
    }
  }

  // Deleting keeps endpoints distinct and the order of those that stay; it succeeds exactly
  // when the endpoint was registered, and then it no longer is and every other one still is.
  lemma DeleteKeeps(items: seq<Item>, ep: byte)
    requires Distinct(items)
    ensures var (items', status) := Delete(items, ep);
            && Distinct(items')
            && (status == Success <==> Registered(items, ep)) && (status == Failed <==> items == [])
            && (forall e :: Registered(items', e) <==> Registered(items, e) && e != ep)
  {
    var k := Find(items, ep);
    var items' := Delete(items, ep).0;
    if k < |items| {
      assert forall i :: 0 <= i < |items'| ==> items'[i] == items[if i < k then i else i + 1];
      forall e ensures Registered(items', e) <==> Registered(items, e) && e != ep {
        if Registered(items, e) && e != ep {
          var i :| 0 <= i < |items| && items[i].desc.endPoint == e;
          assert items'[if i < k then i else i - 1] == items[i];
        }
      }
    }
  }

  // Deleting what was just registered gives back the registry as it was.
  lemma DeleteUndoesRegister(items: seq<Item>, desc: Desc)
    requires !Registered(items, desc.endPoint)
    ensures Delete(Register(items, desc, true).0, desc.endPoint) == (items, Success)
  {
    var items' := [Item(desc, NoCallback)] + items;
    assert Find(items, desc.endPoint) == |items| && Register(items, desc, true).0 == items';
    assert items'[..0] + items'[1..] == items;
  }

  // Through any run of afRegister and afDelete endpoints stay distinct.
  datatype Op = RegisterOp(desc: Desc, memory: bool) | DeleteOp(ep: byte)

  function Run(items: seq<Item>, ops: seq<Op>): seq<Item>
    decreases |ops|
  {
    if ops == [] then items
    else Run(match ops[0]
             case RegisterOp(desc, memory) => Register(items, desc, memory).0
             case DeleteOp(ep) => Delete(items, ep).0, ops[1..])
  }

  lemma {:induction false} RunKeepsDistinct(items: seq<Item>, ops: seq<Op>)
    requires Distinct(items)
    ensures Distinct(Run(items, ops))
    decreases |ops|
  {
    if ops != [] {
      match ops[0]
      case RegisterOp(desc, memory) =>
        RegisterKeeps(items, desc, memory);
        RunKeepsDistinct(Register(items, desc, memory).0, ops[1..]);
      case DeleteOp(ep) =>
        DeleteKeeps(items, ep);
        RunKeepsDistinct(Delete(items, ep).0, ops[1..]);
    }
  }

  // ---------- Dispatch ----------

  function ProfileOf(item: Item): word {
    match item.cb
    case Gives(p) => if p.Some? then p.value else NO_PROFILE
    case NoCallback => if item.desc.simpleProfile.Some? then item.desc.simpleProfile.value else NO_PROFILE
  }

  predicate Accepts(item: Item, profile: word) {
    || profile == ProfileOf(item)
    || (item.desc.endPoint == ZDO_EP && profile == ZDO_PROFILE_ID)
    || (item.desc.endPoint != ZDO_EP && profile == ZDO_WILDCARD_PROFILE_ID)
  }

  // The endpoints that accept the profile, in list order.
  function Accepting(items: seq<Item>, profile: word): seq<byte> {
    if items == [] then []
    else (if Accepts(items[0], profile) then [items[0].desc.endPoint] else []) + Accepting(items[1..], profile)
  }

  // The endpoints a frame is delivered to.
  function Targets(items: seq<Item>, dst: byte, profile: word): seq<byte> {
    if dst == AF_BROADCAST_ENDPOINT then Accepting(items, profile)
    else
      var k := Find(items, dst);
      if k < |items| && Accepts(items[k], profile) then [dst] else []
  }

  // A broadcast frame is delivered exactly once to each endpoint that accepts its profile, a
  // unicast frame at most once, and only to the endpoint it names.
  lemma TargetsMeaning(items: seq<Item>, dst: byte, profile: word)
    requires Distinct(items)
    ensures var ts := Targets(items, dst, profile);
            && NoRepeats(ts)
            && (forall ep :: ep in ts <==>
                  && (dst == AF_BROADCAST_ENDPOINT || ep == dst)
                  && exists i :: 0 <= i < |items| && items[i].desc.endPoint == ep && Accepts(items[i], profile))
            && (dst != AF_BROADCAST_ENDPOINT ==> |ts| <= 1)
  {
    if dst == AF_BROADCAST_ENDPOINT {
      AcceptingMembers(items, profile);
      AcceptingDistinct(items, profile);
    }
  }

  ghost predicate Serves(items: seq<Item>, ep: byte, profile: word) {
    exists i :: 0 <= i < |items| && items[i].desc.endPoint == ep && Accepts(items[i], profile)
  }

  lemma TargetsServe(items: seq<Item>, dst: byte, profile: word, ep: byte)
    requires Distinct(items)
    ensures ep in Targets(items, dst, profile) <==>
              (dst == AF_BROADCAST_ENDPOINT || ep == dst) && Serves(items, ep, profile)
  {
    TargetsMeaning(items, dst, profile);
  }

  // A broadcast under the wildcard profile reaches every registered endpoint but the ZDO's (and
  // that one only if the wildcard is its own profile); a frame of the ZDO profile to the ZDO
  // reaches it exactly when it is registered, whatever profile it was registered under.
  lemma WildcardReach(items: seq<Item>)
    requires Distinct(items)
    ensures forall ep :: ep != ZDO_EP ==>
              (ep in Targets(items, AF_BROADCAST_ENDPOINT, ZDO_WILDCARD_PROFILE_ID) <==> Registered(items, ep))
    ensures ZDO_EP in Targets(items, AF_BROADCAST_ENDPOINT, ZDO_WILDCARD_PROFILE_ID) ==>
              exists i :: 0 <= i < |items| && items[i].desc.endPoint == ZDO_EP
                          && ProfileOf(items[i]) == ZDO_WILDCARD_PROFILE_ID
    ensures Targets(items, ZDO_EP, ZDO_PROFILE_ID) == if Registered(items, ZDO_EP) then [ZDO_EP] else []
  {
    forall ep ensures ep in Targets(items, AF_BROADCAST_ENDPOINT, ZDO_WILDCARD_PROFILE_ID) <==>
                        Serves(items, ep, ZDO_WILDCARD_PROFILE_ID)
    {
      TargetsServe(items, AF_BROADCAST_ENDPOINT, ZDO_WILDCARD_PROFILE_ID, ep);
    }
    forall ep | ep != ZDO_EP && Registered(items, ep) ensures Serves(items, ep, ZDO_WILDCARD_PROFILE_ID) {
      var i :| 0 <= i < |items| && items[i].desc.endPoint == ep;
      assert Accepts(items[i], ZDO_WILDCARD_PROFILE_ID);
    }
  }

  // An entry's own profile: what its callback gives, or without one what its simple descriptor
  // says; an entry that has neither goes by 0xFFFE.
  predicate Own(item: Item, profile: word) {
    if item.cb.Gives? then if item.cb.profile.Some? then profile == item.cb.profile.value else profile == 0xFFFE
    else if item.desc.simpleProfile.Some? then profile == item.desc.simpleProfile.value
    else profile == 0xFFFE
  }

  // For every entry and every frame: it is delivered to the entry exactly when it is broadcast or
  // names its endpoint, and its profile is the entry's own, or 0 at endpoint 0, or 0xFFFF at any
  // other endpoint.
  lemma DeliveredByProfile(items: seq<Item>, i: nat, own: word, dst: byte, profile: word)
    requires Distinct(items) && i < |items| && Own(items[i], own)
    ensures var ep := items[i].desc.endPoint;
            ep in Targets(items, dst, profile) <==>
              && (dst == 0xFF || dst == ep)
              && (profile == own || (ep == 0 && profile == 0) || (ep != 0 && profile == 0xFFFF))
  {
    var ep := items[i].desc.endPoint;
    TargetsServe(items, dst, profile, ep);
    if Serves(items, ep, profile) {
      var j :| 0 <= j < |items| && items[j].desc.endPoint == ep && Accepts(items[j], profile);
      assert j == i;
    }
  }

  // And to nobody else: a frame is delivered to registered endpoints only.
  lemma DeliveredToRegistered(items: seq<Item>, dst: byte, profile: word, ep: byte)
    requires Distinct(items) && ep in Targets(items, dst, profile)
    ensures Registered(items, ep)
  {
    TargetsServe(items, dst, profile, ep);
  }

  // Broadcast deliveries follow the order of the list.
  lemma {:induction false} DeliveredInOrder(items: seq<Item>, i: nat, j: nat, profile: word) returns (p: nat, q: nat)
    requires i < j < |items|
    requires Serves([items[i]], items[i].desc.endPoint, profile) && Serves([items[j]], items[j].desc.endPoint, profile)
    ensures var ts := Targets(items, 0xFF, profile);
            p < q < |ts| && ts[p] == items[i].desc.endPoint && ts[q] == items[j].desc.endPoint
  {
    assert Accepts(items[i], profile) && Accepts(items[j], profile);
    var tail := items[1..];
    if i == 0 {
      p := 0;
      q := AcceptedAt(tail, j - 1, profile);
      assert tail[j - 1] == items[j];
      q := q + 1;
    } else {
      assert tail[i - 1] == items[i] && tail[j - 1] == items[j];
      p, q := DeliveredInOrder(tail, i - 1, j - 1, profile);
      if Accepts(items[0], profile) {
        p, q := p + 1, q + 1;
      }
    }
  }

  lemma {:induction false} AcceptedAt(items: seq<Item>, i: nat, profile: word) returns (p: nat)
    requires i < |items| && Accepts(items[i], profile)
    ensures p < |Accepting(items, profile)| && Accepting(items, profile)[p] == items[i].desc.endPoint
  {
    if i == 0 {
      p := 0;
    } else {
      assert items[1..][i - 1] == items[i];
      p := AcceptedAt(items[1..], i - 1, profile);
      if Accepts(items[0], profile) {
        p := p + 1;
      }
    }
  }

  // Deleting an endpoint stops deliveries to it and changes no other one, for every frame.
  lemma DeleteStopsDelivery(items: seq<Item>, ep: byte, dst: byte, profile: word, e: byte)
    requires Distinct(items)
    ensures e in Targets(Delete(items, ep).0, dst, profile) <==> e in Targets(items, dst, profile) && e != ep
  {
    var k, items' := Find(items, ep), Delete(items, ep).0;
    DeleteKeeps(items, ep);
    TargetsServe(items, dst, profile, e);
    TargetsServe(items', dst, profile, e);
    if k < |items| {
      ServesWithout(items, k, e, profile);
    }
  }

  lemma ServesWithout(items: seq<Item>, k: nat, e: byte, profile: word)
    requires Distinct(items) && k < |items|
    ensures Serves(items[..k] + items[k + 1..], e, profile) <==>
              Serves(items, e, profile) && e != items[k].desc.endPoint
  {
    var items' := items[..k] + items[k + 1..];
    assert forall i :: 0 <= i < |items'| ==> items'[i] == items[if i < k then i else i + 1];
    if Serves(items, e, profile) && e != items[k].desc.endPoint {
      var i :| 0 <= i < |items| && items[i].desc.endPoint == e && Accepts(items[i], profile);
      assert items'[if i < k then i else i - 1] == items[i];
    }
  }

  // Registering one starts deliveries of the frames its profile accepts and changes no other.
  lemma RegisterStartsDelivery(items: seq<Item>, desc: Desc, dst: byte, profile: word, e: byte)
    requires Distinct(items) && !Registered(items, desc.endPoint)
    ensures e in Targets(Register(items, desc, true).0, dst, profile) <==>
              || e in Targets(items, dst, profile)
              || (e == desc.endPoint && (dst == AF_BROADCAST_ENDPOINT || dst == e)
                  && Accepts(Item(desc, NoCallback), profile))
  {
    var items' := Register(items, desc, true).0;
    RegisterKeeps(items, desc, true);
    assert items' == [Item(desc, NoCallback)] + items;
    TargetsServe(items, dst, profile, e);
    TargetsServe(items', dst, profile, e);
    if Serves(items, e, profile) {
      var i :| 0 <= i < |items| && items[i].desc.endPoint == e && Accepts(items[i], profile);
      assert items'[i + 1] == items[i];
    }
  }

  lemma {:induction false} AcceptingMembers(items: seq<Item>, profile: word)
    ensures forall ep :: ep in Accepting(items, profile) <==>
              exists i :: 0 <= i < |items| && items[i].desc.endPoint == ep && Accepts(items[i], profile)
  {
    if items != [] {
      AcceptingMembers(items[1..], profile);
      forall ep ensures ep in Accepting(items, profile) <==>
              exists i :: 0 <= i < |items| && items[i].desc.endPoint == ep && Accepts(items[i], profile)
      {
        if exists i :: 0 <= i < |items| && items[i].desc.endPoint == ep && Accepts(items[i], profile) {
          var i :| 0 <= i < |items| && items[i].desc.endPoint == ep && Accepts(items[i], profile);
          if i > 0 {
            assert items[1..][i - 1] == items[i];
          }
        }
        if ep in Accepting(items[1..], profile) {
          var i :| 0 <= i < |items[1..]| && items[1..][i].desc.endPoint == ep && Accepts(items[1..][i], profile);
          assert items[i + 1] == items[1..][i];
        }
      }
    }
  }

  ghost predicate NoRepeats(eps: seq<byte>) {
    forall i, j :: 0 <= i < j < |eps| ==> eps[i] != eps[j]
  }

  lemma {:induction false} AcceptingDistinct(items: seq<Item>, profile: word)
    requires Distinct(items)
    ensures NoRepeats(Accepting(items, profile))
  {
    if items != [] {
      AcceptingDistinct(items[1..], profile);
      FirstNotAmongRest(items, profile);
      var first, rest := items[0].desc.endPoint, Accepting(items[1..], profile);
      assert forall k :: 0 <= k < |rest| ==> rest[k] in rest;
      assert NoRepeats([first] + rest);
    }
  }

  lemma FirstNotAmongRest(items: seq<Item>, profile: word)
    requires Distinct(items) && items != []
    ensures items[0].desc.endPoint !in Accepting(items[1..], profile)
  {
    AcceptingMembers(items[1..], profile);
    assert forall i :: 0 <= i < |items[1..]| ==> items[1..][i] == items[i + 1];
  }

  // ---------- The list as it is linked ----------

  class EpNode {
    var nextDesc: EpNode?
    var item: Item

    constructor (item: Item, next: EpNode?)
      ensures this.item == item && nextDesc == next
    {
      this.item, nextDesc := item, next;
    }
  }

  // The part of a received frame that dispatch looks at.
  class ApsFrame {
    var dstEndPoint: byte
    var profileID: word

    constructor (dst: byte, profile: word)
      ensures dstEndPoint == dst && profileID == profile
    {
      dstEndPoint, profileID := dst, profile;
    }
  }

  class Registry {
    var epList: EpNode?
    // Deliveries so far: the task's endpoint and the endpoint the frame showed it.
    var delivered: seq<(byte, byte)>
    ghost var nodes: seq<EpNode>
    ghost var items: seq<Item>

    ghost function At(i: nat): EpNode?
      reads this
    {
      if i < |nodes| then nodes[i] else null
    }

    ghost predicate Valid()
      reads this, nodes
    {
      && epList == At(0) && |nodes| == |items|
      && (forall i, j :: 0 <= i < j < |nodes| ==> nodes[i] != nodes[j])
      && (forall i {:trigger nodes[i].nextDesc} :: 0 <= i < |nodes| ==> nodes[i].nextDesc == At(i + 1))
      && (forall i {:trigger nodes[i].item} :: 0 <= i < |nodes| ==> nodes[i].item == items[i])
    }

    constructor ()
      ensures Valid() && items == [] && delivered == [] && nodes == []
    {
      epList, delivered, nodes, items := null, [], [], [];
    }

    method AfFindEndPointDescList(ep: byte) returns (node: EpNode?)
      requires Valid()
      ensures node == At(Find(items, ep))
    {
      node := epList;
      ghost var i := 0;
      while node != null
        invariant i <= Find(items, ep) && i <= |nodes| && node == At(i)
        decreases |nodes| - i
      {
        assert node == nodes[i] && nodes[i].item == items[i];
        if node.item.desc.endPoint == ep {
          break;
        }
        node := node.nextDesc;
        i := i + 1;
      }
    }

    method AfRegisterExtended(desc: Desc, cb: Callback, memory: bool) returns (node: EpNode?)
      requires Valid()
      modifies this`epList, this`nodes, this`items
      ensures Valid() && (node == null <==> !memory)
      ensures items == if memory then [Item(desc, cb)] + old(items) else old(items)
      ensures memory ==> fresh(node) && nodes == [node] + old(nodes)
      ensures !memory ==> nodes == old(nodes)
    {
      node := null;
      if memory {
        node := new EpNode(Item(desc, cb), epList);
        epList := node;
        ghost var oldNodes, oldItems := nodes, items;
        nodes, items := [node] + nodes, [Item(desc, cb)] + items;
        assert forall i :: 1 <= i < |nodes| ==> nodes[i] == oldNodes[i - 1] && items[i] == oldItems[i - 1];
      }
    }

    method AfRegister(desc: Desc, memory: bool) returns (status: Status)
      requires Valid()
      modifies this`epList, this`nodes, this`items
      ensures Valid() && (items, status) == Register(old(items), desc, memory)
      ensures forall n :: n in nodes && n !in old(nodes) ==> fresh(n)
    {
      var found := AfFindEndPointDescList(desc.endPoint);
      if found != null {
        return InvalidParameter;
      }
      var node := AfRegisterExtended(desc, NoCallback, memory);
      status := if node == null then MemFail else Success;
    }

    method AfDelete(ep: byte) returns (status: Status)
      requires Valid()
      modifies this`epList, this`nodes, this`items, nodes
      ensures Valid() && (items, status) == Delete(old(items), ep)
      ensures forall n :: n in nodes ==> n in old(nodes)
    {
      if epList == null {
        return Failed;
      }
      var epPrevious := epList;
      assert epList == nodes[0] && nodes[0].item == items[0];
      if epList.item.desc.endPoint == ep {
        UnlinkFirst(epList);
        return Success;
      }
      var epCurrent := epPrevious.nextDesc;
      ghost var i := 1;
      while epCurrent != null
        invariant 1 <= i <= |nodes| && i <= Find(items, ep)
        invariant epCurrent == At(i) && epPrevious == nodes[i - 1]
        decreases |nodes| - i
      {
        assert epCurrent == nodes[i] && nodes[i].item == items[i];
        if epCurrent.item.desc.endPoint == ep {
          Unlink(epPrevious, epCurrent, i);
          return Success;
        }
        epPrevious := epCurrent;
        epCurrent := epCurrent.nextDesc;
        i := i + 1;
      }
      return InvalidParameter;
    }

    method UnlinkFirst(first: EpNode)
      requires Valid() && epList == first
      modifies this`epList, this`nodes, this`items
      ensures Valid() && items == old(items)[..0] + old(items)[1..] && nodes == old(nodes)[1..]
    {
      ghost var oldNodes, oldItems := nodes, items;
      assert nodes[0].nextDesc == At(1);
      epList := first.nextDesc;
      nodes, items := nodes[1..], items[1..];
      assert forall i :: 0 <= i < |nodes| ==> nodes[i] == oldNodes[i + 1] && items[i] == oldItems[i + 1];
    }

    method Unlink(epPrevious: EpNode, epCurrent: EpNode, ghost i: nat)
      requires Valid() && 1 <= i < |nodes| && epPrevious == nodes[i - 1] && epCurrent == nodes[i]
      modifies this`nodes, this`items, epPrevious
      ensures Valid() && items == old(items)[..i] + old(items)[i + 1..]
      ensures nodes == old(nodes)[..i] + old(nodes)[i + 1..]
    {
      ghost var oldNodes, oldItems := nodes, items;
      assert nodes[i].nextDesc == At(i + 1);
      epPrevious.nextDesc := epCurrent.nextDesc;
      nodes, items := nodes[..i] + nodes[i + 1..], items[..i] + items[i + 1..];
      forall j | 0 <= j < |nodes| ensures nodes[j].nextDesc == At(j + 1) && nodes[j].item == items[j] {
        ghost var o := if j < i then j else j + 1;
        assert nodes[j] == oldNodes[o] && items[j] == oldItems[o] && oldNodes[o].item == oldItems[o];
        if j != i - 1 {
          assert nodes[j] != epPrevious;
        }
      }
    }

    // One delivery: the frame shows the task its own endpoint, then its destination is put back.
    method Deliver(aff: ApsFrame, item: Item)
      requires aff as object != this
      modifies this`delivered, aff
      ensures aff.dstEndPoint == old(aff.dstEndPoint) && aff.profileID == old(aff.profileID)
      ensures delivered == old(delivered) + [(item.desc.endPoint, item.desc.endPoint)]
    {
      var endpoint := aff.dstEndPoint;
      aff.dstEndPoint := item.desc.endPoint;
      delivered := delivered + [(item.desc.endPoint, aff.dstEndPoint)];
      aff.dstEndPoint := endpoint;
    }

    // One turn of the dispatch loop.
    method Visit(aff: ApsFrame, pList: EpNode, ghost i: nat) returns (next: EpNode?)
      requires Valid() && aff as object != this && i < |nodes| && pList == nodes[i]
      requires aff.dstEndPoint != AF_BROADCAST_ENDPOINT ==> items[i].desc.endPoint == aff.dstEndPoint
      modifies this`delivered, aff
      ensures Valid() && aff.dstEndPoint == old(aff.dstEndPoint) && aff.profileID == old(aff.profileID)
      ensures next == At(After(items, i, aff.dstEndPoint))
      ensures delivered + Shown(Rest(items, After(items, i, aff.dstEndPoint), aff.dstEndPoint, aff.profileID))
           == old(delivered) + Shown(Rest(items, i, aff.dstEndPoint, aff.profileID))
    {
      assert pList.item == items[i] && pList.nextDesc == At(i + 1);
      ghost var before, dst, profile := delivered, aff.dstEndPoint, aff.profileID;
      if Accepts(pList.item, aff.profileID) {
        Deliver(aff, pList.item);
      }
      assert delivered == before + ShownOne(items[i], profile);
      RestNext(items, i, dst, profile);
      Regroup(before, ShownOne(items[i], profile), Shown(Rest(items, After(items, i, dst), dst, profile)));
      next := if aff.dstEndPoint == AF_BROADCAST_ENDPOINT then pList.nextDesc else null;
    }

    // afIncomingData for frames that are not group addressed.
    method AfIncomingData(aff: ApsFrame)
      requires Valid() && aff as object != this
      modifies this`delivered, aff
      ensures Valid() && aff.dstEndPoint == old(aff.dstEndPoint) && aff.profileID == old(aff.profileID)
      ensures delivered == old(delivered) + Shown(Targets(items, aff.dstEndPoint, aff.profileID))
    {
      var pList: EpNode? := epList;
      if aff.dstEndPoint != AF_BROADCAST_ENDPOINT {
        pList := AfFindEndPointDescList(aff.dstEndPoint);
      }
      ghost var dst, profile := aff.dstEndPoint, aff.profileID;
      ghost var goal := delivered + Shown(Targets(items, dst, profile));
      ghost var i: nat := if dst == AF_BROADCAST_ENDPOINT then 0 else Find(items, dst);
      RestAtStart(items, dst, profile);
      while pList != null
        invariant Valid() && aff.dstEndPoint == dst && aff.profileID == profile
        invariant i <= |nodes| && pList == At(i)
        invariant delivered + Shown(Rest(items, i, dst, profile)) == goal
        invariant dst != AF_BROADCAST_ENDPOINT && i < |nodes| ==> items[i].desc.endPoint == dst
        decreases |nodes| - i
      {
        pList := Visit(aff, pList, i);
        i := After(items, i, dst);
      }
    }
  }

  // Each delivery shows the frame addressed to the endpoint it is delivered to.
  function Shown(eps: seq<byte>): (r: seq<(byte, byte)>)
    ensures |r| == |eps| && forall i :: 0 <= i < |eps| ==> r[i].0 == r[i].1 == eps[i]
  {
    seq(|eps|, i requires 0 <= i < |eps| => (eps[i], eps[i]))
  }

  function ShownOne(item: Item, profile: word): seq<(byte, byte)> {
    if Accepts(item, profile) then [(item.desc.endPoint, item.desc.endPoint)] else []
  }

  // What is still to be delivered when the walk stands at entry i.
  function Rest(items: seq<Item>, i: nat, dst: byte, profile: word): seq<byte>
    requires i <= |items|
  {
    if dst == AF_BROADCAST_ENDPOINT then Accepting(items[i..], profile)
    else if i < |items| && Accepts(items[i], profile) then [dst] else []
  }

  // Where the walk stands after entry i: a unicast frame is done.
  function After(items: seq<Item>, i: nat, dst: byte): (n: nat)
    requires i < |items|
    ensures i < n <= |items|
  {
    if dst == AF_BROADCAST_ENDPOINT then i + 1 else |items|
  }

  lemma RestAtStart(items: seq<Item>, dst: byte, profile: word)
    ensures Rest(items, if dst == AF_BROADCAST_ENDPOINT then 0 else Find(items, dst), dst, profile)
         == Targets(items, dst, profile)
  {
    assert items[0..] == items;
  }

  lemma RestNext(items: seq<Item>, i: nat, dst: byte, profile: word)
    requires i < |items| && (dst != AF_BROADCAST_ENDPOINT ==> items[i].desc.endPoint == dst)
    ensures Shown(Rest(items, i, dst, profile))
         == ShownOne(items[i], profile)
            + Shown(Rest(items, After(items, i, dst), dst, profile))
  {
    assert items[i..][0] == items[i] && items[i..][1..] == items[i + 1..];
  }

  lemma Regroup(a: seq<(byte, byte)>, b: seq<(byte, byte)>, c: seq<(byte, byte)>)
    ensures a + (b + c) == a + b + c
  {
  }
}
