/**
  The binding table in RAM: adding, removing and finding records, and the references the
  records hold on address manager entries.

  The address manager is seen through its BINDING references only: which entry index each
  address resolves to, and which entries hold a BINDING reference. A lookup for the BINDING
  user succeeds only on an entry that holds that reference; an update either fails, giving
  INVALID_NODE_ADDR, or gives an entry that holds it.
 */
module BindingTable {
  import opened Words
  import opened BindingEntries

  datatype Addr =
    | NotPresent
    | Group(id: word)
    | Short(nwkAddr: word)
    | Extended(extAddr: seq<byte>)
    | Broadcast(shortAddr: word)

  datatype AddrMgr = AddrMgr(directory: map<Addr, word>, holders: set<word>)
  {
    // AddrMgrEntryLookupNwk and AddrMgrEntryLookupExt on behalf of the BINDING user.
    function Lookup(addr: Addr): word {
      if addr in directory && directory[addr] in holders then directory[addr] else INVALID_NODE_ADDR
    }

    // AddrMgrEntryUpdate; `room` is the entry it picks, if it finds one.
    function Update(addr: Addr, room: Option<word>): (AddrMgr, word) {
      if room.None? then (this, INVALID_NODE_ADDR)
      else (AddrMgr(directory[addr := room.value], holders + {room.value}), room.value)
    }

    function Release(idx: word): AddrMgr { this.(holders := holders - {idx}) }
  }

  // bindAddrIndexGet
  function AddrIndexGet(mgr: AddrMgr, addr: Addr, room: Option<word>): (AddrMgr, word) {
    match addr
    case Group(id) => (mgr, id)
    case Short(_) | Extended(_) =>
      if mgr.Lookup(addr) != INVALID_NODE_ADDR then (mgr, mgr.Lookup(addr)) else mgr.Update(addr, room)
    case _ => (mgr, INVALID_NODE_ADDR)
  }

  // ---------- Records ----------

  // A slot is well formed for `width` cluster slots when it is blank or its count fits.
  ghost predicate WellFormed(e: Entry, width: nat) {
    |e.clusterIdList| == width && (e.numClusterIds <= width || e == Blank(width))
  }

  ghost predicate TableOk(t: seq<Entry>, width: nat) {
    forall i :: 0 <= i < |t| ==> WellFormed(t[i], width)
  }

  predicate Counted(e: Entry) { e.numClusterIds <= |e.clusterIdList| }

  function Clusters(e: Entry): seq<word>
    requires Counted(e)
  {
    e.clusterIdList[..e.numClusterIds]
  }

  predicate SameKey(e: Entry, srcEP: byte, mode: byte, idx: word, dstEP: byte) {
    e.srcEP == srcEP && e.dstGroupMode == mode && e.dstIdx == idx && e.dstEP == dstEP
  }

  // The first slot with the key, or |t|.
  function FindKey(t: seq<Entry>, srcEP: byte, mode: byte, idx: word, dstEP: byte): (k: nat)
    ensures k <= |t|
    ensures k < |t| ==> SameKey(t[k], srcEP, mode, idx, dstEP)
    ensures forall j :: 0 <= j < k ==> !SameKey(t[j], srcEP, mode, idx, dstEP)
  {
    if t == [] then 0
    else if SameKey(t[0], srcEP, mode, idx, dstEP) then 0
    else 1 + FindKey(t[1..], srcEP, mode, idx, dstEP)
  }

  // bindFindEmpty: the first slot not in use, or |t|.
  function FindEmpty(t: seq<Entry>): (k: nat)
    ensures k <= |t|
    ensures k < |t| ==> !t[k].Live()
    ensures forall j :: 0 <= j < k ==> t[j].Live()
  {
    if t == [] then 0 else if !t[0].Live() then 0 else 1 + FindEmpty(t[1..])
  }

  // The loop that adds cluster ids to an existing record; after the first id that does not
  // fit nothing more is added.
  function AddClusters(e: Entry, ids: seq<word>): (r: (Entry, bool))
    requires Counted(e) && |e.clusterIdList| <= 0xFF
    ensures Counted(r.0) && |r.0.clusterIdList| == |e.clusterIdList|
    decreases |ids|
  {
    if ids == [] then (e, true)
    else if ids[0] in Clusters(e) then AddClusters(e, ids[1..])
    else if e.numClusterIds < |e.clusterIdList| then
      AddClusters(e.(clusterIdList := e.clusterIdList[e.numClusterIds := ids[0]],
                     numClusterIds := e.numClusterIds + 1), ids[1..])
    else (e, false)
  }

  function NewEntry(slot: Entry, srcEP: byte, mode: byte, idx: word, dstEP: byte, ids: seq<word>): Entry
    requires |ids| <= |slot.clusterIdList| <= 0xFF
  {
    Entry(srcEP, mode, idx, dstEP, |ids|, ids + slot.clusterIdList[|ids|..])
  }

  function Cut(ids: seq<word>, n: nat): seq<word> { if |ids| <= n then ids else ids[..n] }

  // ---------- Table and address manager together ----------

  datatype State = State(table: seq<Entry>, mgr: AddrMgr)

  function Mode(addr: Addr): byte { if addr.Group? then DSTGROUPMODE_GROUP else DSTGROUPMODE_ADDR }

  // bindAddEntry; the result names the slot of the record returned, if one is.
  function Add(s: State, width: byte, srcEP: byte, addr: Addr, room: Option<word>, dstEP: byte, ids: seq<word>)
    : (State, Option<nat>)
    requires TableOk(s.table, width)
  {
    var (mgr, idx) := AddrIndexGet(s.mgr, addr, room);
    var ep: byte := if addr.Group? then 0 else dstEP;
    if idx == INVALID_NODE_ADDR then (State(s.table, mgr), None)
    else
      var k := FindKey(s.table, srcEP, Mode(addr), idx, ep);
      if k < |s.table| then
        var (e, ok) := AddClusters(s.table[k], ids);
        (State(s.table[k := e], mgr), if ok then Some(k) else None)
      else
        var f := FindEmpty(s.table);
        if f == |s.table| then (State(s.table, mgr), None)
        else (State(s.table[f := NewEntry(s.table[f], srcEP, Mode(addr), idx, ep, Cut(ids, width))], mgr), Some(f))
  }

  // bindAddressClear: the BINDING reference goes when no address-mode record names the entry.
  predicate Named(t: seq<Entry>, idx: word) {
    exists i :: 0 <= i < |t| && t[i].dstGroupMode == DSTGROUPMODE_ADDR && t[i].dstIdx == idx
  }

  function AddressClear(s: State, idx: word): State {
    if idx != INVALID_NODE_ADDR && !Named(s.table, idx) then s.(mgr := s.mgr.Release(idx)) else s
  }

  function RemoveEntry(s: State, width: nat, i: nat): State
    requires i < |s.table|
  {
    s.(table := s.table[i := Blank(width)])
  }

  function Destination(mgr: AddrMgr, addr: Addr): word {
    if addr.Group? then addr.id else mgr.Lookup(addr)
  }

  // Blanks, from slot x on, the records bound to destination idx.
  function DropDest(t: seq<Entry>, width: nat, mode: byte, idx: word, x: nat): (r: seq<Entry>)
    requires x <= |t|
    ensures |r| == |t|
    ensures forall i :: 0 <= i < |t| ==>
              r[i] == if x <= i && t[i].dstGroupMode == mode && t[i].dstIdx == idx then Blank(width) else t[i]
    decreases |t| - x
  {
    if x == |t| then t
    else if t[x].dstGroupMode == mode && t[x].dstIdx == idx then DropDest(t[x := Blank(width)], width, mode, idx, x + 1)
    else DropDest(t, width, mode, idx, x + 1)
  }

  // bindRemoveDev
  function RemoveDev(s: State, width: nat, addr: Addr): State {
    var idx := Destination(s.mgr, addr);
    if idx == INVALID_NODE_ADDR then s
    else AddressClear(s.(table := DropDest(s.table, width, Mode(addr), idx, 0)), idx)
  }

  // bindRemoveSrcDev's loop from slot x on
  function DropSource(s: State, width: nat, ep: byte, x: nat): (r: State)
    requires x <= |s.table|
    ensures |r.table| == |s.table|
    ensures forall i :: 0 <= i < |s.table| ==>
              r.table[i] == if x <= i && (ep == 0xFF || s.table[i].srcEP == ep) then Blank(width) else s.table[i]
    decreases |s.table| - x
  {
    if x == |s.table| then s
    else if ep == 0xFF || s.table[x].srcEP == ep then
      DropSource(AddressClear(RemoveEntry(s, width, x), s.table[x].dstIdx), width, ep, x + 1)
    else DropSource(s, width, ep, x + 1)
  }

  // Cluster ids other than c, in order.
  function Without(ids: seq<word>, c: word): (r: seq<word>)
    ensures |r| <= |ids|
    ensures forall d :: d in r <==> d in ids && d != c
  {
    if ids == [] then []
    else if ids[0] == c then Without(ids[1..], c)
    else [ids[0]] + Without(ids[1..], c)
  }

  // bindRemoveClusterIdFromList: the ids kept move to the front, the slots behind them keep
  // what they held.
  function RemoveCluster(e: Entry, c: word): (r: Entry)
    requires Counted(e)
    ensures Counted(r)
  {
    var kept := Without(Clusters(e), c);
    e.(numClusterIds := |kept|, clusterIdList := kept + e.clusterIdList[|kept|..])
  }

  // ---------- Keys ----------

  ghost predicate KeysDistinct(t: seq<Entry>) {
    forall i, j :: 0 <= i < j < |t| && t[i].Live() && t[j].Live() ==>
      !SameKey(t[i], t[j].srcEP, t[j].dstGroupMode, t[j].dstIdx, t[j].dstEP)
  }

  // Every live address-mode record's address manager entry holds a BINDING reference.
  ghost predicate RefsHeld(s: State) {
    forall i :: 0 <= i < |s.table| && s.table[i].Live() && s.table[i].dstGroupMode == DSTGROUPMODE_ADDR ==>
      s.table[i].dstIdx in s.mgr.holders
  }

  ghost predicate Valid(s: State, width: nat) {
    TableOk(s.table, width) && KeysDistinct(s.table) && RefsHeld(s)
  }

  lemma {:induction false} AddClustersKeepsKey(e: Entry, ids: seq<word>)
    requires Counted(e) && |e.clusterIdList| <= 0xFF
    ensures var r := AddClusters(e, ids).0;
            SameKey(r, e.srcEP, e.dstGroupMode, e.dstIdx, e.dstEP)
    decreases |ids|
  {
    if ids != [] {
      if ids[0] in Clusters(e) {
        AddClustersKeepsKey(e, ids[1..]);
      } else if e.numClusterIds < |e.clusterIdList| {
        AddClustersKeepsKey(e.(clusterIdList := e.clusterIdList[e.numClusterIds := ids[0]],
                               numClusterIds := e.numClusterIds + 1), ids[1..]);
      }
    }
  }

  // The ids not yet in `have`, each once, in the order they first occur.
  function Missing(ids: seq<word>, have: seq<word>): (r: seq<word>)
    ensures forall c :: c in r <==> c in ids && c !in have
    ensures Distinct(r)
    decreases |ids|
  {
    if ids == [] then []
    else if ids[0] in have then Missing(ids[1..], have)
    else
      var rest := Missing(ids[1..], have + [ids[0]]);
      assert forall k :: 0 <= k < |rest| ==> rest[k] in rest;
      [ids[0]] + rest
  }

  ghost predicate Distinct(ids: seq<word>) {
    forall i, j :: 0 <= i < j < |ids| ==> ids[i] != ids[j]
  }

  // Adding to an existing record appends the ids it lacks, cut at the list's width, and
  // succeeds exactly when nothing is cut.
  lemma {:induction false} AddClustersMeaning(e: Entry, ids: seq<word>)
    requires Counted(e) && |e.clusterIdList| <= 0xFF
    ensures var (r, ok) := AddClusters(e, ids);
            var all := Clusters(e) + Missing(ids, Clusters(e));
            && Clusters(r) == Cut(all, |e.clusterIdList|)
            && (ok <==> |all| <= |e.clusterIdList|)
    decreases |ids|
  {
    if ids == [] {
    } else if ids[0] in Clusters(e) {
      AddClustersMeaning(e, ids[1..]);
    } else if e.numClusterIds < |e.clusterIdList| {
      var e' := e.(clusterIdList := e.clusterIdList[e.numClusterIds := ids[0]],
                   numClusterIds := e.numClusterIds + 1);
      assert Clusters(e') == Clusters(e) + [ids[0]];
      AddClustersMeaning(e', ids[1..]);
      var rest := Missing(ids[1..], Clusters(e'));
      assert Clusters(e') + rest == Clusters(e) + ([ids[0]] + rest);
    }
  }

  // What bindAddEntry does to the table. Only the slot with the key changes, or the first
  // empty slot when no slot has the key. A returned record has the key; it lists its old ids
  // and all the new ones if it existed before, and just the ids that fit if it is new. When no
  // record is returned an existing one may still have gained some of the ids.
  lemma AddMeaning(s: State, width: byte, srcEP: byte, addr: Addr, room: Option<word>, dstEP: byte, ids: seq<word>)
    requires TableOk(s.table, width)
    ensures var (s', r) := Add(s, width, srcEP, addr, room, dstEP, ids);
            var idx := AddrIndexGet(s.mgr, addr, room).1;
            var ep: byte := if addr.Group? then 0 else dstEP;
            var k := FindKey(s.table, srcEP, Mode(addr), idx, ep);
            var slot := if k < |s.table| then k else FindEmpty(s.table);
            && |s'.table| == |s.table|
            && (forall j :: 0 <= j < |s.table| && j != slot ==> s'.table[j] == s.table[j])
            && (r.Some? ==>
                  && r.value == slot && slot < |s.table| && Counted(s'.table[slot])
                  && SameKey(s'.table[slot], srcEP, Mode(addr), idx, ep)
                  && (k < |s.table| ==>
                        && Counted(s.table[k])
                        && Clusters(s'.table[k]) == Clusters(s.table[k]) + Missing(ids, Clusters(s.table[k])))
                  && (k == |s.table| ==> Clusters(s'.table[slot]) == Cut(ids, width)))
            && (r.None? ==>
                  || s'.table == s.table
                  || (k < |s.table| && Counted(s.table[k]) && Counted(s'.table[k])
                      && Clusters(s.table[k]) <= Clusters(s'.table[k])
                      && forall c :: c in Clusters(s'.table[k]) ==> c in Clusters(s.table[k]) || c in ids))
            && (r.None? <==>
                  || idx == INVALID_NODE_ADDR
                  || slot == |s.table|
                  || (k < |s.table| && Counted(s.table[k])
                      && |Clusters(s.table[k]) + Missing(ids, Clusters(s.table[k]))| > width))
  {
    var idx := AddrIndexGet(s.mgr, addr, room).1;
    var ep: byte := if addr.Group? then 0 else dstEP;
    var k := FindKey(s.table, srcEP, Mode(addr), idx, ep);
    if idx != INVALID_NODE_ADDR && k < |s.table| {
      assert WellFormed(s.table[k], width);
      AddClustersMeaning(s.table[k], ids);
      AddClustersKeepsKey(s.table[k], ids);
    }
  }

  // Replacing one slot keeps everything when its new record is well formed, shares its key with
  // no other record in use, and has its reference if it needs one.
  lemma PutKeeps(s: State, width: nat, i: nat, e: Entry, mgr: AddrMgr)
    requires Valid(s, width) && i < |s.table| && WellFormed(e, width) && s.mgr.holders <= mgr.holders
    requires e.Live() && e.dstGroupMode == DSTGROUPMODE_ADDR ==> e.dstIdx in mgr.holders
    requires forall j :: 0 <= j < |s.table| && j != i && s.table[j].Live() ==>
               !SameKey(s.table[j], e.srcEP, e.dstGroupMode, e.dstIdx, e.dstEP)
    ensures Valid(State(s.table[i := e], mgr), width)
  {
    var t := s.table[i := e];
    assert forall j :: 0 <= j < |t| ==> t[j] == if j == i then e else s.table[j];
  }

  // The entry an address resolves to holds a BINDING reference, and no reference is lost.
  lemma IndexHeld(mgr: AddrMgr, addr: Addr, room: Option<word>)
    ensures var (mgr', idx) := AddrIndexGet(mgr, addr, room);
            mgr.holders <= mgr'.holders && (idx != INVALID_NODE_ADDR && !addr.Group? ==> idx in mgr'.holders)
  {
  }

  lemma AddKeeps(s: State, width: byte, srcEP: byte, addr: Addr, room: Option<word>, dstEP: byte, ids: seq<word>)
    requires Valid(s, width)
    ensures Valid(Add(s, width, srcEP, addr, room, dstEP, ids).0, width)
  {
    var (mgr, idx) := AddrIndexGet(s.mgr, addr, room);
    IndexHeld(s.mgr, addr, room);
    var ep: byte := if addr.Group? then 0 else dstEP;
    if idx != INVALID_NODE_ADDR {
      var k := FindKey(s.table, srcEP, Mode(addr), idx, ep);
      if k < |s.table| {
        assert WellFormed(s.table[k], width);
        AddClustersKeepsKey(s.table[k], ids);
        var e := AddClusters(s.table[k], ids).0;
        assert forall j :: 0 <= j < |s.table| && j != k && s.table[j].Live() ==>
            !SameKey(s.table[j], srcEP, Mode(addr), idx, ep) || !s.table[k].Live();
        if s.table[k].Live() {
          PutKeeps(s, width, k, e, mgr);
        } else {
          PutIdle(s, width, k, e, mgr);
        }
      } else if FindEmpty(s.table) < |s.table| {
        var f := FindEmpty(s.table);
        PutKeeps(s, width, f, NewEntry(s.table[f], srcEP, Mode(addr), idx, ep, Cut(ids, width)), mgr);
      }
    }
  }

  // A record not in use may be put anywhere.
  lemma PutIdle(s: State, width: nat, i: nat, e: Entry, mgr: AddrMgr)
    requires Valid(s, width) && i < |s.table| && WellFormed(e, width) && s.mgr.holders <= mgr.holders && !e.Live()
    ensures Valid(State(s.table[i := e], mgr), width)
  {
    var t := s.table[i := e];
    assert forall j :: 0 <= j < |t| ==> t[j] == if j == i then e else s.table[j];
  }

  lemma {:induction false} DropSourceKeeps(s: State, width: nat, ep: byte, x: nat)
    requires x <= |s.table| && Valid(s, width)
    ensures Valid(DropSource(s, width, ep, x), width)
    decreases |s.table| - x
  {
    if x < |s.table| {
      if ep == 0xFF || s.table[x].srcEP == ep {
        RemoveEntryKeeps(s, width, x);
        var s' := RemoveEntry(s, width, x);
        AddressClearKeeps(s', width, s.table[x].dstIdx);
        DropSourceKeeps(AddressClear(s', s.table[x].dstIdx), width, ep, x + 1);
      } else {
        DropSourceKeeps(s, width, ep, x + 1);
      }
    }
  }

  lemma RemoveEntryKeeps(s: State, width: nat, i: nat)
    requires i < |s.table| && Valid(s, width)
    ensures Valid(RemoveEntry(s, width, i), width)
  {
  }

  lemma AddressClearKeeps(s: State, width: nat, idx: word)
    requires Valid(s, width)
    ensures Valid(AddressClear(s, idx), width)
  {
  }

  lemma RemoveDevKeeps(s: State, width: nat, addr: Addr)
    requires Valid(s, width)
    ensures Valid(RemoveDev(s, width, addr), width)
  {
    var idx := Destination(s.mgr, addr);
    var s' := s.(table := DropDest(s.table, width, Mode(addr), idx, 0));
    assert Valid(s', width);
    AddressClearKeeps(s', width, idx);
  }

  lemma RemoveClusterKeeps(s: State, width: nat, i: nat, c: word)
    requires i < |s.table| && Valid(s, width) && Counted(s.table[i])
    ensures Valid(s.(table := s.table[i := RemoveCluster(s.table[i], c)]), width)
  {
  }

  // ---------- Whole runs ----------

  datatype Op =
    | AddOp(srcEP: byte, addr: Addr, room: Option<word>, dstEP: byte, ids: seq<word>)
    | RemoveEntryOp(slot: nat)
    | RemoveDevOp(addr: Addr)
    | RemoveSrcDevOp(ep: byte)
    | RemoveClusterOp(slot: nat, cluster: word)

  function Apply(s: State, width: byte, op: Op): (r: State)
    requires TableOk(s.table, width)
    ensures TableOk(r.table, width)
  {
    match op
    case AddOp(srcEP, addr, room, dstEP, ids) => Add(s, width, srcEP, addr, room, dstEP, ids).0
    case RemoveEntryOp(slot) => if slot < |s.table| then RemoveEntry(s, width, slot) else s
    case RemoveDevOp(addr) => RemoveDev(s, width, addr)
    case RemoveSrcDevOp(ep) => DropSource(s, width, ep, 0)
    case RemoveClusterOp(slot, c) =>
      if slot < |s.table| && Counted(s.table[slot]) then s.(table := s.table[slot := RemoveCluster(s.table[slot], c)])
      else s
  }

  function Run(s: State, width: byte, ops: seq<Op>): State
    requires TableOk(s.table, width)
    decreases |ops|
  {
    if ops == [] then s else Run(Apply(s, width, ops[0]), width, ops[1..])
  }

  // Through any run, no two records in use share a key and every address-mode record in use
  // has its BINDING reference; so a reference is released only when no record needs it.
  lemma {:induction false} RunKeeps(s: State, width: byte, ops: seq<Op>)
    requires Valid(s, width)
    ensures Valid(Run(s, width, ops), width)
    decreases |ops|
  {
    if ops != [] {
      match ops[0] {
        case AddOp(srcEP, addr, room, dstEP, ids) => AddKeeps(s, width, srcEP, addr, room, dstEP, ids);
        case RemoveEntryOp(slot) => if slot < |s.table| { RemoveEntryKeeps(s, width, slot); }
        case RemoveDevOp(addr) => RemoveDevKeeps(s, width, addr);
        case RemoveSrcDevOp(ep) => DropSourceKeeps(s, width, ep, 0);
        case RemoveClusterOp(slot, c) =>
          if slot < |s.table| && Counted(s.table[slot]) { RemoveClusterKeeps(s, width, slot, c); }
      }
      RunKeeps(Apply(s, width, ops[0]), width, ops[1..]);
    }
  }

  lemma RunFromInitial(size: nat, width: byte, mgr: AddrMgr, ops: seq<Op>)
    ensures var s := State(seq(size, _ => Blank(width)), mgr);
            Valid(s, width) && Valid(Run(s, width, ops), width)
  {
    RunKeeps(State(seq(size, _ => Blank(width)), mgr), width, ops);
  }

  // ---------- Finding by endpoint and cluster ----------

  predicate Match(e: Entry, ep: byte, c: word) {
    e.srcEP == ep && Counted(e) && c in Clusters(e)
  }

  // The slots that match, from slot x on, in table order.
  function Matches(t: seq<Entry>, ep: byte, c: word, x: nat := 0): (r: seq<nat>)
    requires x <= |t|
    ensures |r| <= |t| - x
    ensures forall i :: i in r ==> x <= i < |t|
    decreases |t| - x
  {
    if x == |t| then []
    else if Match(t[x], ep, c) then [x] + Matches(t, ep, c, x + 1)
    else Matches(t, ep, c, x + 1)
  }

  // The list of matches is exactly the matching slots.
  lemma {:induction false} MatchesMembers(t: seq<Entry>, ep: byte, c: word, x: nat)
    requires x <= |t|
    ensures forall i :: x <= i < |t| ==> (i in Matches(t, ep, c, x) <==> Match(t[i], ep, c))
    decreases |t| - x
  {
    if x < |t| {
      MatchesMembers(t, ep, c, x + 1);
    }
  }

  ghost predicate Increasing(s: seq<nat>) {
    forall j, k :: 0 <= j < k < |s| ==> s[j] < s[k]
  }

  // The matches come in table order, each once.
  lemma {:induction false} MatchesIncrease(t: seq<Entry>, ep: byte, c: word, x: nat)
    requires x <= |t|
    ensures Increasing(Matches(t, ep, c, x))
    decreases |t| - x
  {
    if x < |t| {
      MatchesIncrease(t, ep, c, x + 1);
      var m, rest := Matches(t, ep, c, x), Matches(t, ep, c, x + 1);
      if Match(t[x], ep, c) {
        assert forall k :: 0 <= k < |rest| ==> rest[k] in rest;
        assert m == [x] + rest;
      } else {
        assert m == rest;
      }
    }
  }

  // Changing one slot changes the matches only through that slot.
  lemma {:induction false} MatchesUpdate(t: seq<Entry>, ep: byte, c: word, x: nat, i: nat, e: Entry)
    requires x <= |t| && i < |t|
    ensures |Matches(t[i := e], ep, c, x)|
         == |Matches(t, ep, c, x)|
            + (if x <= i && Match(e, ep, c) then 1 else 0) - (if x <= i && Match(t[i], ep, c) then 1 else 0)
    decreases |t| - x
  {
    if x < |t| {
      MatchesUpdate(t, ep, c, x + 1, i, e);
    }
  }

  // Removing a cluster id from a record takes that record out of the matches for its endpoint
  // and that cluster, and leaves every other (endpoint, cluster) count as it was.
  lemma RemoveClusterCounts(t: seq<Entry>, i: nat, c: word, ep: byte, d: word)
    requires i < |t| && Counted(t[i])
    ensures var t' := t[i := RemoveCluster(t[i], c)];
            |Matches(t', ep, d)| ==
              |Matches(t, ep, d)| - (if ep == t[i].srcEP && d == c && c in Clusters(t[i]) then 1 else 0)
  {
    var e := RemoveCluster(t[i], c);
    assert Clusters(e) == Without(Clusters(t[i]), c);
    MatchesUpdate(t, ep, d, 0, i, e);
  }

  // The compaction loop at list position x with p ids kept so far.
  ghost predicate Compacting(e0: Entry, e: Entry, c: word, x: nat, p: nat)
    requires Counted(e0)
  {
    var kept := Without(Clusters(e0), c);
    && p <= x <= e0.numClusterIds && p <= |kept|
    && e == e0.(numClusterIds := e0.numClusterIds - (x - p), clusterIdList := kept[..p] + e0.clusterIdList[p..])
    && kept == kept[..p] + Without(Clusters(e0)[x..], c)
  }

  // One turn of the loop: the id at x is moved down to p, or dropped from the count.
  function CompactOne(e: Entry, c: word, x: nat, p: nat): (Entry, nat)
    requires p <= x < |e.clusterIdList| && 0 < e.numClusterIds
  {
    if e.clusterIdList[x] != c then (e.(clusterIdList := e.clusterIdList[p := e.clusterIdList[x]]), p + 1)
    else (e.(numClusterIds := e.numClusterIds - 1), p)
  }

  lemma CompactStep(e0: Entry, e: Entry, c: word, x: nat, p: nat)
    requires Counted(e0) && x < e0.numClusterIds && Compacting(e0, e, c, x, p)
    ensures p <= x < |e.clusterIdList| && 0 < e.numClusterIds
    ensures var (e', p') := CompactOne(e, c, x, p); Compacting(e0, e', c, x + 1, p')
  {
    var ids, kept := Clusters(e0), Without(Clusters(e0), c);
    assert e.clusterIdList[x] == ids[x];
    assert ids[x..][1..] == ids[x + 1..];
    if ids[x] != c {
      assert kept[p] == ids[x];
      assert kept[..p + 1] == kept[..p] + [ids[x]];
      assert e.clusterIdList[p := ids[x]] == kept[..p + 1] + e0.clusterIdList[p + 1..];
    }
  }

  // The loop may stop at the end of the list or as soon as no id is left.
  lemma CompactDone(e0: Entry, e: Entry, c: word, x: nat, p: nat)
    requires Counted(e0) && Compacting(e0, e, c, x, p)
    requires x == e0.numClusterIds || e.numClusterIds == 0
    ensures e == RemoveCluster(e0, c)
  {
    var kept := Without(Clusters(e0), c);
    assert Clusters(e0)[e0.numClusterIds..] == [];
    assert kept[..p] == kept;
  }

  // ---------- The table as it is updated in place ----------

  class BindingTable {
    const width: byte
    var bindingTable: array<Entry>
    var mgr: AddrMgr

    ghost function Abstract(): State
      reads this, bindingTable
    {
      State(bindingTable[..], mgr)
    }

    ghost predicate Ok()
      reads this, bindingTable
    {
      TableOk(bindingTable[..], width) && bindingTable.Length < 0x1_0000
    }

    constructor InitBindingTable(size: word, width: byte, mgr: AddrMgr)
      ensures Ok() && this.width == width && Abstract() == State(seq(size, _ => Blank(width)), mgr)
      ensures fresh(bindingTable)
    {
      this.width := width;
      this.mgr := mgr;
      var blank := Blank(width);
      bindingTable := new Entry[size](_ => blank);
      new;
      assert bindingTable[..] == seq(size, _ => Blank(width));
    }

    method BindFindEmpty() returns (x: nat)
      ensures x == FindEmpty(bindingTable[..])
    {
      x := 0;
      while x < bindingTable.Length && bindingTable[x].Live()
        invariant x <= FindEmpty(bindingTable[..])
      {
        x := x + 1;
      }
    }

    method BindIsClusterIDinList(i: nat, clusterId: word) returns (found: bool)
      requires i < bindingTable.Length && Counted(bindingTable[i])
      ensures found <==> clusterId in Clusters(bindingTable[i])
    {
      var x := 0;
      while x < bindingTable[i].numClusterIds
        invariant x <= bindingTable[i].numClusterIds
        invariant clusterId !in bindingTable[i].clusterIdList[..x]
      {
        if bindingTable[i].clusterIdList[x] == clusterId {
          return true;
        }
        x := x + 1;
      }
      return false;
    }

    method BindAddClusterIdToList(i: nat, clusterId: word) returns (added: bool)
      requires Ok() && i < bindingTable.Length && Counted(bindingTable[i])
      modifies bindingTable
      ensures var e := old(bindingTable[i]);
              && added == (e.numClusterIds < width)
              && bindingTable[..] == old(bindingTable[..])[i :=
                   if added then e.(clusterIdList := e.clusterIdList[e.numClusterIds := clusterId],
                                    numClusterIds := e.numClusterIds + 1)
                   else e]
    {
      var e := bindingTable[i];
      if e.numClusterIds < width {
        bindingTable[i] := e.(clusterIdList := e.clusterIdList[e.numClusterIds := clusterId],
                              numClusterIds := e.numClusterIds + 1);
        return true;
      }
      return false;
    }

    method FindByKey(srcEP: byte, mode: byte, idx: word, dstEP: byte) returns (k: nat)
      ensures k == FindKey(bindingTable[..], srcEP, mode, idx, dstEP)
    {
      k := 0;
      while k < bindingTable.Length && !SameKey(bindingTable[k], srcEP, mode, idx, dstEP)
        invariant k <= FindKey(bindingTable[..], srcEP, mode, idx, dstEP)
      {
        k := k + 1;
      }
    }

    method AddNew(srcEP: byte, mode: byte, idx: word, dstEP: byte, clusterIds: seq<word>) returns (entry: Option<nat>)
      requires Ok()
      modifies bindingTable
      ensures Ok()
      ensures var t := old(bindingTable[..]);
              var f := FindEmpty(t);
              if f == |t| then entry == None && bindingTable[..] == t
              else
                && entry == Some(f) && |Cut(clusterIds, width)| <= |t[f].clusterIdList| <= 0xFF
                && bindingTable[..] == t[f := NewEntry(t[f], srcEP, mode, idx, dstEP, Cut(clusterIds, width))]
    {
      var f := BindFindEmpty();
      entry := None;
      if f < bindingTable.Length {
        assert WellFormed(bindingTable[..][f], width);
        SetEntry(f, NewEntry(bindingTable[f], srcEP, mode, idx, dstEP, Cut(clusterIds, width)));
        entry := Some(f);
      }
    }

    method BindAddEntry(srcEP: byte, addr: Addr, room: Option<word>, dstEP: byte, clusterIds: seq<word>)
      returns (entry: Option<nat>)
      requires Ok() && |clusterIds| <= 0xFF
      modifies this`mgr, bindingTable
      ensures Ok() && bindingTable == old(bindingTable)
      ensures (Abstract(), entry) == Add(old(Abstract()), width, srcEP, addr, room, dstEP, clusterIds)
    {
      var (m, dstIndex) := AddrIndexGet(mgr, addr, room);
      mgr := m;
      var mode, ep := Mode(addr), if addr.Group? then 0 else dstEP;
      entry := None;
      if dstIndex != INVALID_NODE_ADDR {
        var k := FindByKey(srcEP, mode, dstIndex, ep);
        if k < bindingTable.Length {
          assert WellFormed(bindingTable[..][k], width);
          entry := AddToExisting(k, clusterIds);
        } else {
          entry := AddNew(srcEP, mode, dstIndex, ep, clusterIds);
        }
      }
    }

    method AddToExisting(k: nat, clusterIds: seq<word>) returns (entry: Option<nat>)
      requires Ok() && k < bindingTable.Length && Counted(bindingTable[k])
      modifies bindingTable
      ensures Ok()
      ensures var (e, ok) := AddClusters(old(bindingTable[k]), clusterIds);
              bindingTable[..] == old(bindingTable[..])[k := e] && entry == if ok then Some(k) else None
    {
      ghost var t0 := bindingTable[..];
      entry := Some(k);
      var index := 0;
      while index < |clusterIds|
        invariant index <= |clusterIds| && Counted(bindingTable[k]) && |bindingTable[k].clusterIdList| == width
        invariant bindingTable[..] == t0[k := bindingTable[k]]
        invariant entry == Some(k) ==>
                    AddClusters(bindingTable[k], clusterIds[index..]) == AddClusters(t0[k], clusterIds)
        invariant entry != Some(k) ==>
                    entry == None && AddClusters(t0[k], clusterIds) == (bindingTable[k], false)
      {
        // A NULL entry takes part in no further step.
        if entry.Some? {
          var found := BindIsClusterIDinList(k, clusterIds[index]);
          assert clusterIds[index..][1..] == clusterIds[index + 1..];
          if !found {
            var added := BindAddClusterIdToList(k, clusterIds[index]);
            if !added {
              entry := None;
            }
          }
        }
        index := index + 1;
      }
    }

    method BindRemoveEntry(i: nat)
      requires Ok() && i < bindingTable.Length
      modifies bindingTable
      ensures Ok() && Abstract() == RemoveEntry(old(Abstract()), width, i)
    {
      bindingTable[i] := Blank(width);
      assert bindingTable[..] == old(bindingTable[..])[i := Blank(width)];
    }

    method BindAddressClear(dstIdx: word)
      modifies this`mgr
      ensures Abstract() == AddressClear(old(Abstract()), dstIdx)
    {
      if dstIdx != INVALID_NODE_ADDR {
        var i := 0;
        while i < bindingTable.Length
              && !(bindingTable[i].dstGroupMode == DSTGROUPMODE_ADDR && bindingTable[i].dstIdx == dstIdx)
          invariant i <= bindingTable.Length
          invariant forall j :: 0 <= j < i ==>
                      !(bindingTable[j].dstGroupMode == DSTGROUPMODE_ADDR && bindingTable[j].dstIdx == dstIdx)
        {
          i := i + 1;
        }
        if i == bindingTable.Length {
          mgr := mgr.Release(dstIdx);
        } else {
          assert bindingTable[..][i].dstIdx == dstIdx;
        }
      }
    }

    method BindRemoveDev(addr: Addr)
      requires Ok()
      modifies this`mgr, bindingTable
      ensures Ok() && bindingTable == old(bindingTable)
      ensures Abstract() == RemoveDev(old(Abstract()), width, addr)
    {
      var idx := Destination(mgr, addr);
      if idx == INVALID_NODE_ADDR {
        return;
      }
      var mode := Mode(addr);
      ghost var t0 := bindingTable[..];
      for x := 0 to bindingTable.Length
        invariant Ok() && mgr == old(mgr)
        invariant DropDest(bindingTable[..], width, mode, idx, x) == DropDest(t0, width, mode, idx, 0)
      {
        if bindingTable[x].dstGroupMode == mode && bindingTable[x].dstIdx == idx {
          BindRemoveEntry(x);
        }
      }
      BindAddressClear(idx);
    }

    method BindRemoveSrcDev(ep: byte)
      requires Ok()
      modifies this`mgr, bindingTable
      ensures Ok() && bindingTable == old(bindingTable)
      ensures Abstract() == DropSource(old(Abstract()), width, ep, 0)
    {
      ghost var s0 := Abstract();
      for x := 0 to bindingTable.Length
        invariant Ok()
        invariant DropSource(Abstract(), width, ep, x) == DropSource(s0, width, ep, 0)
      {
        if ep == 0xFF || ep == bindingTable[x].srcEP {
          var idx := bindingTable[x].dstIdx;
          BindRemoveEntry(x);
          BindAddressClear(idx);
        }
      }
    }

    method BindNumReflections(ep: byte, clusterID: word) returns (cnt: word)
      requires Ok() && ep != 0xFF
      ensures cnt == |Matches(bindingTable[..], ep, clusterID, 0)|
    {
      cnt := 0;
      for x := 0 to bindingTable.Length
        invariant cnt <= x
        invariant cnt + |Matches(bindingTable[..], ep, clusterID, x)| == |Matches(bindingTable[..], ep, clusterID, 0)|
      {
        assert WellFormed(bindingTable[..][x], width);
        if bindingTable[x].srcEP == ep {
          var found := BindIsClusterIDinList(x, clusterID);
          if found {
            cnt := cnt + 1;
          }
        }
      }
    }

    method BindFind(ep: byte, clusterID: word, skipping: byte) returns (r: Option<nat>)
      requires Ok() && ep != 0xFF
      ensures var m := Matches(bindingTable[..], ep, clusterID, 0);
              r == if skipping < |m| then Some(m[skipping]) else None
    {
      var skipped := 0;
      ghost var all := Matches(bindingTable[..], ep, clusterID, 0);
      for x := 0 to bindingTable.Length
        invariant skipped <= skipping && skipped <= |all|
        invariant Matches(bindingTable[..], ep, clusterID, x) == all[skipped..]
      {
        assert WellFormed(bindingTable[..][x], width);
        if bindingTable[x].srcEP == ep {
          var found := BindIsClusterIDinList(x, clusterID);
          if found {
            assert all[skipped] == x;
            if skipped < skipping {
              skipped := skipped + 1;
            } else {
              return Some(x);
            }
          }
        }
      }
      return None;
    }

    method SetEntry(i: nat, e: Entry)
      requires i < bindingTable.Length
      modifies bindingTable
      ensures bindingTable[..] == old(bindingTable[..])[i := e]
    {
      bindingTable[i] := e;
    }

    // The ids kept are moved to the front of the list as it is walked.
    method BindRemoveClusterIdFromList(i: nat, clusterId: word) returns (left: bool)
      requires Ok() && i < bindingTable.Length && Counted(bindingTable[i])
      modifies bindingTable
      ensures bindingTable[..] == old(bindingTable[..])[i := RemoveCluster(old(bindingTable[i]), clusterId)]
      ensures left <==> RemoveCluster(old(bindingTable[i]), clusterId).numClusterIds > 0
    {
      ghost var t0, e0 := bindingTable[..], bindingTable[i];
      var listPtr, numIds, x := 0, bindingTable[i].numClusterIds, 0;
      var e := bindingTable[i];
      while x < numIds
        invariant bindingTable[..] == t0[i := e]
        invariant Compacting(e0, e, clusterId, x, listPtr)
      {
        CompactStep(e0, e, clusterId, x, listPtr);
        var (next, ptr) := CompactOne(e, clusterId, x, listPtr);
        e, listPtr := next, ptr;
        SetEntry(i, e);
        x := x + 1;
        if e.numClusterIds == 0 {
          break;
        }
      }
      CompactDone(e0, e, clusterId, x, listPtr);
      left := e.numClusterIds > 0;
    }
  }
}
