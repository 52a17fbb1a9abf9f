/**
  What adding and removing bindings does to the table and to the address manager's references,
  said of the destination itself: a group's id, or the entry an address resolves to.
 */
module BindingTableOutcome {
  import opened Words
  import opened BindingEntries
  import opened BindingTable

  // The address manager knows the address: it resolves to an entry that holds a reference.
  predicate Known(mgr: AddrMgr, addr: Addr, idx: word) {
    idx != INVALID_NODE_ADDR && addr in mgr.directory && mgr.directory[addr] == idx && idx in mgr.holders
  }

  predicate Unknown(mgr: AddrMgr, addr: Addr) {
    addr !in mgr.directory || mgr.directory[addr] !in mgr.holders || mgr.directory[addr] == INVALID_NODE_ADDR
  }

  predicate Single(addr: Addr) { addr.Short? || addr.Extended? }

  // ---------- Adding ----------

  // A slot that holds a record with this key.
  predicate Bound(e: Entry, srcEP: byte, mode: byte, idx: word, dstEP: byte) {
    e.srcEP == srcEP && e.dstGroupMode == mode && e.dstIdx == idx && e.dstEP == dstEP
  }

  // A record for a group carries the group's id and no endpoint; the address manager is left
  // alone.
  lemma AddGroup(s: State, width: byte, srcEP: byte, id: word, room: Option<word>, dstEP: byte, ids: seq<word>)
    requires TableOk(s.table, width)
    ensures var (s', r) := Add(s, width, srcEP, Group(id), room, dstEP, ids);
            && s'.mgr == s.mgr && (id == INVALID_NODE_ADDR ==> r.None?)
            && (r.Some? ==> r.value < |s'.table| && Bound(s'.table[r.value], srcEP, DSTGROUPMODE_GROUP, id, 0))
  {
    AddMeaning(s, width, srcEP, Group(id), room, dstEP, ids);
  }

  // An address that is known gets the very entry it resolves to, whatever else the manager could
  // offer, and leaves the manager alone.
  lemma AddKnown(s: State, width: byte, srcEP: byte, addr: Addr, idx: word, room: Option<word>, dstEP: byte,
                 ids: seq<word>)
    requires TableOk(s.table, width) && Single(addr) && Known(s.mgr, addr, idx)
    ensures var (s', r) := Add(s, width, srcEP, addr, room, dstEP, ids);
            && s'.mgr == s.mgr
            && (r.Some? ==> r.value < |s'.table| && Bound(s'.table[r.value], srcEP, DSTGROUPMODE_ADDR, idx, dstEP))
  {
    AddMeaning(s, width, srcEP, addr, room, dstEP, ids);
  }

  // One that is not known gets an entry from the manager, which then knows it; if there is none
  // nothing is added.
  lemma AddUnknown(s: State, width: byte, srcEP: byte, addr: Addr, room: Option<word>, dstEP: byte, ids: seq<word>)
    requires TableOk(s.table, width) && Single(addr) && Unknown(s.mgr, addr)
    ensures var (s', r) := Add(s, width, srcEP, addr, room, dstEP, ids);
            && (room.None? ==> s' == s && r.None?)
            && (room.Some? ==> s'.mgr == AddrMgr(s.mgr.directory[addr := room.value], s.mgr.holders + {room.value}))
            && (r.Some? ==>
                  && room.Some? && Known(s'.mgr, addr, room.value)
                  && r.value < |s'.table| && Bound(s'.table[r.value], srcEP, DSTGROUPMODE_ADDR, room.value, dstEP))
  {
    AddMeaning(s, width, srcEP, addr, room, dstEP, ids);
  }

  // Any other address binds nothing and changes nothing.
  lemma AddNowhere(s: State, width: byte, srcEP: byte, addr: Addr, room: Option<word>, dstEP: byte, ids: seq<word>)
    requires TableOk(s.table, width) && (addr.NotPresent? || addr.Broadcast?)
    ensures Add(s, width, srcEP, addr, room, dstEP, ids) == (s, None)
  {
  }

  // The destination idx an address stands for.
  predicate StandsFor(mgr: AddrMgr, addr: Addr, idx: word) {
    if addr.Group? then addr.id == idx != INVALID_NODE_ADDR else Known(mgr, addr, idx)
  }

  predicate BoundTo(e: Entry, srcEP: byte, addr: Addr, idx: word, dstEP: byte) {
    if addr.Group? then Bound(e, srcEP, DSTGROUPMODE_GROUP, idx, 0)
    else Bound(e, srcEP, DSTGROUPMODE_ADDR, idx, dstEP)
  }

  // The destination a record was added for: its slot, the first of its key, says so and the
  // address stands for it.
  lemma AddedFor(s: State, width: byte, srcEP: byte, addr: Addr, room: Option<word>, dstEP: byte, ids: seq<word>)
    returns (idx: word)
    requires TableOk(s.table, width) && Add(s, width, srcEP, addr, room, dstEP, ids).1.Some?
    ensures var (s', r) := Add(s, width, srcEP, addr, room, dstEP, ids);
            && StandsFor(s'.mgr, addr, idx)
            && r.value < |s'.table| == |s.table| && BoundTo(s'.table[r.value], srcEP, addr, idx, dstEP)
            && (forall j :: 0 <= j < r.value ==> !BoundTo(s'.table[j], srcEP, addr, idx, dstEP))
            && (forall j :: 0 <= j < |s.table| && j != r.value ==> s'.table[j] == s.table[j])
  {
    AddMeaning(s, width, srcEP, addr, room, dstEP, ids);
    var (s', r) := Add(s, width, srcEP, addr, room, dstEP, ids);
    idx := s'.table[r.value].dstIdx;
    match addr
    case Group(id) => AddGroup(s, width, srcEP, id, room, dstEP, ids);
    case Short(_) | Extended(_) =>
      if Unknown(s.mgr, addr) {
        AddUnknown(s, width, srcEP, addr, room, dstEP, ids);
      } else {
        AddKnown(s, width, srcEP, addr, s.mgr.directory[addr], room, dstEP, ids);
      }
    case _ => AddNowhere(s, width, srcEP, addr, room, dstEP, ids);
  }

  // An add for a destination that stands for idx, or is given it, fails only for want of room:
  // no record with its key and no empty slot, or a record whose list cannot take the clusters.
  lemma AddSucceedsExactly(s: State, width: byte, srcEP: byte, addr: Addr, idx: word, room: Option<word>, dstEP: byte,
                           ids: seq<word>)
    requires TableOk(s.table, width)
    requires addr.Group? || Single(addr)
    requires StandsFor(s.mgr, addr, idx)
             || (Single(addr) && Unknown(s.mgr, addr) && room == Some(idx) && idx != INVALID_NODE_ADDR)
    ensures var r := Add(s, width, srcEP, addr, room, dstEP, ids).1;
            && ((forall i :: 0 <= i < |s.table| ==> !BoundTo(s.table[i], srcEP, addr, idx, dstEP)) ==>
                  (r.Some? <==> exists i :: 0 <= i < |s.table| && !s.table[i].Live()))
            && forall i :: 0 <= i < |s.table| && BoundTo(s.table[i], srcEP, addr, idx, dstEP) && Counted(s.table[i])
                           && (forall j :: 0 <= j < i ==> !BoundTo(s.table[j], srcEP, addr, idx, dstEP)) ==>
                 (r == Some(i) <==>
                    |Clusters(s.table[i]) + Missing(ids, Clusters(s.table[i]))| <= width)
  {
    AddMeaning(s, width, srcEP, addr, room, dstEP, ids);
    var k := FindKey(s.table, srcEP, if addr.Group? then DSTGROUPMODE_GROUP else DSTGROUPMODE_ADDR, idx,
                     if addr.Group? then 0 else dstEP);
    assert k < |s.table| ==> BoundTo(s.table[k], srcEP, addr, idx, dstEP);
    assert forall j :: 0 <= j < |s.table| && BoundTo(s.table[j], srcEP, addr, idx, dstEP) ==> k <= j;
    assert AddrIndexGet(s.mgr, addr, room).1 == idx;
  }

  lemma AddKeepsTable(s: State, width: byte, srcEP: byte, addr: Addr, room: Option<word>, dstEP: byte, ids: seq<word>)
    requires TableOk(s.table, width)
    ensures TableOk(Add(s, width, srcEP, addr, room, dstEP, ids).0.table, width)
  {
    var op := AddOp(srcEP, addr, room, dstEP, ids);
    assert Apply(s, width, op) == Add(s, width, srcEP, addr, room, dstEP, ids).0;
  }

  // Adding once more for the same destination meets the same record, whatever the clusters and
  // whatever the manager has to offer by then.
  lemma AddTwice(s: State, width: byte, srcEP: byte, addr: Addr, room: Option<word>, dstEP: byte, ids: seq<word>,
                 room': Option<word>, ids': seq<word>)
    requires TableOk(s.table, width) && Add(s, width, srcEP, addr, room, dstEP, ids).1.Some?
    ensures var (s1, r1) := Add(s, width, srcEP, addr, room, dstEP, ids);
            && TableOk(s1.table, width)
            && var (s2, r2) := Add(s1, width, srcEP, addr, room', dstEP, ids');
               s2.mgr == s1.mgr && (r2.Some? ==> r2 == r1)
  {
    AddKeepsTable(s, width, srcEP, addr, room, dstEP, ids);
    var idx := AddedFor(s, width, srcEP, addr, room, dstEP, ids);
    var (s1, r1) := Add(s, width, srcEP, addr, room, dstEP, ids);
    AddMeaning(s1, width, srcEP, addr, room', dstEP, ids');
    if addr.Group? {
      AddGroup(s1, width, srcEP, addr.id, room', dstEP, ids');
    } else {
      AddNowhereElse(s, width, srcEP, addr, room, dstEP, ids);
      AddKnown(s1, width, srcEP, addr, idx, room', dstEP, ids');
    }
  }

  lemma AddNowhereElse(s: State, width: byte, srcEP: byte, addr: Addr, room: Option<word>, dstEP: byte,
                       ids: seq<word>)
    requires TableOk(s.table, width) && Add(s, width, srcEP, addr, room, dstEP, ids).1.Some?
    ensures addr.Group? || Single(addr)
  {
    if addr.NotPresent? || addr.Broadcast? {
      AddNowhere(s, width, srcEP, addr, room, dstEP, ids);
    }
  }

  // Records for two groups never meet: the second add leaves the first record as it was.
  lemma GroupsApart(s: State, width: byte, srcEP: byte, a: word, dstEP: byte, ids: seq<word>,
                    srcEP': byte, b: word, dstEP': byte, ids': seq<word>)
    requires TableOk(s.table, width) && a != b && srcEP != NV_BIND_EMPTY
    requires Add(s, width, srcEP, Group(a), None, dstEP, ids).1.Some?
    ensures var (s1, r1) := Add(s, width, srcEP, Group(a), None, dstEP, ids);
            && TableOk(s1.table, width)
            && var (s2, r2) := Add(s1, width, srcEP', Group(b), None, dstEP', ids');
               r2 != r1 && s2.table[r1.value] == s1.table[r1.value]
  {
    AddKeepsTable(s, width, srcEP, Group(a), None, dstEP, ids);
    var idx := AddedFor(s, width, srcEP, Group(a), None, dstEP, ids);
    var s1 := Add(s, width, srcEP, Group(a), None, dstEP, ids).0;
    AddMeaning(s1, width, srcEP', Group(b), None, dstEP', ids');
    AddGroup(s1, width, srcEP', b, None, dstEP', ids');
  }

  // ---------- Removing ----------

  ghost predicate NamesEntry(t: seq<Entry>, idx: word) {
    exists i :: 0 <= i < |t| && t[i].dstGroupMode == DSTGROUPMODE_ADDR && t[i].dstIdx == idx
  }

  // Clearing an index takes exactly its reference away, if it is valid and no address-mode slot
  // names it; else it changes nothing.
  lemma ClearsExactly(s: State, idx: word)
    ensures var s' := AddressClear(s, idx);
            && s'.table == s.table && s'.mgr.directory == s.mgr.directory
            && forall h: word :: h in s'.mgr.holders <==>
                 h in s.mgr.holders && !(h == idx && idx != INVALID_NODE_ADDR && !NamesEntry(s.table, idx))
  {
  }

  predicate AtDestination(e: Entry, addr: Addr, idx: word) {
    e.dstIdx == idx && e.dstGroupMode == if addr.Group? then DSTGROUPMODE_GROUP else DSTGROUPMODE_ADDR
  }

  // Removing a destination blanks exactly the slots bound to it, and takes its reference away
  // exactly when no address-mode slot is left that names it; for an address none is.
  lemma RemovesExactly(s: State, width: nat, addr: Addr, idx: word)
    requires StandsFor(s.mgr, addr, idx)
    ensures var s' := RemoveDev(s, width, addr);
            && |s'.table| == |s.table| && s'.mgr.directory == s.mgr.directory
            && (forall i :: 0 <= i < |s.table| ==>
                  s'.table[i] == if AtDestination(s.table[i], addr, idx) then Blank(width) else s.table[i])
            && (forall i :: 0 <= i < |s.table| ==> !AtDestination(s'.table[i], addr, idx))
            && (NamesEntry(s'.table, idx) ==> s'.mgr.holders == s.mgr.holders)
            && (!NamesEntry(s'.table, idx) ==> s'.mgr.holders == s.mgr.holders - {idx})
            && (!addr.Group? ==> idx !in s'.mgr.holders)
  {
    var s' := RemoveDev(s, width, addr);
    var dropped := DropDest(s.table, width, Mode(addr), idx, 0);
    ClearsExactly(s.(table := dropped), idx);
    assert s' == AddressClear(s.(table := dropped), idx);
  }

  // A destination that stands for nothing removes nothing.
  lemma RemovesNothing(s: State, width: nat, addr: Addr)
    requires if addr.Group? then addr.id == INVALID_NODE_ADDR else Unknown(s.mgr, addr)
    ensures RemoveDev(s, width, addr) == s
  {
  }

  // Removing the destination just added takes its record out again.
  lemma RemoveUndoesAdd(s: State, width: byte, srcEP: byte, addr: Addr, room: Option<word>, dstEP: byte,
                        ids: seq<word>)
    requires TableOk(s.table, width) && Add(s, width, srcEP, addr, room, dstEP, ids).1.Some?
    ensures var (s1, r) := Add(s, width, srcEP, addr, room, dstEP, ids);
            r.value < |s1.table| && RemoveDev(s1, width, addr).table[r.value] == Blank(width)
  {
    var idx := AddedFor(s, width, srcEP, addr, room, dstEP, ids);
    RemovesExactly(Add(s, width, srcEP, addr, room, dstEP, ids).0, width, addr, idx);
  }

  // ---------- Removing a source endpoint ----------

  predicate FromSource(e: Entry, ep: byte) { ep == 0xFF || e.srcEP == ep }

  // A slot from x on of that source names the index.
  ghost predicate SourceNames(t: seq<Entry>, ep: byte, x: nat, h: word) {
    exists i :: x <= i < |t| && FromSource(t[i], ep) && t[i].dstIdx == h
  }

  // Removing a source endpoint takes away exactly the references of valid indices that a removed
  // slot held and that no address-mode slot names any more.
  lemma {:induction false} SourceReferences(s: State, width: nat, ep: byte, x: nat, h: word)
    requires x <= |s.table|
    ensures var s' := DropSource(s, width, ep, x);
            && s'.mgr.directory == s.mgr.directory
            && (h in s'.mgr.holders <==>
                  && h in s.mgr.holders
                  && !(h != INVALID_NODE_ADDR && SourceNames(s.table, ep, x, h) && !NamesEntry(s'.table, h)))
    decreases |s.table| - x
  {
    var s' := DropSource(s, width, ep, x);
    if x < |s.table| {
      if FromSource(s.table[x], ep) {
        var d := s.table[x].dstIdx;
        var removed := RemoveEntry(s, width, x);
        var next := AddressClear(removed, d);
        ClearsExactly(removed, d);
        SourceReferences(next, width, ep, x + 1, h);
        NamedLater(s.table, next.table, s'.table, width, ep, x, h);
      } else {
        SourceReferences(s, width, ep, x + 1, h);
        assert SourceNames(s.table, ep, x, h) <==> SourceNames(s.table, ep, x + 1, h);
      }
    }
  }

  // From slot x on, before and after slot x is removed, and at the end: what names an index in
  // the end names it all along.
  lemma NamedLater(t: seq<Entry>, next: seq<Entry>, end: seq<Entry>, width: nat, ep: byte, x: nat, h: word)
    requires x < |t| == |end| && FromSource(t[x], ep) && next == t[x := Blank(width)]
    requires forall i :: 0 <= i < |t| ==>
               end[i] == if x + 1 <= i && FromSource(next[i], ep) then Blank(width) else next[i]
    ensures NamesEntry(end, h) ==> NamesEntry(next, h)
    ensures NamesEntry(next, h) ==> NamesEntry(end, h) || SourceNames(next, ep, x + 1, h)
    ensures SourceNames(t, ep, x, h) <==> t[x].dstIdx == h || SourceNames(next, ep, x + 1, h)
  {
    if NamesEntry(end, h) {
      var i :| 0 <= i < |end| && end[i].dstGroupMode == DSTGROUPMODE_ADDR && end[i].dstIdx == h;
      assert next[i] == end[i];
    }
    if NamesEntry(next, h) {
      NamedStill(next, end, width, ep, x, h);
    }
    SourceShift(t, next, width, ep, x, h);
  }

  lemma NamedStill(next: seq<Entry>, end: seq<Entry>, width: nat, ep: byte, x: nat, h: word)
    requires |next| == |end| && NamesEntry(next, h)
    requires forall i :: 0 <= i < |end| ==>
               end[i] == if x + 1 <= i && FromSource(next[i], ep) then Blank(width) else next[i]
    ensures NamesEntry(end, h) || SourceNames(next, ep, x + 1, h)
  {
    var i :| 0 <= i < |next| && next[i].dstGroupMode == DSTGROUPMODE_ADDR && next[i].dstIdx == h;
    if !(x + 1 <= i && FromSource(next[i], ep)) {
      assert end[i] == next[i];
    }
  }

  lemma SourceShift(t: seq<Entry>, next: seq<Entry>, width: nat, ep: byte, x: nat, h: word)
    requires x < |t| && FromSource(t[x], ep) && next == t[x := Blank(width)]
    ensures SourceNames(t, ep, x, h) <==> t[x].dstIdx == h || SourceNames(next, ep, x + 1, h)
  {
    if SourceNames(t, ep, x, h) && t[x].dstIdx != h {
      var i :| x <= i < |t| && FromSource(t[i], ep) && t[i].dstIdx == h;
      assert FromSource(next[i], ep);
    }
    if SourceNames(next, ep, x + 1, h) {
      var i :| x + 1 <= i < |next| && FromSource(next[i], ep) && next[i].dstIdx == h;
      assert FromSource(t[i], ep);
    }
  }
}
