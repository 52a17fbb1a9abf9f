/**
  The linked bind list: a list of sources, each with its own list of destinations, in heap
  nodes. It stands for a relation between sources and destinations.

  Whether an allocation succeeds is a parameter: srcRoom for a source node, dstRoom for a
  destination node.
 */
module BindList {
  import opened Words

  datatype Key = Key(shortAddr: word, ep: byte, cluster: word)
  datatype Dest = Dest(shortAddr: word, ep: byte)
  datatype Row = Row(key: Key, dests: seq<Dest>)

  // ---------- The lists as values ----------

  function FindSource(t: seq<Row>, key: Key): (k: nat)
    ensures k <= |t|
    ensures k < |t| ==> t[k].key == key
    ensures forall j :: 0 <= j < k ==> t[j].key != key
  {
    if t == [] then 0 else if t[0].key == key then 0 else 1 + FindSource(t[1..], key)
  }

  // bind: the new lists and the byte returned.
  function Bind(t: seq<Row>, key: Key, dest: Dest, srcRoom: bool, dstRoom: bool): (seq<Row>, byte) {
    var k := FindSource(t, key);
    if k == |t| then
      if !srcRoom then (t, 1) else if !dstRoom then (t, 0) else ([Row(key, [dest])] + t, 1)
    else if dest in t[k].dests then (t, 1)
    else if !dstRoom then (t, 0)
    else (t[k := Row(key, [dest] + t[k].dests)], 1)
  }

  ghost predicate Bound(t: seq<Row>, key: Key, dest: Dest) {
    exists i :: 0 <= i < |t| && t[i].key == key && dest in t[i].dests
  }

  ghost predicate Distinct(t: seq<Row>) {
    && (forall i, j :: 0 <= i < j < |t| ==> t[i].key != t[j].key)
    && (forall i :: 0 <= i < |t| ==> DestsDistinct(t[i].dests))
  }

  ghost predicate DestsDistinct(ds: seq<Dest>) {
    forall i, j :: 0 <= i < j < |ds| ==> ds[i] != ds[j]
  }

  // Whether this call could allocate every node it needed.
  ghost predicate HasRoom(t: seq<Row>, key: Key, dest: Dest, srcRoom: bool, dstRoom: bool) {
    Bound(t, key, dest) || (dstRoom && (srcRoom || FindSource(t, key) < |t|))
  }

  lemma BindKeepsDistinct(t: seq<Row>, key: Key, dest: Dest, srcRoom: bool, dstRoom: bool)
    requires Distinct(t)
    ensures Distinct(Bind(t, key, dest, srcRoom, dstRoom).0)
  {
    var t' := Bind(t, key, dest, srcRoom, dstRoom).0;
    var k := FindSource(t, key);
    if t' != t && k == |t| {
      assert DestsDistinct(t'[0].dests);
      assert forall i :: 1 <= i < |t'| ==> t'[i] == t[i - 1];
    } else if t' != t {
      assert DestsDistinct(t[k].dests) && DestsDistinct(t'[k].dests);
    }
  }

  // A pair is bound in t exactly when the first row with its key lists it.
  lemma BoundWhen(t: seq<Row>, key: Key, dest: Dest)
    requires Distinct(t)
    ensures Bound(t, key, dest) <==> FindSource(t, key) < |t| && dest in t[FindSource(t, key)].dests
  {
    var k := FindSource(t, key);
    if Bound(t, key, dest) {
      var i :| 0 <= i < |t| && t[i].key == key && dest in t[i].dests;
      assert i == k;
    }
  }

  lemma BoundInNewRow(t: seq<Row>, row: Row, x: Key, d: Dest)
    ensures Bound([row] + t, x, d) <==> Bound(t, x, d) || (x == row.key && d in row.dests)
  {
    var t' := [row] + t;
    assert t'[0] == row;
    if Bound(t, x, d) {
      var i :| 0 <= i < |t| && t[i].key == x && d in t[i].dests;
      assert t'[i + 1] == t[i];
    }
    if Bound(t', x, d) {
      var i :| 0 <= i < |t'| && t'[i].key == x && d in t'[i].dests;
      assert i > 0 ==> t[i - 1] == t'[i];
    }
  }

  lemma BoundInLongerRow(t: seq<Row>, k: nat, dest: Dest, x: Key, d: Dest)
    requires k < |t|
    ensures Bound(t[k := Row(t[k].key, [dest] + t[k].dests)], x, d) <==>
              Bound(t, x, d) || (x == t[k].key && d == dest)
  {
    var t' := t[k := Row(t[k].key, [dest] + t[k].dests)];
    assert t'[k].key == t[k].key && dest in t'[k].dests;
    if Bound(t, x, d) {
      var i :| 0 <= i < |t| && t[i].key == x && d in t[i].dests;
      assert t'[i].key == x && d in t'[i].dests;
    }
  }

  // bind keeps source keys and destinations distinct. It adds exactly the requested pair, and
  // only when it has the room; otherwise nothing changes.
  lemma BindRefinesRelation(t: seq<Row>, key: Key, dest: Dest, srcRoom: bool, dstRoom: bool)
    requires Distinct(t)
    ensures var t' := Bind(t, key, dest, srcRoom, dstRoom).0;
            && Distinct(t')
            && (forall k, d :: Bound(t', k, d) <==>
                  Bound(t, k, d) || (k == key && d == dest && HasRoom(t, key, dest, srcRoom, dstRoom)))
            && (t' == t <==> Bound(t, key, dest) || !HasRoom(t, key, dest, srcRoom, dstRoom))
  {
    var t' := Bind(t, key, dest, srcRoom, dstRoom).0;
    var k := FindSource(t, key);
    BindKeepsDistinct(t, key, dest, srcRoom, dstRoom);
    BoundWhen(t, key, dest);
    BoundWhen(t', key, dest);
    forall x, d ensures Bound(t', x, d) <==>
                  Bound(t, x, d) || (x == key && d == dest && HasRoom(t, key, dest, srcRoom, dstRoom))
    {
      if k == |t| && srcRoom && dstRoom {
        BoundInNewRow(t, Row(key, [dest]), x, d);
      } else if k < |t| && dest !in t[k].dests && dstRoom {
        BoundInLongerRow(t, k, dest, x, d);
      }
    }
  }

  // The byte returned says "bound" exactly when the pair is now bound, except when the source
  // node cannot be allocated: then it says so although nothing was recorded.
  lemma ReturnedByte(t: seq<Row>, key: Key, dest: Dest, srcRoom: bool, dstRoom: bool)
    requires Distinct(t)
    ensures var (t', r) := Bind(t, key, dest, srcRoom, dstRoom);
            && (r == 1 <==> Bound(t', key, dest) || (FindSource(t, key) == |t| && !srcRoom))
            && (FindSource(t, key) == |t| && !srcRoom ==> !Bound(t', key, dest))
            && (r == 0 || r == 1)
  {
    BindRefinesRelation(t, key, dest, srcRoom, dstRoom);
    BoundWhen(t, key, dest);
  }

  // ---------- Runs ----------

  datatype Request = Request(key: Key, dest: Dest, srcRoom: bool, dstRoom: bool)

  function Run(t: seq<Row>, rs: seq<Request>): seq<Row>
    decreases |rs|
  {
    if rs == [] then t
    else Run(Bind(t, rs[0].key, rs[0].dest, rs[0].srcRoom, rs[0].dstRoom).0, rs[1..])
  }

  // From any list, a run whose allocations succeed binds the old pairs and the requested ones,
  // in whatever order and however often they are asked for.
  lemma {:induction false} RunBindsRequests(t: seq<Row>, rs: seq<Request>)
    requires Distinct(t) && forall r :: r in rs ==> r.srcRoom && r.dstRoom
    ensures Distinct(Run(t, rs))
    ensures forall k, d :: Bound(Run(t, rs), k, d) <==>
              Bound(t, k, d) || exists i :: 0 <= i < |rs| && rs[i].key == k && rs[i].dest == d
    decreases |rs|
  {
    if rs != [] {
      var r := rs[0];
      assert r in rs;
      BindRefinesRelation(t, r.key, r.dest, r.srcRoom, r.dstRoom);
      var t1 := Bind(t, r.key, r.dest, r.srcRoom, r.dstRoom).0;
      RunBindsRequests(t1, rs[1..]);
      forall k, d ensures Bound(Run(t, rs), k, d) <==>
              Bound(t, k, d) || exists i :: 0 <= i < |rs| && rs[i].key == k && rs[i].dest == d
      {
        if exists i :: 0 <= i < |rs| && rs[i].key == k && rs[i].dest == d {
          var i :| 0 <= i < |rs| && rs[i].key == k && rs[i].dest == d;
          if i > 0 {
            assert rs[1..][i - 1] == rs[i];
          }
        }
        if exists i :: 0 <= i < |rs[1..]| && rs[1..][i].key == k && rs[1..][i].dest == d {
          var i :| 0 <= i < |rs[1..]| && rs[1..][i].key == k && rs[1..][i].dest == d;
          assert rs[i + 1] == rs[1..][i];
        }
      }
    }
  }

  // ---------- The lists as they are linked ----------

  class DstNode {
    var ep: byte
    var shortAddr: word
    var next: DstNode?

    constructor (dest: Dest, next: DstNode?)
      ensures this.shortAddr == dest.shortAddr && this.ep == dest.ep && this.next == next
    {
      this.ep, this.shortAddr, this.next := dest.ep, dest.shortAddr, next;
    }
  }

  class SrcNode {
    var ep: byte
    var shortAddr: word
    var clusterId: word
    var dst: DstNode?
    var next: SrcNode?

    constructor (key: Key, next: SrcNode?)
      ensures key == Key(shortAddr, ep, clusterId) && dst == null && this.next == next
    {
      ep, shortAddr, clusterId := key.ep, key.shortAddr, key.cluster;
      this.next := next;
      dst := null;
    }
  }

  class BindTable {
    var head: SrcNode?
    ghost var rows: seq<Row>
    ghost var srcs: seq<SrcNode>
    ghost var dsts: seq<seq<DstNode>>
    ghost var nodes: set<object>

    ghost function SrcAt(i: nat): SrcNode?
      reads this
    {
      if i < |srcs| then srcs[i] else null
    }

    static ghost function DstAt(ds: seq<DstNode>, j: nat): DstNode? {
      if j < |ds| then ds[j] else null
    }

    // The destination nodes hold the destinations in order and end in NULL.
    static ghost predicate DstList(ds: seq<DstNode>, dests: seq<Dest>)
      reads ds
    {
      && |ds| == |dests|
      && (forall j {:trigger ds[j].ep} :: 0 <= j < |ds| ==>
            ds[j].shortAddr == dests[j].shortAddr && ds[j].ep == dests[j].ep)
      && (forall j {:trigger ds[j].next} :: 0 <= j < |ds| ==> ds[j].next == DstAt(ds, j + 1))
    }

    // Source nodes linked in order, each once, and ending in NULL.
    static ghost predicate Spine(ss: seq<SrcNode>)
      reads ss
    {
      && (forall i, j :: 0 <= i < j < |ss| ==> ss[i] != ss[j])
      && (forall i {:trigger ss[i].next} :: 0 <= i < |ss| ==> ss[i].next == if i + 1 < |ss| then ss[i + 1] else null)
    }

    static lemma LongerSpine(src: SrcNode, ss: seq<SrcNode>)
      requires Spine(ss) && src !in ss && src.next == if ss == [] then null else ss[0]
      ensures Spine([src] + ss)
    {
      var longer := [src] + ss;
      forall i | 0 <= i < |longer| ensures longer[i].next == if i + 1 < |longer| then longer[i + 1] else null {
        if i > 0 {
          assert longer[i] == ss[i - 1];
        }
      }
    }

    // A source node holds the key of a row, and its list the row's destinations.
    static ghost predicate Held(src: SrcNode, ds: seq<DstNode>, row: Row)
      reads src, ds
    {
      src.dst == DstAt(ds, 0) && Key(src.shortAddr, src.ep, src.clusterId) == row.key && DstList(ds, row.dests)
    }

    static ghost predicate Within(dss: seq<seq<DstNode>>, nodes: set<object>) {
      forall i, j :: 0 <= i < |dss| && 0 <= j < |dss[i]| ==> dss[i][j] in nodes
    }

    static ghost predicate AllHeld(ss: seq<SrcNode>, dss: seq<seq<DstNode>>, rs: seq<Row>)
      requires |ss| == |dss| == |rs|
      reads ss, set i, j | 0 <= i < |dss| && 0 <= j < |dss[i]| :: dss[i][j]
    {
      forall i :: 0 <= i < |ss| ==> Held(ss[i], dss[i], rs[i])
    }

    static lemma MoreHeld(src: SrcNode, ds: seq<DstNode>, row: Row,
                          ss: seq<SrcNode>, dss: seq<seq<DstNode>>, rs: seq<Row>)
      requires |ss| == |dss| == |rs| && AllHeld(ss, dss, rs) && Held(src, ds, row)
      ensures AllHeld([src] + ss, [ds] + dss, [row] + rs)
    {
    }

    static lemma MoreWithin(ds: seq<DstNode>, dss: seq<seq<DstNode>>, nodes: set<object>, more: set<object>)
      requires Within(dss, nodes) && nodes <= more && forall d :: d in ds ==> d in more
      ensures Within([ds] + dss, more)
    {
    }

    // The nodes reached from head are srcs, in order and each once, and they hold rows.
    ghost predicate Valid()
      reads this, nodes
    {
      && this !in nodes && head == SrcAt(0) && |srcs| == |rows| == |dsts|
      && (forall i :: 0 <= i < |srcs| ==> srcs[i] in nodes)
      && Spine(srcs)
      && Within(dsts, nodes) && AllHeld(srcs, dsts, rows)
    }

    constructor InitBindingTable()
      ensures Valid() && rows == [] && fresh(nodes)
    {
      head, rows, srcs, dsts, nodes := null, [], [], [], {};
    }

    method FindSourceNode(key: Key) returns (src: SrcNode?)
      requires Valid()
      ensures src == SrcAt(FindSource(rows, key))
    {
      var iter := head;
      ghost var i := 0;
      while iter != null
        invariant i <= FindSource(rows, key) && i <= |srcs| && iter == SrcAt(i)
        decreases |srcs| - i
      {
        assert iter == srcs[i] && Held(srcs[i], dsts[i], rows[i]);
        if iter.shortAddr == key.shortAddr && iter.ep == key.ep && iter.clusterId == key.cluster {
          return iter;
        }
        iter := iter.next;
        i := i + 1;
      }
      return null;
    }

    // Puts a filled source node, with its one destination, at the head of the list.
    method LinkSource(src: SrcNode, node: DstNode, ghost row: Row)
      requires Valid() && src !in nodes && node !in nodes && this != src as object && this != node as object
      requires row.key == Key(src.shortAddr, src.ep, src.clusterId) && src.dst == node && src.next == head
      requires DstList([node], row.dests)
      modifies this
      ensures Valid() && rows == [row] + old(rows) && nodes == old(nodes) + {src, node}
    {
      LongerSpine(src, srcs);
      MoreHeld(src, [node], row, srcs, dsts, rows);
      MoreWithin([node], dsts, nodes, nodes + {src, node});
      head := src;
      rows, srcs, dsts, nodes := [row] + rows, [src] + srcs, [[node]] + dsts, nodes + {src, node};
    }

    method CreateSrc(key: Key, dest: Dest, srcRoom: bool, dstRoom: bool) returns (r: byte)
      requires Valid() && FindSource(rows, key) == |rows|
      modifies this
      ensures Valid() && fresh(nodes - old(nodes))
      ensures (rows, r) == Bind(old(rows), key, dest, srcRoom, dstRoom)
    {
      if srcRoom {
        var src := new SrcNode(key, head);
        if !dstRoom {
          return 0;
        }
        var node := new DstNode(dest, null);
        src.dst := node;
        LinkSource(src, node, Row(key, [dest]));
      }
      return 1;
    }

    // Puts a filled destination node at the head of a source's list.
    method LinkDest(src: SrcNode, node: DstNode, ghost k: nat, ghost dest: Dest)
      requires Valid() && k < |srcs| && src == srcs[k] && node !in nodes && this != node as object
      requires node.shortAddr == dest.shortAddr && node.ep == dest.ep && node.next == src.dst
      modifies this, src
      ensures Valid() && rows == old(rows)[k := Row(old(rows)[k].key, [dest] + old(rows)[k].dests)]
      ensures nodes == old(nodes) + {node}
    {
      assert Held(src, dsts[k], rows[k]);
      src.dst := node;
      ghost var oldDsts := dsts[k];
      rows := rows[k := Row(rows[k].key, [dest] + rows[k].dests)];
      dsts := dsts[k := [node] + dsts[k]];
      nodes := nodes + {node};
      forall j | 0 <= j < |dsts[k]|
        ensures dsts[k][j].shortAddr == rows[k].dests[j].shortAddr && dsts[k][j].ep == rows[k].dests[j].ep
        ensures dsts[k][j].next == DstAt(dsts[k], j + 1)
      {
        if j > 0 {
          assert dsts[k][j] == oldDsts[j - 1] && oldDsts[j - 1].ep == rows[k].dests[j].ep;
          assert oldDsts[j - 1].next == DstAt(oldDsts, j);
        }
      }
      assert Held(src, dsts[k], rows[k]);
    }

    method CreateDestIfNotFind(src: SrcNode, dest: Dest, dstRoom: bool, ghost k: nat) returns (r: byte)
      requires Valid() && k < |srcs| && src == srcs[k]
      requires FindSource(rows, rows[k].key) == k
      modifies this, src
      ensures Valid() && fresh(nodes - old(nodes))
      ensures (rows, r) == Bind(old(rows), old(rows)[k].key, dest, true, dstRoom)
    {
      var tempDest := src.dst;
      assert Held(src, dsts[k], rows[k]);
      ghost var j := 0;
      while tempDest != null
        invariant j <= |dsts[k]| && tempDest == DstAt(dsts[k], j) && dest !in rows[k].dests[..j]
        decreases |dsts[k]| - j
      {
        assert tempDest == dsts[k][j] && dsts[k][j].ep == rows[k].dests[j].ep;
        assert dsts[k][j].next == DstAt(dsts[k], j + 1);
        if tempDest.shortAddr == dest.shortAddr && tempDest.ep == dest.ep {
          assert rows[k].dests[j] == dest;
          return 1;
        }
        tempDest := tempDest.next;
        j := j + 1;
      }
      assert rows[k].dests[..j] == rows[k].dests;
      if !dstRoom {
        return 0;
      }
      var node := new DstNode(dest, src.dst);
      LinkDest(src, node, k, dest);
      return 1;
    }

    method BindEntry(key: Key, dest: Dest, srcRoom: bool, dstRoom: bool) returns (r: byte)
      requires Valid()
      modifies this, srcs
      ensures Valid() && fresh(nodes - old(nodes))
      ensures (rows, r) == Bind(old(rows), key, dest, srcRoom, dstRoom)
    {
      if head == null {
        r := CreateSrc(key, dest, srcRoom, dstRoom);
      } else {
        var src := FindSourceNode(key);
        if src == null {
          r := CreateSrc(key, dest, srcRoom, dstRoom);
        } else {
          r := CreateDestIfNotFind(src, dest, dstRoom, FindSource(rows, key));
        }
      }
    }
  }
}
