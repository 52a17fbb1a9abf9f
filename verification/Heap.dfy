/**
  The first-fit heap: one byte arena tiled by blocks, each starting with a header.

  A header takes eight bytes: flags (bit 0 named, bit 1 referenced, bit 2 in use), id, next and
  prev, 16-bit fields little-endian. Pointers are 16-bit addresses into the RAM image, 0 is
  NULL, and the arena is the part of the image from theHeap to its end.
 */
module Heap {
  import opened Words

  const HDR := 8
  const PTR := 2
  const FILL: byte := 0x42

  // ---------- The RAM image ----------

  function WordAt(m: seq<byte>, a: nat): word
    requires a + 2 <= |m|
  {
    BuildWord(m[a], m[a + 1])
  }

  function Put(m: seq<byte>, a: nat, w: word): (r: seq<byte>)
    requires a + 2 <= |m|
    ensures |r| == |m| && WordAt(r, a) == w
    ensures forall i :: 0 <= i < |m| && i != a && i != a + 1 ==> r[i] == m[i]
  {
    m[a := Lo(w)][a + 1 := Hi(w)]
  }

  predicate InUse(m: seq<byte>, a: nat)
    requires a < |m|
  {
    m[a] / 4 % 2 == 1
  }

  function Cleared(flags: byte): byte { if flags / 4 % 2 == 1 then flags - 4 else flags }

  function Marked(flags: byte): byte { if flags / 4 % 2 == 1 then flags else flags + 4 }

  function Named(flags: byte, named: bool): byte {
    if named && flags % 2 == 0 then flags + 1 else if !named && flags % 2 == 1 then flags - 1 else flags
  }

  lemma FlagBits(flags: byte, named: bool)
    ensures Named(Marked(flags), named) / 4 % 2 == 1
    ensures Named(Marked(flags), named) % 2 == 1 <==> named
  {
  }

  function Next(m: seq<byte>, a: nat): word
    requires a + HDR <= |m|
  {
    WordAt(m, a + 4)
  }

  function Prev(m: seq<byte>, a: nat): word
    requires a + HDR <= |m|
  {
    WordAt(m, a + 6)
  }

  // ---------- Blocks ----------

  datatype Block = Block(start: nat, end: nat, inUse: bool, prev: nat)

  ghost predicate HeaderAt(m: seq<byte>, b: Block) {
    && b.start + HDR <= b.end <= |m|
    && Next(m, b.start) == b.end && Prev(m, b.start) == b.prev && InUse(m, b.start) == b.inUse
  }

  // The blocks lie end to end from lo to hi, each long enough for its header.
  ghost predicate Tiles(bs: seq<Block>, lo: nat, hi: nat) {
    if bs == [] then lo == hi
    else bs[0].start == lo && lo + HDR <= bs[0].end && Tiles(bs[1..], bs[0].end, hi)
  }

  ghost predicate Links(bs: seq<Block>, lo: nat) {
    forall b :: b in bs ==> b.prev == 0 || lo <= b.prev < b.start
  }

  ghost predicate Headers(m: seq<byte>, bs: seq<Block>) {
    forall b :: b in bs ==> HeaderAt(m, b)
  }

  // The image's chain of headers from lo is exactly the list of blocks.
  ghost predicate Rep(m: seq<byte>, lo: nat, bs: seq<Block>) {
    0 < lo < |m| <= 0xFFF0 && Tiles(bs, lo, |m|) && Links(bs, lo) && Headers(m, bs)
  }

  lemma {:induction false} Within(bs: seq<Block>, lo: nat, hi: nat)
    requires Tiles(bs, lo, hi)
    ensures lo <= hi && forall b :: b in bs ==> lo <= b.start && b.start + HDR <= b.end <= hi
  {
    if bs != [] {
      Within(bs[1..], bs[0].end, hi);
      assert forall b :: b in bs ==> b == bs[0] || b in bs[1..];
    }
  }

  lemma {:induction false} Join(a: seq<Block>, b: seq<Block>, lo: nat, mid: nat, hi: nat)
    requires Tiles(a, lo, mid) && Tiles(b, mid, hi)
    ensures Tiles(a + b, lo, hi)
  {
    if a == [] {
      assert a + b == b;
    } else {
      assert (a + b)[1..] == a[1..] + b;
      Join(a[1..], b, a[0].end, mid, hi);
    }
  }

  // Around block k: what lies before it ends at its start, what lies after begins at its end.
  lemma {:induction false} Around(bs: seq<Block>, lo: nat, hi: nat, k: nat)
    requires Tiles(bs, lo, hi) && k < |bs|
    ensures Tiles(bs[..k], lo, bs[k].start) && bs[k].start + HDR <= bs[k].end && Tiles(bs[k + 1..], bs[k].end, hi)
  {
    if k > 0 {
      Around(bs[1..], bs[0].end, hi, k - 1);
      assert bs[..k][1..] == bs[1..][..k - 1];
      assert bs[1..][k..] == bs[k + 1..];
    }
  }

  // The chain in memory determines the list of blocks.
  lemma {:induction false} ChainUnique(m: seq<byte>, bs: seq<Block>, cs: seq<Block>, lo: nat)
    requires Tiles(bs, lo, |m|) && Tiles(cs, lo, |m|) && Headers(m, bs) && Headers(m, cs)
    ensures bs == cs
  {
    Within(bs, lo, |m|);
    Within(cs, lo, |m|);
    if bs != [] {
      assert bs[0] in bs && cs[0] in cs;
      assert HeaderAt(m, bs[0]) && HeaderAt(m, cs[0]);
      ChainUnique(m, bs[1..], cs[1..], bs[0].end);
      assert bs == [bs[0]] + bs[1..] && cs == [cs[0]] + cs[1..];
    }
  }

  // ---------- Allocation over blocks ----------

  function NameLen(name: Option<seq<byte>>): nat {
    if name.None? then 0 else 2 + |name.value|
  }

  // Bytes a request takes: payload, four spare bytes, the name and line, header and back cell.
  function Need(size: nat, name: Option<seq<byte>>): nat {
    size + 4 + NameLen(name) + HDR + PTR
  }

  // The 16-bit value the code computes for it.
  function Need16(size: word, name: Option<seq<byte>>): word {
    ((size + 4) % 0x1_0000 + NameLen(name) + HDR + PTR) % 0x1_0000
  }

  // The 16-bit computation is right exactly when the true need fits sixteen bits; beyond that
  // it is too small for the request.
  lemma NeedWraps(size: word, name: Option<seq<byte>>)
    requires name.Some? ==> |name.value| <= 0xFF
    ensures Need16(size, name) == Need(size, name) <==> Need(size, name) < 0x1_0000
    ensures Need(size, name) >= 0x1_0000 ==> Need16(size, name) < size
  {
  }

  // What a request takes besides its size: four spare bytes, the header, the back cell, and a name
  // with its line number if it is given one.
  lemma NeedExactly(size: nat, name: Option<seq<byte>>)
    ensures Need(size, name) == size + 14 + if name.Some? then |name.value| + 2 else 0
  {
  }

  // The 16-bit need is what the block is carved by: the block then holds header, name, back cell
  // and payload exactly when the true need fits sixteen bits.
  lemma CarvedHoldsExactly(b: Block, size: word, name: Option<seq<byte>>)
    requires name.Some? ==> |name.value| <= 0xFF
    requires b.start + HDR <= b.end <= 0xFFF0 && Fits(b, Need16(size, name))
    ensures b.start + HDR + NameLen(name) + PTR + size <= Carved(b, Need16(size, name))[0].end <==>
              Need(size, name) < 0x1_0000
  {
  }

  predicate Fits(b: Block, need: nat) { !b.inUse && b.end - b.start >= need }

  // The first free block that is large enough, or |bs|.
  function FirstFit(bs: seq<Block>, need: nat): (k: nat)
    ensures k <= |bs|
    ensures k < |bs| ==> Fits(bs[k], need)
    ensures forall j :: 0 <= j < k ==> !Fits(bs[j], need)
  {
    if bs == [] then 0 else if Fits(bs[0], need) then 0 else 1 + FirstFit(bs[1..], need)
  }

  // That is the first block that is free and at least as long as needed.
  lemma FirstFitExactly(bs: seq<Block>, need: nat)
    ensures var k := FirstFit(bs, need);
            && (k < |bs| ==> !bs[k].inUse && need <= bs[k].end - bs[k].start)
            && (forall j :: 0 <= j < k ==> bs[j].inUse || bs[j].end - bs[j].start < need)
            && (k == |bs| <==> forall j :: 0 <= j < |bs| ==> bs[j].inUse || bs[j].end - bs[j].start < need)
  {
  }

  predicate Splits(b: Block, need: nat) { b.end - b.start > need + HDR }

  function Carved(b: Block, need: nat): seq<Block> {
    if Splits(b, need) then [Block(b.start, b.start + need, true, b.prev), Block(b.start + need, b.end, false, b.start)]
    else [b.(inUse := true)]
  }

  function Carve(bs: seq<Block>, k: nat, need: nat): seq<Block>
    requires k < |bs|
  {
    bs[..k] + Carved(bs[k], need) + bs[k + 1..]
  }

  // ---------- Release over blocks ----------

  predicate MergesBack(bs: seq<Block>, k: nat)
    requires k < |bs|
  {
    k > 0 && bs[k].prev == bs[k - 1].start && !bs[k - 1].inUse
  }

  predicate MergesOn(bs: seq<Block>, k: nat)
    requires k < |bs|
  {
    k + 1 < |bs| && !bs[k + 1].inUse
  }

  function First(bs: seq<Block>, k: nat): nat
    requires k < |bs|
  {
    if MergesBack(bs, k) then k - 1 else k
  }

  function Last(bs: seq<Block>, k: nat): nat
    requires k < |bs|
  {
    if MergesOn(bs, k) then k + 1 else k
  }

  function Released(bs: seq<Block>, k: nat): Block
    requires k < |bs|
  {
    Block(bs[First(bs, k)].start, bs[Last(bs, k)].end, false, bs[First(bs, k)].prev)
  }

  function Release(bs: seq<Block>, k: nat): seq<Block>
    requires k < |bs|
  {
    bs[..First(bs, k)] + [Released(bs, k)] + bs[Last(bs, k) + 1..]
  }

  // ---------- What stays live ----------

  // The extents of the blocks in use, in address order.
  function Live(bs: seq<Block>): seq<(nat, nat)> {
    if bs == [] then []
    else (if bs[0].inUse then [(bs[0].start, bs[0].end)] else []) + Live(bs[1..])
  }

  lemma Assoc(x: seq<(nat, nat)>, y: seq<(nat, nat)>, z: seq<(nat, nat)>)
    ensures x + (y + z) == x + y + z
  {
  }

  lemma {:induction false} LiveConcat(a: seq<Block>, b: seq<Block>)
    ensures Live(a + b) == Live(a) + Live(b)
  {
    if a == [] {
      assert a + b == b;
    } else {
      var h := if a[0].inUse then [(a[0].start, a[0].end)] else [];
      LiveConcat(a[1..], b);
      assert (a + b)[0] == a[0] && (a + b)[1..] == a[1..] + b;
      Assoc(h, Live(a[1..]), Live(b));
    }
  }

  lemma Live3(a: seq<Block>, b: seq<Block>, c: seq<Block>)
    ensures Live(a + b + c) == Live(a) + Live(b) + Live(c)
  {
    LiveConcat(a + b, c);
    LiveConcat(a, b);
  }

  lemma Join3(a: seq<Block>, b: seq<Block>, c: seq<Block>, lo: nat, x: nat, y: nat, hi: nat)
    requires Tiles(a, lo, x) && Tiles(b, x, y) && Tiles(c, y, hi)
    ensures Tiles(a + b + c, lo, hi)
  {
    Join(a, b, lo, x, y);
    Join(a + b, c, lo, y, hi);
  }

  // The piece of a free block that a carving takes, and what it leaves.
  lemma CarvedPiece(b: Block, lo: nat, need: nat)
    requires Fits(b, need) && HDR <= need && b.start + HDR <= b.end
    requires 0 < lo <= b.start && (b.prev == 0 || lo <= b.prev < b.start)
    ensures var mid := Carved(b, need);
            && Tiles(mid, b.start, b.end) && Links(mid, lo)
            && mid[0].start == b.start && b.start + need <= mid[0].end <= b.end
            && Live(mid) == [(mid[0].start, mid[0].end)] && Live([b]) == []
  {
    var mid := Carved(b, need);
    var rest := mid[1..];
    assert rest == if Splits(b, need) then [mid[1]] else [];
    assert Live(rest) == [] && Tiles(rest, mid[0].end, b.end) by {
      assert Splits(b, need) ==> rest[1..] == [];
    }
    assert [b][1..] == [];
  }

  lemma Pieces(bs: seq<Block>, k: nat)
    requires k < |bs|
    ensures bs == bs[..k] + [bs[k]] + bs[k + 1..]
  {
  }

  lemma SplitAt(bs: seq<Block>, k: nat)
    requires k < |bs|
    ensures Live(bs) == Live(bs[..k]) + Live([bs[k]]) + Live(bs[k + 1..])
  {
    var a, b, c := bs[..k], [bs[k]], bs[k + 1..];
    Live3(a, b, c);
    Pieces(bs, k);
  }

  lemma Links3(a: seq<Block>, b: seq<Block>, c: seq<Block>, lo: nat)
    requires Links(a, lo) && Links(b, lo) && Links(c, lo)
    ensures Links(a + b + c, lo)
  {
  }

  // Carving keeps the tiling and makes exactly one more extent live; it lies in a block that
  // was free and is at least as long as the need.
  lemma CarveKeeps(bs: seq<Block>, lo: nat, hi: nat, k: nat, need: nat)
    requires Tiles(bs, lo, hi) && Links(bs, lo) && 0 < lo && k < |bs| && Fits(bs[k], need) && HDR <= need
    ensures var cs := Carve(bs, k, need);
            && Tiles(cs, lo, hi) && Links(cs, lo) && k < |cs|
            && cs[k].start == bs[k].start && cs[k].start + need <= cs[k].end <= bs[k].end
            && (if bs[k].end - bs[k].start <= need + 8 then cs[k].end == bs[k].end && |cs| == |bs|
                else
                  && cs[k].end == cs[k].start + need && |cs| == |bs| + 1
                  && !cs[k + 1].inUse && cs[k + 1].end == bs[k].end)
            && Live(cs) == Live(bs[..k]) + [(cs[k].start, cs[k].end)] + Live(bs[k + 1..])
            && Live(bs) == Live(bs[..k]) + Live(bs[k + 1..])
  {
    var a, mid, c := bs[..k], Carved(bs[k], need), bs[k + 1..];
    Around(bs, lo, hi, k);
    Within(a, lo, bs[k].start);
    assert bs[k] in bs;
    CarvedPiece(bs[k], lo, need);
    Join3(a, mid, c, lo, bs[k].start, bs[k].end, hi);
    Links3(a, mid, c, lo);
    Live3(a, mid, c);
    SplitAt(bs, k);
    assert (a + mid + c)[k] == mid[0] && (|mid| > 1 ==> (a + mid + c)[k + 1] == mid[1]);
  }

  // Carving keeps the tiling exactly when the need covers a header or the block is taken whole.
  lemma CarveTilesExactly(bs: seq<Block>, lo: nat, hi: nat, k: nat, need: nat)
    requires Tiles(bs, lo, hi) && k < |bs| && Fits(bs[k], need)
    ensures Tiles(Carve(bs, k, need), lo, hi) <==> HDR <= need || !Splits(bs[k], need)
  {
    var cs, mid := Carve(bs, k, need), Carved(bs[k], need);
    Around(bs, lo, hi, k);
    assert cs[k] == mid[0];
    if HDR <= need || !Splits(bs[k], need) {
      assert mid[1..] == if Splits(bs[k], need) then [mid[1]] else [];
      Join3(bs[..k], mid, bs[k + 1..], lo, bs[k].start, bs[k].end, hi);
    } else if Tiles(cs, lo, hi) {
      Around(cs, lo, hi, k);
    }
  }

  lemma {:induction false} Adjacent(bs: seq<Block>, lo: nat, hi: nat, i: nat)
    requires Tiles(bs, lo, hi) && i < |bs|
    ensures bs[i].start + HDR <= bs[i].end && (i + 1 < |bs| ==> bs[i].end == bs[i + 1].start)
  {
    if i > 0 {
      Adjacent(bs[1..], bs[0].end, hi, i - 1);
    }
  }

  // The stretch of blocks that a release turns into one: block k and its free neighbours.
  lemma Stretch(bs: seq<Block>, lo: nat, hi: nat, k: nat)
    requires Tiles(bs, lo, hi) && k < |bs|
    ensures bs[First(bs, k)].start <= bs[k].start && bs[k].start + HDR <= bs[k].end <= bs[Last(bs, k)].end
    ensures First(bs, k) < k ==> bs[First(bs, k)].start + HDR <= bs[First(bs, k)].end == bs[k].start
    ensures k < Last(bs, k) ==> bs[Last(bs, k)].start == bs[k].end
  {
    Adjacent(bs, lo, hi, First(bs, k));
    Adjacent(bs, lo, hi, k);
    Adjacent(bs, lo, hi, Last(bs, k));
  }

  lemma ReleaseTiles(bs: seq<Block>, lo: nat, hi: nat, k: nat)
    requires Tiles(bs, lo, hi) && Links(bs, lo) && k < |bs|
    ensures Tiles(Release(bs, k), lo, hi) && Links(Release(bs, k), lo)
  {
    var first, last := First(bs, k), Last(bs, k);
    Stretch(bs, lo, hi, k);
    Around(bs, lo, hi, first);
    Around(bs, lo, hi, last);
    Join3(bs[..first], [Released(bs, k)], bs[last + 1..], lo, bs[first].start, bs[last].end, hi);
    assert bs[first] in bs;
  }

  lemma ReleaseLive(bs: seq<Block>, k: nat)
    requires k < |bs|
    ensures Live(Release(bs, k)) == Live(bs[..k]) + Live(bs[k + 1..])
  {
    var first, last := First(bs, k), Last(bs, k);
    Live3(bs[..first], [Released(bs, k)], bs[last + 1..]);
    if first < k {
      assert bs[..k] == bs[..first] + [bs[first]];
      LiveConcat(bs[..first], [bs[first]]);
    }
    if k < last {
      assert bs[k + 1..] == [bs[last]] + bs[last + 1..];
    }
  }

  // Releasing keeps the tiling, and takes exactly one extent out of the live ones.
  lemma ReleaseKeeps(bs: seq<Block>, lo: nat, hi: nat, k: nat)
    requires Tiles(bs, lo, hi) && Links(bs, lo) && k < |bs| && bs[k].inUse
    ensures Tiles(Release(bs, k), lo, hi) && Links(Release(bs, k), lo)
    ensures Live(Release(bs, k)) == Live(bs[..k]) + Live(bs[k + 1..])
    ensures Live(bs) == Live(bs[..k]) + [(bs[k].start, bs[k].end)] + Live(bs[k + 1..])
  {
    ReleaseTiles(bs, lo, hi, k);
    ReleaseLive(bs, k);
    SplitAt(bs, k);
  }

  // No two free blocks lie side by side.
  ghost predicate NoTwoFree(bs: seq<Block>) {
    forall i :: 0 <= i && i + 1 < |bs| ==> bs[i].inUse || bs[i + 1].inUse
  }

  // A release merges the block with the free neighbours on both sides, so that no two free blocks
  // lie side by side, exactly unless the block before is free and the back link misses it.
  lemma ReleaseCoalesces(bs: seq<Block>, k: nat)
    requires k < |bs| && bs[k].inUse && NoTwoFree(bs)
    ensures NoTwoFree(Release(bs, k)) <==> k == 0 || bs[k - 1].inUse || bs[k].prev == bs[k - 1].start
  {
    var first, last, cs := First(bs, k), Last(bs, k), Release(bs, k);
    forall i | 0 <= i < |cs|
      ensures cs[i] == if i < first then bs[i] else if i == first then Released(bs, k) else bs[i + last - first]
    {
    }
    if k > 0 && !bs[k - 1].inUse && bs[k].prev != bs[k - 1].start {
      assert first == k && !cs[k - 1].inUse && !cs[k - 1 + 1].inUse;
    }
  }

  // And the block it leaves reaches over exactly those neighbours.
  lemma ReleaseExtent(bs: seq<Block>, k: nat)
    requires k < |bs|
    ensures var cs, back, on := Release(bs, k),
                                k > 0 && !bs[k - 1].inUse && bs[k].prev == bs[k - 1].start,
                                k + 1 < |bs| && !bs[k + 1].inUse;
            var at := if back then k - 1 else k;
            && |cs| == |bs| - (if back then 1 else 0) - (if on then 1 else 0)
            && !cs[at].inUse && cs[at].start == bs[at].start && cs[at].end == bs[if on then k + 1 else k].end
  {
  }

  // Carving leaves no two free blocks side by side either.
  lemma CarveCoalesces(bs: seq<Block>, k: nat, need: nat)
    requires k < |bs| && Fits(bs[k], need) && NoTwoFree(bs)
    ensures NoTwoFree(Carve(bs, k, need))
  {
    var cs, n := Carve(bs, k, need), |Carved(bs[k], need)|;
    forall i | 0 <= i < |cs|
      ensures cs[i] == if i < k then bs[i] else if i < k + n then Carved(bs[k], need)[i - k] else bs[i - n + 1]
    {
    }
  }

  lemma CarveAround(bs: seq<Block>, k: nat, need: nat)
    requires k < |bs| && Fits(bs[k], need)
    ensures var cs := Carve(bs, k, need);
            k < |cs| && cs[..k] == bs[..k] && Live(cs[k + 1..]) == Live(bs[k + 1..])
  {
    var a, mid, c := bs[..k], Carved(bs[k], need), bs[k + 1..];
    assert (a + mid + c)[..k] == a;
    assert (a + mid + c)[k + 1..] == mid[1..] + c;
    LiveConcat(mid[1..], c);
    assert Splits(bs[k], need) ==> mid[1..][1..] == [];
  }

  // Releasing what was just carved gives back exactly the extents that were live before.
  lemma CarveThenRelease(bs: seq<Block>, lo: nat, hi: nat, k: nat, need: nat)
    requires Tiles(bs, lo, hi) && Links(bs, lo) && 0 < lo && k < |bs| && Fits(bs[k], need) && HDR <= need
    ensures k < |Carve(bs, k, need)| && Live(Release(Carve(bs, k, need), k)) == Live(bs)
  {
    CarveKeeps(bs, lo, hi, k, need);
    ReleaseLive(Carve(bs, k, need), k);
    CarveAround(bs, k, need);
  }

  // ---------- Back links ----------

  // Every block records its chain predecessor, the first one records p.
  predicate BackLinksTrue(bs: seq<Block>, p: nat) {
    bs == [] || (bs[0].prev == p && BackLinksTrue(bs[1..], bs[0].start))
  }

  function LastStart(bs: seq<Block>, p: nat): nat { if bs == [] then p else bs[|bs| - 1].start }

  lemma {:induction false} BackLinksJoin(a: seq<Block>, b: seq<Block>, p: nat)
    ensures BackLinksTrue(a + b, p) <==> BackLinksTrue(a, p) && BackLinksTrue(b, LastStart(a, p))
  {
    if a == [] {
      assert a + b == b;
    } else {
      assert (a + b)[1..] == a[1..] + b;
      BackLinksJoin(a[1..], b, a[0].start);
    }
  }

  lemma BackLinksJoin3(a: seq<Block>, mid: seq<Block>, c: seq<Block>)
    requires mid != []
    ensures BackLinksTrue(a + mid + c, 0) <==>
              && BackLinksTrue(a, 0) && BackLinksTrue(mid, LastStart(a, 0))
              && BackLinksTrue(c, mid[|mid| - 1].start)
  {
    BackLinksJoin(a + mid, c, 0);
    BackLinksJoin(a, mid, 0);
  }

  lemma CarvedLinks(b: Block, need: nat, p: nat)
    requires HDR <= need && BackLinksTrue([b], p)
    ensures var mid := Carved(b, need);
            && BackLinksTrue(mid, p)
            && mid[|mid| - 1].start == if Splits(b, need) then b.start + need else b.start
  {
    var mid := Carved(b, need);
    if Splits(b, need) {
      assert mid[1..] == [mid[1]] && mid[1..][1..] == [];
    } else {
      assert mid[1..] == [];
    }
  }

  // Splitting records the new block's back link but does not repair the one of the block after
  // it, so the back links stay true exactly when nothing splits or the last block does.
  lemma CarveBackLinks(bs: seq<Block>, k: nat, need: nat)
    requires BackLinksTrue(bs, 0) && k < |bs| && HDR <= need
    ensures BackLinksTrue(Carve(bs, k, need), 0) <==> !Splits(bs[k], need) || k == |bs| - 1
  {
    var a, mid, c := bs[..k], Carved(bs[k], need), bs[k + 1..];
    BackLinksJoin3(a, [bs[k]], c);
    BackLinksJoin3(a, mid, c);
    Pieces(bs, k);
    CarvedLinks(bs[k], need, LastStart(a, 0));
    if c != [] {
      assert c[0].prev == bs[k].start;
    }
  }

  lemma MergeBackLinks(a: seq<Block>, mid: seq<Block>, merged: Block, c: seq<Block>)
    requires mid != [] && merged.prev == mid[0].prev && merged.start == mid[0].start
    requires BackLinksTrue(a + mid + c, 0)
    ensures BackLinksTrue(a + [merged] + c, 0) <==> c == [] || mid[|mid| - 1].start == mid[0].start
  {
    BackLinksJoin3(a, mid, c);
    BackLinksJoin3(a, [merged], c);
    assert [merged][1..] == [];
    assert BackLinksTrue([merged], LastStart(a, 0)) && BackLinksTrue(c, mid[|mid| - 1].start);
  }

  // Merging does not repair the back link of the block after the merged one either.
  lemma ReleaseBackLinks(bs: seq<Block>, lo: nat, hi: nat, k: nat)
    requires Tiles(bs, lo, hi) && BackLinksTrue(bs, 0) && k < |bs|
    ensures BackLinksTrue(Release(bs, k), 0) <==>
              (!MergesBack(bs, k) && !MergesOn(bs, k)) || Last(bs, k) == |bs| - 1
  {
    var first, last := First(bs, k), Last(bs, k);
    Stretch(bs, lo, hi, k);
    var a, mid, c := bs[..first], bs[first..last + 1], bs[last + 1..];
    assert bs == a + mid + c;
    assert mid[0] == bs[first] && mid[|mid| - 1] == bs[last];
    MergeBackLinks(a, mid, Released(bs, k), c);
  }

  // ---------- Releasing in memory ----------

  // The first merge of osal_mem_free, with the previous header taken on trust: it is wherever
  // the recorded back link points.
  function MergeBack(m: seq<byte>, a: nat): (r: seq<byte>)
    requires a + HDR <= |m| && Prev(m, a) + HDR <= |m|
    ensures |r| == |m|
  {
    if GoesBack(m, a) then Put(m, Prev(m, a) + 4, Next(m, a)) else m
  }

  predicate GoesBack(m: seq<byte>, a: nat)
    requires a + HDR <= |m| && Prev(m, a) + HDR <= |m|
  {
    Prev(m, a) != 0 && !InUse(m, Prev(m, a))
  }

  // The second merge: header a takes over the block at `next`.
  function MergeOn(m: seq<byte>, a: nat, next: nat): (r: seq<byte>)
    requires a + HDR <= |m| && (next + HDR <= |m| || next == |m|)
    ensures |r| == |m|
  {
    if next < |m| && !InUse(m, next) then Put(m, a + 4, Next(m, next)) else m
  }

  // What osal_mem_free writes, for the header at a.
  function FreeBytes(m: seq<byte>, a: nat): (r: seq<byte>)
    requires a + HDR <= |m| && Prev(m, a) + HDR <= |m|
    requires Next(m, a) + HDR <= |m| || Next(m, a) == |m|
    ensures |r| == |m|
  {
    var m1 := Unmarked(m, a);
    MergeOn(MergeBack(m1, a), if GoesBack(m1, a) then Prev(m, a) else a, Next(m, a))
  }

  // The back link of block k can be trusted: it is NULL, or the header it points at is in use,
  // or it points at the true predecessor.
  ghost predicate Trusted(m: seq<byte>, bs: seq<Block>, k: nat)
    requires k < |bs|
  {
    || bs[k].prev == 0
    || (k > 0 && bs[k].prev == bs[k - 1].start)
    || (bs[k].prev < |m| && InUse(m, bs[k].prev))
  }

  lemma HeaderFrame(m: seq<byte>, m': seq<byte>, b: Block)
    requires HeaderAt(m, b) && |m'| == |m|
    requires forall i :: b.start <= i < b.start + HDR ==> m'[i] == m[i]
    ensures HeaderAt(m', b)
  {
  }

  lemma HeadersFrame(m: seq<byte>, m': seq<byte>, bs: seq<Block>, lo: nat, hi: nat)
    requires Headers(m, bs) && |m'| == |m| && Tiles(bs, lo, hi) && hi <= |m|
    requires forall i :: lo <= i < hi ==> m'[i] == m[i]
    ensures Headers(m', bs)
  {
    Within(bs, lo, hi);
    forall b | b in bs ensures HeaderAt(m', b) {
      HeaderFrame(m, m', b);
    }
  }

  // The headers that a release of block k looks at.
  lemma FreeReads(m: seq<byte>, lo: nat, bs: seq<Block>, k: nat)
    requires Rep(m, lo, bs) && k < |bs|
    ensures HeaderAt(m, bs[k]) && bs[k].prev + HDR <= |m|
    ensures k > 0 ==> HeaderAt(m, bs[k - 1]) && bs[k - 1].end == bs[k].start
    ensures k + 1 < |bs| ==> HeaderAt(m, bs[k + 1]) && bs[k + 1].start == bs[k].end
    ensures k + 1 == |bs| ==> bs[k].end == |m|
  {
    assert bs[k] in bs;
    Adjacent(bs, lo, |m|, k);
    if k > 0 {
      assert bs[k - 1] in bs;
      Adjacent(bs, lo, |m|, k - 1);
    }
    if k + 1 < |bs| {
      assert bs[k + 1] in bs;
    }
    Around(bs, lo, |m|, k);
  }

  ghost predicate AgreeBut(m: seq<byte>, r: seq<byte>, x: nat, y: nat) {
    |r| == |m| && forall i :: 0 <= i < |m| && !(x <= i < x + HDR) && !(y <= i < y + HDR) ==> r[i] == m[i]
  }

  // The image with the header at a no longer in use.
  function Unmarked(m: seq<byte>, a: nat): (r: seq<byte>)
    requires a < |m|
    ensures |r| == |m| && !InUse(r, a)
    ensures forall i :: 0 <= i < |m| && i != a ==> r[i] == m[i]
  {
    m[a := Cleared(m[a])]
  }

  lemma UnmarkedHeader(m: seq<byte>, b: Block)
    requires HeaderAt(m, b)
    ensures HeaderAt(Unmarked(m, b.start), b.(inUse := false))
    ensures AgreeBut(m, Unmarked(m, b.start), b.start, b.start)
  {
  }

  // Whether the code merges backwards is decided by the list of blocks.
  lemma GoesBackWhen(m: seq<byte>, lo: nat, bs: seq<Block>, k: nat)
    requires Rep(m, lo, bs) && k < |bs| && Trusted(m, bs, k)
    ensures HeaderAt(m, bs[k]) && bs[k].prev + HDR <= |m| && Prev(Unmarked(m, bs[k].start), bs[k].start) == bs[k].prev
    ensures GoesBack(Unmarked(m, bs[k].start), bs[k].start) <==> MergesBack(bs, k)
  {
    FreeReads(m, lo, bs, k);
    Within(bs, lo, |m|);
    assert bs[k] in bs && (k > 0 ==> bs[k - 1] in bs);
  }

  // After the first merge: the header merged into describes the blocks from there to the end
  // of block k, and the header after block k is as it was.
  lemma FreeFirstHalf(m: seq<byte>, lo: nat, bs: seq<Block>, k: nat)
    requires Rep(m, lo, bs) && k < |bs| && bs[k].inUse && Trusted(m, bs, k)
    ensures HeaderAt(m, bs[k]) && bs[k].prev + HDR <= |m|
    ensures var b, first, m1 := bs[k], bs[First(bs, k)], Unmarked(m, bs[k].start);
            && Prev(m1, b.start) == b.prev && (GoesBack(m1, b.start) <==> MergesBack(bs, k))
            && HeaderAt(MergeBack(m1, b.start), Block(first.start, b.end, false, first.prev))
            && AgreeBut(m, MergeBack(m1, b.start), first.start, b.start)
  {
    FreeReads(m, lo, bs, k);
    GoesBackWhen(m, lo, bs, k);
    var b, m1 := bs[k], Unmarked(m, bs[k].start);
    UnmarkedHeader(m, b);
    if MergesBack(bs, k) {
      HeaderFrame(m, m1, bs[k - 1]);
      Extend(m1, bs[k - 1], b.end);
    }
  }

  // Writing a new end into a header.
  lemma Extend(m: seq<byte>, b: Block, end: word)
    requires HeaderAt(m, b) && b.end <= end <= |m|
    ensures HeaderAt(Put(m, b.start + 4, end), b.(end := end))
    ensures AgreeBut(m, Put(m, b.start + 4, end), b.start, b.start)
  {
  }

  // The second merge extends the header merged into over the free block that follows.
  lemma FreeSecondHalf(m: seq<byte>, b: Block, next: Block)
    requires HeaderAt(m, b) && !b.inUse && b.end == next.start
    requires if next.start == |m| then next.end == next.start else HeaderAt(m, next)
    ensures b.end + HDR <= |m| || b.end == |m|
    ensures var r := MergeOn(m, b.start, b.end);
            && AgreeBut(m, r, b.start, b.start)
            && HeaderAt(r, if b.end < |m| && !next.inUse then b.(end := next.end) else b)
  {
    if b.end < |m| {
      SecondHalfStep(m, b, next);
    }
  }

  lemma SecondHalfStep(m: seq<byte>, b: Block, next: Block)
    requires HeaderAt(m, b) && !b.inUse && b.end == next.start && HeaderAt(m, next)
    ensures var r := MergeOn(m, b.start, b.end);
            AgreeBut(m, r, b.start, b.start) && HeaderAt(r, if next.inUse then b else b.(end := next.end))
  {
    assert InUse(m, b.end) == next.inUse && Next(m, b.end) == next.end;
    if next.inUse {
      assert MergeOn(m, b.start, b.end) == m;
    } else {
      Extend(m, b, next.end);
    }
  }

  // Only the headers of block k and of the block merged into are written, and the latter then
  // describes the merged block.
  lemma FreeWrites(m: seq<byte>, lo: nat, bs: seq<Block>, k: nat)
    requires Rep(m, lo, bs) && k < |bs| && bs[k].inUse && Trusted(m, bs, k)
    ensures HeaderAt(m, bs[k]) && bs[k].prev + HDR <= |m| && (bs[k].end + HDR <= |m| || bs[k].end == |m|)
    ensures var r := FreeBytes(m, bs[k].start);
            HeaderAt(r, Released(bs, k)) && AgreeBut(m, r, bs[First(bs, k)].start, bs[k].start)
  {
    FreeReads(m, lo, bs, k);
    FreeFirstHalf(m, lo, bs, k);
    Stretch(bs, lo, |m|, k);
    var b, first := bs[k], bs[First(bs, k)];
    var m2 := MergeBack(Unmarked(m, b.start), b.start);
    var next := if k + 1 < |bs| then bs[k + 1] else Block(b.end, b.end, true, 0);
    if k + 1 < |bs| {
      HeaderFrame(m, m2, next);
    }
    var merged := Block(first.start, b.end, false, first.prev);
    FreeSecondHalf(m2, merged, next);
    assert FreeBytes(m, b.start) == MergeOn(m2, first.start, b.end);
  }

  // Blocks outside the stretch being merged keep every byte.
  lemma FreeLeaves(m: seq<byte>, r: seq<byte>, lo: nat, bs: seq<Block>, k: nat, j: nat, i: nat)
    requires Rep(m, lo, bs) && k < |bs| && j < |bs| && !(First(bs, k) <= j <= Last(bs, k))
    requires AgreeBut(m, r, bs[First(bs, k)].start, bs[k].start)
    requires bs[j].start <= i < bs[j].end
    ensures i < |m| && r[i] == m[i]
  {
    Stretch(bs, lo, |m|, k);
    var first, last := First(bs, k), Last(bs, k);
    if j < first {
      Around(bs, lo, |m|, first);
      Within(bs[..first], lo, bs[first].start);
      assert bs[j] in bs[..first];
    } else {
      Around(bs, lo, |m|, last);
      Within(bs[last + 1..], bs[last].end, |m|);
      assert bs[j] == bs[last + 1..][j - last - 1];
      assert bs[j] in bs[last + 1..];
    }
    Within(bs, lo, |m|);
    assert bs[j] in bs;
  }

  ghost predicate Same(m: seq<byte>, r: seq<byte>, x: nat, y: nat) {
    |r| == |m| && forall i :: x <= i < y && i < |m| ==> r[i] == m[i]
  }

  lemma FreeLeavesOthers(m: seq<byte>, r: seq<byte>, lo: nat, bs: seq<Block>, k: nat, j: nat)
    requires Rep(m, lo, bs) && k < |bs| && j < |bs| && !(First(bs, k) <= j <= Last(bs, k))
    requires AgreeBut(m, r, bs[First(bs, k)].start, bs[k].start)
    ensures Same(m, r, bs[j].start, bs[j].end) && HeaderAt(r, bs[j])
  {
    forall i | bs[j].start <= i < bs[j].end ensures i < |m| && r[i] == m[i] {
      FreeLeaves(m, r, lo, bs, k, j, i);
    }
    assert bs[j] in bs;
    HeaderFrame(m, r, bs[j]);
  }

  lemma OldBlock(bs: seq<Block>, k: nat, b: Block) returns (j: nat)
    requires k < |bs| && b in Release(bs, k) && b != Released(bs, k)
    ensures j < |bs| && !(First(bs, k) <= j <= Last(bs, k)) && bs[j] == b
  {
    if b in bs[..First(bs, k)] {
      j :| 0 <= j < First(bs, k) && bs[j] == b;
    } else {
      assert b in bs[Last(bs, k) + 1..];
      j :| Last(bs, k) < j < |bs| && bs[j] == b;
    }
  }

  // Freeing a live block whose back link can be trusted leaves a heap whose blocks are the old
  // ones with that block released and merged with the free neighbours it can see, and leaves
  // every byte of every other live block alone.
  lemma FreeKeepsHeap(m: seq<byte>, lo: nat, bs: seq<Block>, k: nat)
    requires Rep(m, lo, bs) && k < |bs| && bs[k].inUse && Trusted(m, bs, k)
    ensures HeaderAt(m, bs[k]) && bs[k].prev + HDR <= |m| && (bs[k].end + HDR <= |m| || bs[k].end == |m|)
    ensures Rep(FreeBytes(m, bs[k].start), lo, Release(bs, k))
    ensures forall j :: 0 <= j < |bs| && j != k && bs[j].inUse ==>
              Same(m, FreeBytes(m, bs[k].start), bs[j].start, bs[j].end)
  {
    FreeWrites(m, lo, bs, k);
    ReleaseTiles(bs, lo, |m|, k);
    var r := FreeBytes(m, bs[k].start);
    forall j | 0 <= j < |bs| && j != k && bs[j].inUse ensures Same(m, r, bs[j].start, bs[j].end) {
      FreeLeavesOthers(m, r, lo, bs, k, j);
    }
    forall b | b in Release(bs, k) ensures HeaderAt(r, b) {
      if b != Released(bs, k) {
        var j := OldBlock(bs, k, b);
        FreeLeavesOthers(m, r, lo, bs, k, j);
      }
    }
  }

  // What osal_mem_free leaves when it is given block k.
  ghost function AfterFree(m: seq<byte>, lo: nat, bs: seq<Block>, k: nat): (r: seq<byte>)
    requires Rep(m, lo, bs) && k < |bs|
    ensures |r| == |m|
  {
    FreeReads(m, lo, bs, k);
    FreeBytes(m, bs[k].start)
  }

  // ---------- What a release does when the back link cannot be trusted ----------

  predicate LinkOk(p: nat, lo: nat, a: nat) { p == 0 || lo <= p < a }

  // Reading headers on from a: they tile the rest of the image, and the blocks in use are
  // exactly those given.
  predicate Rejoins(m: seq<byte>, lo: nat, a: nat, live: seq<(nat, nat)>)
    decreases |m| - a
  {
    if a >= |m| then a == |m| && live == []
    else
      && a + HDR <= |m| && a + HDR <= Next(m, a) && LinkOk(Prev(m, a), lo, a)
      && if InUse(m, a) then live != [] && live[0] == (a, Next(m, a)) && Rejoins(m, lo, Next(m, a), live[1..])
         else Rejoins(m, lo, Next(m, a), live)
  }

  // A list of blocks from a on that the image shows.
  ghost predicate Shows(m: seq<byte>, lo: nat, a: nat, cs: seq<Block>) {
    Tiles(cs, a, |m|) && Links(cs, lo) && Headers(m, cs)
  }

  lemma ShowsTail(m: seq<byte>, lo: nat, a: nat, cs: seq<Block>)
    requires Shows(m, lo, a, cs) && cs != []
    ensures Shows(m, lo, cs[0].end, cs[1..]) && HeaderAt(m, cs[0]) && cs[0].start == a && LinkOk(cs[0].prev, lo, a)
  {
    assert cs[0] in cs;
  }

  // What the image shows decides which blocks in use reading on finds.
  lemma {:induction false} RejoinsShown(m: seq<byte>, lo: nat, a: nat, cs: seq<Block>, live: seq<(nat, nat)>)
    requires Shows(m, lo, a, cs) && a <= |m|
    ensures Rejoins(m, lo, a, live) <==> live == Live(cs)
    decreases |cs|
  {
    if cs != [] {
      ShowsTail(m, lo, a, cs);
      var rest := Live(cs[1..]);
      if cs[0].inUse {
        if live != [] {
          RejoinsShown(m, lo, cs[0].end, cs[1..], live[1..]);
          assert live == [live[0]] + live[1..];
        }
        assert Live(cs)[0] == (a, cs[0].end) && Live(cs)[1..] == rest;
      } else {
        RejoinsShown(m, lo, cs[0].end, cs[1..], live);
        assert Live(cs) == rest;
      }
    }
  }

  // And whatever reading on finds, the image shows.
  lemma {:induction false} RejoinsGives(m: seq<byte>, lo: nat, a: nat, live: seq<(nat, nat)>) returns (cs: seq<Block>)
    requires a <= |m| && Rejoins(m, lo, a, live)
    ensures Shows(m, lo, a, cs) && Live(cs) == live
    decreases |m| - a
  {
    if a == |m| {
      cs := [];
    } else {
      var b := Block(a, Next(m, a), InUse(m, a), Prev(m, a));
      var rest := RejoinsGives(m, lo, b.end, if b.inUse then live[1..] else live);
      cs := [b] + rest;
      ShowsCons(m, lo, b, rest);
      assert b.inUse ==> live == [live[0]] + live[1..];
    }
  }

  lemma ShowsCons(m: seq<byte>, lo: nat, b: Block, rest: seq<Block>)
    requires HeaderAt(m, b) && LinkOk(b.prev, lo, b.start) && Shows(m, lo, b.end, rest)
    ensures Shows(m, lo, b.start, [b] + rest)
    ensures Live([b] + rest) == (if b.inUse then [(b.start, b.end)] else []) + Live(rest)
  {
    assert ([b] + rest)[1..] == rest;
  }

  lemma HeapExactly(m: seq<byte>, lo: nat, live: seq<(nat, nat)>)
    requires 0 < lo < |m| <= 0xFFF0
    ensures (exists cs :: Rep(m, lo, cs) && Live(cs) == live) <==> Rejoins(m, lo, lo, live)
  {
    if Rejoins(m, lo, lo, live) {
      var cs := RejoinsGives(m, lo, lo, live);
      assert Rep(m, lo, cs);
    }
    if exists cs :: Rep(m, lo, cs) && Live(cs) == live {
      var cs :| Rep(m, lo, cs) && Live(cs) == live;
      RejoinsShown(m, lo, lo, cs, live);
    }
  }

  // Block j after a write that turned m into r: a block in use keeps every byte; a free one
  // stays free with a sound back link, and still ends where it did or wherever reading on from
  // its new end finds exactly the blocks in use that came behind it.
  ghost predicate BlockFine(m: seq<byte>, r: seq<byte>, lo: nat, bs: seq<Block>, j: nat)
    requires j < |bs| && |r| == |m|
  {
    var b := bs[j];
    if b.inUse then Same(m, r, b.start, b.end)
    else
      && b.start + HDR <= |r| && !InUse(r, b.start) && LinkOk(Prev(r, b.start), lo, b.start)
      && (Next(r, b.start) == b.end
          || (b.start + HDR <= Next(r, b.start) && Rejoins(r, lo, Next(r, b.start), Live(bs[j + 1..]))))
  }

  ghost predicate AllFine(m: seq<byte>, r: seq<byte>, lo: nat, bs: seq<Block>)
    requires |r| == |m|
  {
    forall j :: 0 <= j < |bs| ==> BlockFine(m, r, lo, bs, j)
  }

  ghost predicate LiveSame(m: seq<byte>, r: seq<byte>, bs: seq<Block>) {
    forall j :: 0 <= j < |bs| && bs[j].inUse ==> Same(m, r, bs[j].start, bs[j].end)
  }

  // A block whose header the word does not touch.
  lemma UntouchedFine(m: seq<byte>, lo: nat, bs: seq<Block>, w: nat, e: word, j: nat)
    requires w + 2 <= |m| && j < |bs| && HeaderAt(m, bs[j]) && LinkOk(bs[j].prev, lo, bs[j].start)
    requires w + 1 < bs[j].start || bs[j].start + HDR <= w
    requires bs[j].inUse ==> Same(m, Put(m, w, e), bs[j].start, bs[j].end)
    ensures BlockFine(m, Put(m, w, e), lo, bs, j)
  {
    HeaderFrame(m, Put(m, w, e), bs[j]);
  }

  lemma {:induction false} LiveBehind(bs: seq<Block>, lo: nat, hi: nat)
    requires Tiles(bs, lo, hi)
    ensures forall i :: 0 <= i < |Live(bs)| ==> lo <= Live(bs)[i].0
  {
    if bs != [] {
      LiveBehind(bs[1..], bs[0].end, hi);
    }
  }

  lemma FineTail(m: seq<byte>, r: seq<byte>, lo: nat, bs: seq<Block>)
    requires bs != [] && |r| == |m|
    ensures AllFine(m, r, lo, bs) <==> BlockFine(m, r, lo, bs, 0) && AllFine(m, r, lo, bs[1..])
  {
    forall j | 0 <= j < |bs[1..]| ensures BlockFine(m, r, lo, bs, j + 1) <==> BlockFine(m, r, lo, bs[1..], j) {
      assert bs[1..][j + 1..] == bs[j + 2..];
    }
    if BlockFine(m, r, lo, bs, 0) && AllFine(m, r, lo, bs[1..]) {
      forall j | 0 <= j < |bs| ensures BlockFine(m, r, lo, bs, j) {
        assert j > 0 ==> BlockFine(m, r, lo, bs[1..], j - 1);
      }
    }
    if AllFine(m, r, lo, bs) {
      forall j | 0 <= j < |bs[1..]| ensures BlockFine(m, r, lo, bs[1..], j) {
        assert BlockFine(m, r, lo, bs, j + 1);
      }
    }
  }

  // Reading on from a block in use that is as it was.
  lemma HeadLive(r: seq<byte>, lo: nat, bs: seq<Block>)
    requires bs != [] && bs[0].inUse && HeaderAt(r, bs[0]) && LinkOk(bs[0].prev, lo, bs[0].start)
    ensures Rejoins(r, lo, bs[0].start, Live(bs)) <==> Rejoins(r, lo, bs[0].end, Live(bs[1..]))
  {
    assert Live(bs)[0] == (bs[0].start, bs[0].end) && Live(bs)[1..] == Live(bs[1..]);
  }

  // Reading on from what was a free block.
  lemma HeadFree(r: seq<byte>, lo: nat, bs: seq<Block>)
    requires bs != [] && !bs[0].inUse && bs[0].start + HDR <= |r|
    requires forall i :: 0 <= i < |Live(bs[1..])| ==> bs[0].start < Live(bs[1..])[i].0
    ensures var a := bs[0].start;
            Rejoins(r, lo, a, Live(bs)) <==>
              && !InUse(r, a) && LinkOk(Prev(r, a), lo, a) && a + HDR <= Next(r, a)
              && Rejoins(r, lo, Next(r, a), Live(bs[1..]))
  {
    assert Live(bs) == Live(bs[1..]);
  }

  // One word is written into an image that shows bs and no block in use loses a byte. Reading
  // on finds the same blocks in use exactly when every block is fine.
  lemma {:induction false} WordKeepsChain(m: seq<byte>, lo: nat, a: nat, bs: seq<Block>, w: nat, e: word)
    requires Shows(m, lo, a, bs) && a <= |m| && w + 2 <= |m| && LiveSame(m, Put(m, w, e), bs)
    ensures Rejoins(Put(m, w, e), lo, a, Live(bs)) <==> AllFine(m, Put(m, w, e), lo, bs)
    decreases |bs|
  {
    if bs != [] {
      var r := Put(m, w, e);
      ShowsTail(m, lo, a, bs);
      TailSame(m, r, bs);
      WordKeepsChain(m, lo, bs[0].end, bs[1..], w, e);
      if bs[0].inUse {
        ChainFromLive(m, r, lo, a, bs);
      } else if Next(r, a) == bs[0].end {
        ChainFromFree(m, r, lo, a, bs);
      } else {
        ChainMoved(m, lo, a, bs, w, e);
      }
    }
  }

  lemma ChainFromLive(m: seq<byte>, r: seq<byte>, lo: nat, a: nat, bs: seq<Block>)
    requires bs != [] && Shows(m, lo, a, bs) && |r| == |m| && LiveSame(m, r, bs) && bs[0].inUse
    requires Rejoins(r, lo, bs[0].end, Live(bs[1..])) <==> AllFine(m, r, lo, bs[1..])
    ensures Rejoins(r, lo, a, Live(bs)) <==> AllFine(m, r, lo, bs)
  {
    ShowsTail(m, lo, a, bs);
    TailSame(m, r, bs);
    HeaderFrame(m, r, bs[0]);
    HeadLive(r, lo, bs);
    FineTail(m, r, lo, bs);
  }

  lemma ChainFromFree(m: seq<byte>, r: seq<byte>, lo: nat, a: nat, bs: seq<Block>)
    requires bs != [] && Shows(m, lo, a, bs) && |r| == |m| && !bs[0].inUse
    requires a + HDR <= |r| && Next(r, a) == bs[0].end
    requires Rejoins(r, lo, bs[0].end, Live(bs[1..])) <==> AllFine(m, r, lo, bs[1..])
    ensures Rejoins(r, lo, a, Live(bs)) <==> AllFine(m, r, lo, bs)
  {
    ShowsTail(m, lo, a, bs);
    LiveBehind(bs[1..], bs[0].end, |m|);
    HeadFree(r, lo, bs);
    FineTail(m, r, lo, bs);
  }

  // The word moves the end of the first block: no other one is touched.
  lemma ChainMoved(m: seq<byte>, lo: nat, a: nat, bs: seq<Block>, w: nat, e: word)
    requires bs != [] && Shows(m, lo, a, bs) && w + 2 <= |m| && LiveSame(m, Put(m, w, e), bs) && !bs[0].inUse
    requires a + HDR <= |m| && Next(Put(m, w, e), a) != bs[0].end
    ensures Rejoins(Put(m, w, e), lo, a, Live(bs)) <==> AllFine(m, Put(m, w, e), lo, bs)
  {
    var r, tail := Put(m, w, e), bs[1..];
    ShowsTail(m, lo, a, bs);
    TailSame(m, r, bs);
    LiveBehind(tail, bs[0].end, |m|);
    HeadFree(r, lo, bs);
    FineTail(m, r, lo, bs);
    NextMoved(m, a, bs[0], w, e);
    TailFine(m, lo, bs[0].end, tail, w, e);
    assert bs[0 + 1..] == tail;
  }

  lemma NextMoved(m: seq<byte>, a: nat, b: Block, w: nat, e: word)
    requires HeaderAt(m, b) && b.start == a && w + 2 <= |m| && Next(Put(m, w, e), a) != b.end
    ensures a + 3 <= w <= a + 5
  {
  }

  lemma TailSame(m: seq<byte>, r: seq<byte>, bs: seq<Block>)
    requires bs != [] && LiveSame(m, r, bs)
    ensures LiveSame(m, r, bs[1..]) && (bs[0].inUse ==> Same(m, r, bs[0].start, bs[0].end))
  {
  }

  // Blocks behind the word are fine.
  lemma TailFine(m: seq<byte>, lo: nat, a: nat, bs: seq<Block>, w: nat, e: word)
    requires Shows(m, lo, a, bs) && w + 1 < a <= |m| && LiveSame(m, Put(m, w, e), bs)
    ensures AllFine(m, Put(m, w, e), lo, bs)
  {
    Within(bs, a, |m|);
    forall j | 0 <= j < |bs| ensures BlockFine(m, Put(m, w, e), lo, bs, j) {
      assert bs[j] in bs;
      UntouchedFine(m, lo, bs, w, e, j);
    }
  }

  // The word meets at most two blocks, and only those have to be looked at.
  lemma FineWhere(m: seq<byte>, lo: nat, bs: seq<Block>, w: nat, e: word, i: nat, j: nat)
    requires Rep(m, lo, bs) && w + 2 <= |m| && i < |bs| && j < |bs|
    requires bs[i].start <= w < bs[i].end && bs[j].start <= w + 1 < bs[j].end
    ensures var r := Put(m, w, e);
            AllFine(m, r, lo, bs) <==> BlockFine(m, r, lo, bs, i) && BlockFine(m, r, lo, bs, j)
  {
    Within(bs, lo, |m|);
    assert bs[i] in bs && bs[j] in bs;
    forall n | 0 <= n < |bs| && n != i && n != j ensures BlockFine(m, Put(m, w, e), lo, bs, n) {
      assert bs[n] in bs;
      Apart(bs, lo, |m|, n, i);
      Apart(bs, lo, |m|, n, j);
      UntouchedFine(m, lo, bs, w, e, n);
    }
  }

  // The release leaves a heap that has lost that block's extent and no other, and no byte of
  // another block in use.
  ghost predicate LosesOnly(m: seq<byte>, r: seq<byte>, lo: nat, bs: seq<Block>, k: nat)
    requires k < |bs|
  {
    && (exists cs :: Rep(r, lo, cs) && Live(cs) == Live(bs[..k]) + Live(bs[k + 1..]))
    && forall j :: 0 <= j < |bs| && j != k && bs[j].inUse ==> Same(m, r, bs[j].start, bs[j].end)
  }

  function Idle(bs: seq<Block>, k: nat): seq<Block>
    requires k < |bs|
  {
    bs[k := bs[k].(inUse := false)]
  }

  lemma IdleLive(bs: seq<Block>, k: nat)
    requires k < |bs|
    ensures Live(Idle(bs, k)) == Live(bs[..k]) + Live(bs[k + 1..])
  {
    var cs := Idle(bs, k);
    SplitAt(cs, k);
    assert cs[..k] == bs[..k] && cs[k + 1..] == bs[k + 1..];
    assert [cs[k]][1..] == [];
  }

  lemma {:induction false} IdleTiles(bs: seq<Block>, lo: nat, hi: nat, k: nat)
    requires Tiles(bs, lo, hi) && k < |bs|
    ensures Tiles(Idle(bs, k), lo, hi)
    decreases k
  {
    if k == 0 {
      assert Idle(bs, k)[1..] == bs[1..];
    } else {
      IdleTiles(bs[1..], bs[0].end, hi, k - 1);
      assert Idle(bs, k)[1..] == Idle(bs[1..], k - 1);
    }
  }

  // With its header unmarked the image shows block k as free.
  lemma UnmarkedShows(m: seq<byte>, lo: nat, bs: seq<Block>, k: nat)
    requires Rep(m, lo, bs) && k < |bs|
    ensures bs[k].start < |m| && Rep(Unmarked(m, bs[k].start), lo, Idle(bs, k))
    ensures forall j :: 0 <= j < |bs| && j != k ==> Same(m, Unmarked(m, bs[k].start), bs[j].start, bs[j].end)
  {
    FreeReads(m, lo, bs, k);
    IdleTiles(bs, lo, |m|, k);
    var m1 := Unmarked(m, bs[k].start);
    UnmarkedHeader(m, bs[k]);
    forall j | 0 <= j < |bs| && j != k ensures HeaderAt(m1, bs[j]) && Same(m, m1, bs[j].start, bs[j].end) {
      Apart(bs, lo, |m|, j, k);
      assert bs[j] in bs;
      HeaderFrame(m, m1, bs[j]);
    }
    assert bs[k] in bs;
    forall b | b in Idle(bs, k) ensures HeaderAt(m1, b) && (b.prev == 0 || lo <= b.prev < b.start) {
      var j :| 0 <= j < |bs| && Idle(bs, k)[j] == b;
      assert bs[j] in bs;
    }
  }

  // Two blocks do not overlap.
  lemma Apart(bs: seq<Block>, lo: nat, hi: nat, i: nat, j: nat)
    requires Tiles(bs, lo, hi) && i < |bs| && j < |bs| && i != j
    ensures if i < j then bs[i].end <= bs[j].start else bs[j].end <= bs[i].start
  {
    var x, y := if i < j then i else j, if i < j then j else i;
    Around(bs, lo, hi, y);
    Within(bs[..y], lo, bs[y].start);
    assert bs[x] in bs[..y];
  }

  // Untrusted, the release writes one word: the end of the freed stretch, at prev + 4.
  lemma StaleLinkWrites(m: seq<byte>, lo: nat, bs: seq<Block>, k: nat)
    requires Rep(m, lo, bs) && k < |bs| && !Trusted(m, bs, k)
    ensures bs[k].start < |m| && bs[k].prev + 6 <= |m| && bs[Last(bs, k)].end < 0x1_0000
    ensures AfterFree(m, lo, bs, k) == Put(Unmarked(m, bs[k].start), bs[k].prev + 4, bs[Last(bs, k)].end)
  {
    FreeReads(m, lo, bs, k);
    var b, p := bs[k], bs[k].prev;
    assert b in bs;
    var m1 := Unmarked(m, b.start);
    assert Prev(m1, b.start) == p && Next(m1, b.start) == b.end && m1[p] == m[p];
    assert MergeBack(m1, b.start) == Put(m1, p + 4, b.end);
    StaleLinkMergesOn(m, m1, bs, k);
  }

  lemma StaleLinkMergesOn(m: seq<byte>, m1: seq<byte>, bs: seq<Block>, k: nat)
    requires k < |bs| && HeaderAt(m, bs[k]) && |m1| == |m| <= 0xFFF0 && m1 == Unmarked(m, bs[k].start)
    requires bs[k].prev < bs[k].start && bs[Last(bs, k)].end <= |m|
    requires k + 1 < |bs| ==> HeaderAt(m, bs[k + 1]) && bs[k + 1].start == bs[k].end
    requires k + 1 == |bs| ==> bs[k].end == |m|
    ensures var p := bs[k].prev;
            MergeOn(Put(m1, p + 4, bs[k].end), p, bs[k].end) == Put(m1, p + 4, bs[Last(bs, k)].end)
  {
    var p := bs[k].prev;
    var m2 := Put(m1, p + 4, bs[k].end);
    if k + 1 < |bs| {
      HeaderFrame(m, m2, bs[k + 1]);
      PutTwice(m1, p + 4, bs[k].end, bs[k + 1].end);
    }
  }

  lemma PutTwice(m: seq<byte>, a: nat, x: word, y: word)
    requires a + 2 <= |m|
    ensures Put(Put(m, a, x), a, y) == Put(m, a, y)
  {
  }

  // The word at prev + 4 as the release of block k writes it leaves every block fine.
  ghost predicate WordFine(m: seq<byte>, lo: nat, bs: seq<Block>, k: nat)
    requires Rep(m, lo, bs) && k < |bs|
  {
    && bs[k].start < |m| && bs[k].prev + 6 <= |m| && bs[Last(bs, k)].end < 0x1_0000
    && var m1 := Unmarked(m, bs[k].start);
       AllFine(m1, Put(m1, bs[k].prev + 4, bs[Last(bs, k)].end), lo, Idle(bs, k))
  }

  // For every heap and every block in use: releasing it leaves a heap that has lost just that
  // block, and no byte of another block in use, exactly when its back link can be trusted or
  // the word written at prev + 4 leaves every block fine.
  lemma FreeExactly(m: seq<byte>, lo: nat, bs: seq<Block>, k: nat)
    requires Rep(m, lo, bs) && k < |bs| && bs[k].inUse
    ensures LosesOnly(m, AfterFree(m, lo, bs, k), lo, bs, k) <==> Trusted(m, bs, k) || WordFine(m, lo, bs, k)
  {
    if Trusted(m, bs, k) {
      TrustedLosesOnly(m, lo, bs, k);
    } else {
      StaleLinkWrites(m, lo, bs, k);
      StaleExactly(m, lo, bs, k, AfterFree(m, lo, bs, k), bs[k].prev + 4, bs[Last(bs, k)].end);
    }
  }

  // The same, looking only at the blocks i and j that the two bytes at prev + 4 lie in.
  lemma FreeExactlyWhere(m: seq<byte>, lo: nat, bs: seq<Block>, k: nat, i: nat, j: nat)
    requires Rep(m, lo, bs) && k < |bs| && bs[k].inUse && !Trusted(m, bs, k) && i < |bs| && j < |bs|
    requires bs[i].start <= bs[k].prev + 4 < bs[i].end && bs[j].start <= bs[k].prev + 5 < bs[j].end
    ensures bs[k].start < |m|
    ensures var m1, r, cs := Unmarked(m, bs[k].start), AfterFree(m, lo, bs, k), Idle(bs, k);
            LosesOnly(m, r, lo, bs, k) <==> BlockFine(m1, r, lo, cs, i) && BlockFine(m1, r, lo, cs, j)
  {
    StaleLinkWrites(m, lo, bs, k);
    UnmarkedShows(m, lo, bs, k);
    var w, e := bs[k].prev + 4, bs[Last(bs, k)].end;
    StaleExactly(m, lo, bs, k, AfterFree(m, lo, bs, k), w, e);
    FineWhere(Unmarked(m, bs[k].start), lo, Idle(bs, k), w, e, i, j);
  }

  lemma TrustedLosesOnly(m: seq<byte>, lo: nat, bs: seq<Block>, k: nat)
    requires Rep(m, lo, bs) && k < |bs| && bs[k].inUse && Trusted(m, bs, k)
    ensures LosesOnly(m, AfterFree(m, lo, bs, k), lo, bs, k)
  {
    FreeKeepsHeap(m, lo, bs, k);
    ReleaseLive(bs, k);
  }

  lemma StaleExactly(m: seq<byte>, lo: nat, bs: seq<Block>, k: nat, r: seq<byte>, w: nat, e: word)
    requires Rep(m, lo, bs) && k < |bs| && bs[k].start < |m| && w + 2 <= |m|
    requires r == Put(Unmarked(m, bs[k].start), w, e)
    ensures LosesOnly(m, r, lo, bs, k) <==> AllFine(Unmarked(m, bs[k].start), r, lo, Idle(bs, k))
  {
    var m1 := Unmarked(m, bs[k].start);
    UnmarkedShows(m, lo, bs, k);
    LosesMeans(m, m1, r, lo, bs, k);
    FineMeans(m1, lo, Idle(bs, k), w, e);
  }

  lemma LosesMeans(m: seq<byte>, m1: seq<byte>, r: seq<byte>, lo: nat, bs: seq<Block>, k: nat)
    requires k < |bs| && 0 < lo < |m| <= 0xFFF0 && |m1| == |r| == |m|
    requires forall j :: 0 <= j < |bs| && j != k ==> Same(m, m1, bs[j].start, bs[j].end)
    ensures LosesOnly(m, r, lo, bs, k) <==> Rejoins(r, lo, lo, Live(Idle(bs, k))) && LiveSame(m1, r, Idle(bs, k))
  {
    IdleLive(bs, k);
    HeapExactly(r, lo, Live(Idle(bs, k)));
    SameAsUnmarked(m, m1, r, bs, k);
  }

  lemma FineMeans(m: seq<byte>, lo: nat, cs: seq<Block>, w: nat, e: word)
    requires Rep(m, lo, cs) && w + 2 <= |m|
    ensures AllFine(m, Put(m, w, e), lo, cs) <==>
              Rejoins(Put(m, w, e), lo, lo, Live(cs)) && LiveSame(m, Put(m, w, e), cs)
  {
    var r := Put(m, w, e);
    if LiveSame(m, r, cs) {
      WordKeepsChain(m, lo, lo, cs, w, e);
    } else {
      var j :| 0 <= j < |cs| && cs[j].inUse && !Same(m, r, cs[j].start, cs[j].end);
      assert !BlockFine(m, r, lo, cs, j);
    }
  }

  lemma SameAsUnmarked(m: seq<byte>, m1: seq<byte>, r: seq<byte>, bs: seq<Block>, k: nat)
    requires k < |bs| && |m1| == |m|
    requires forall j :: 0 <= j < |bs| && j != k ==> Same(m, m1, bs[j].start, bs[j].end)
    ensures LiveSame(m1, r, Idle(bs, k)) <==>
              forall j :: 0 <= j < |bs| && j != k && bs[j].inUse ==> Same(m, r, bs[j].start, bs[j].end)
  {
    var cs := Idle(bs, k);
    forall j | 0 <= j < |bs| && j != k
      ensures Same(m, r, bs[j].start, bs[j].end) <==> Same(m1, r, cs[j].start, cs[j].end)
    {
      assert cs[j] == bs[j] && Same(m, m1, bs[j].start, bs[j].end);
    }
    if forall j :: 0 <= j < |bs| && j != k && bs[j].inUse ==> Same(m, r, bs[j].start, bs[j].end) {
      forall j | 0 <= j < |cs| && cs[j].inUse ensures Same(m1, r, cs[j].start, cs[j].end) {
        assert j != k && bs[j] == cs[j];
      }
    }
    if LiveSame(m1, r, cs) {
      forall j | 0 <= j < |bs| && j != k && bs[j].inUse ensures Same(m, r, bs[j].start, bs[j].end) {
        assert cs[j] == bs[j];
      }
    }
  }

  lemma SameWord(m: seq<byte>, r: seq<byte>, a: nat)
    requires a + 2 <= |m| == |r|
    ensures WordAt(m, a) == WordAt(r, a) <==> m[a] == r[a] && m[a + 1] == r[a + 1]
  {
  }

  // The recorded back link points into the body of block j, at bytes that do not read "in use".
  ghost predicate LinksInto(m: seq<byte>, bs: seq<Block>, k: nat, j: nat)
    requires k < |bs| && j < |bs|
  {
    && j != k && bs[j].start + HDR <= bs[k].prev && bs[k].prev + HDR <= bs[j].end <= |m|
    && bs[j].end <= bs[k].start && !InUse(m, bs[k].prev)
  }

  lemma LinksIntoUntrusted(m: seq<byte>, lo: nat, bs: seq<Block>, k: nat, j: nat)
    requires Rep(m, lo, bs) && k < |bs| && j < |bs| && LinksInto(m, bs, k, j)
    ensures !Trusted(m, bs, k)
  {
    Within(bs, lo, |m|);
    assert bs[k] in bs && bs[j] in bs && (k > 0 ==> bs[k - 1] in bs);
    Apart(bs, lo, |m|, j, k);
    if k > 0 && j != k - 1 {
      Apart(bs, lo, |m|, j, k - 1);
    }
  }

  // Every block but one whose header the word does not touch is fine.
  lemma OthersFine(m: seq<byte>, lo: nat, bs: seq<Block>, w: nat, e: word, j: nat)
    requires Rep(m, lo, bs) && j < |bs| && bs[j].start <= w && w + 2 <= bs[j].end
    ensures w + 2 <= |m| && forall i :: 0 <= i < |bs| && i != j ==> BlockFine(m, Put(m, w, e), lo, bs, i)
  {
    Within(bs, lo, |m|);
    assert bs[j] in bs;
    forall i | 0 <= i < |bs| && i != j ensures BlockFine(m, Put(m, w, e), lo, bs, i) {
      assert bs[i] in bs;
      Apart(bs, lo, |m|, i, j);
      UntouchedFine(m, lo, bs, w, e, i);
    }
  }

  // A back link into the body of another block. If that block is in use, the release leaves it
  // as it was, and does no other harm, exactly when its body happened to hold the word written;
  // if it is free nothing is harmed.
  lemma StaleLinkOverwrites(m: seq<byte>, lo: nat, bs: seq<Block>, k: nat, j: nat)
    requires Rep(m, lo, bs) && k < |bs| && j < |bs| && bs[k].inUse && LinksInto(m, bs, k, j)
    ensures !Trusted(m, bs, k)
    ensures Same(m, AfterFree(m, lo, bs, k), bs[j].start, bs[j].end) <==>
              WordAt(m, bs[k].prev + 4) == bs[Last(bs, k)].end
    ensures LosesOnly(m, AfterFree(m, lo, bs, k), lo, bs, k) <==>
              !bs[j].inUse || WordAt(m, bs[k].prev + 4) == bs[Last(bs, k)].end
  {
    LinksIntoUntrusted(m, lo, bs, k, j);
    StaleLinkWrites(m, lo, bs, k);
    FreeExactlyWhere(m, lo, bs, k, j, j);
    UnmarkedShows(m, lo, bs, k);
    BodyFine(m, Unmarked(m, bs[k].start), AfterFree(m, lo, bs, k), lo, bs, k, j);
  }

  lemma BodyFine(m: seq<byte>, m1: seq<byte>, r: seq<byte>, lo: nat, bs: seq<Block>, k: nat, j: nat)
    requires k < |bs| && j < |bs| && j != k && bs[Last(bs, k)].end < 0x1_0000
    requires |m1| == |m| && Same(m, m1, bs[j].start, bs[j].end) && Rep(m1, lo, Idle(bs, k))
    requires bs[j].start + HDR <= bs[k].prev && bs[k].prev + HDR <= bs[j].end <= |m|
    requires r == Put(m1, bs[k].prev + 4, bs[Last(bs, k)].end)
    ensures Same(m, r, bs[j].start, bs[j].end) <==> WordAt(m, bs[k].prev + 4) == bs[Last(bs, k)].end
    ensures BlockFine(m1, r, lo, Idle(bs, k), j) <==>
              !bs[j].inUse || WordAt(m, bs[k].prev + 4) == bs[Last(bs, k)].end
  {
    var cs := Idle(bs, k);
    assert cs[j] == bs[j] && cs[j] in cs;
    SameWord(m, r, bs[k].prev + 4);
    if !bs[j].inUse {
      HeaderFrame(m1, r, bs[j]);
    }
  }

  lemma {:induction false} LiveNone(bs: seq<Block>)
    ensures Live(bs) == [] <==> forall i :: 0 <= i < |bs| ==> !bs[i].inUse
  {
    if bs != [] {
      var tail := bs[1..];
      LiveNone(tail);
      assert forall i :: 0 <= i < |tail| ==> tail[i] == bs[i + 1];
      assert forall i :: 1 <= i < |bs| ==> bs[i] == tail[i - 1];
    }
  }

  // What is live between an earlier free block and the end of the stretch being freed.
  lemma LiveBetween(bs: seq<Block>, j: nat, k: nat)
    requires j < k < |bs|
    ensures Live(Idle(bs, k)[j + 1..]) == Live(bs[j + 1..k]) + Live(bs[Last(bs, k) + 1..])
  {
    var cs, last := Idle(bs, k), Last(bs, k);
    var a, c := bs[j + 1..k], bs[last + 1..];
    var mid := cs[k..last + 1];
    assert cs[j + 1..] == a + mid + c;
    LiveNone(mid);
    Live3(a, mid, c);
  }

  // Behind the stretch the image still shows the same blocks.
  lemma ShowsBehind(m: seq<byte>, lo: nat, bs: seq<Block>, k: nat, r: seq<byte>)
    requires Rep(m, lo, bs) && k < |bs| && |r| == |m|
    requires forall i :: bs[k].end <= i < |m| ==> r[i] == m[i]
    ensures bs[Last(bs, k)].end <= |m| && Shows(r, lo, bs[Last(bs, k)].end, bs[Last(bs, k) + 1..])
  {
    var last := Last(bs, k);
    Stretch(bs, lo, |m|, k);
    Around(bs, lo, |m|, last);
    Within(bs[last + 1..], bs[last].end, |m|);
    HeadersFrame(m, r, bs[last + 1..], bs[last].end, |m|);
  }

  // A back link to the header of an earlier free block that is not the predecessor: the release
  // makes that block reach over everything up to the end of the freed stretch, so it is harmless
  // exactly when no block between the two is in use. Those that are drop off the chain.
  lemma StaleHeaderSkips(m: seq<byte>, lo: nat, bs: seq<Block>, k: nat, j: nat)
    requires Rep(m, lo, bs) && k < |bs| && bs[k].inUse
    requires j + 1 < k && bs[k].prev == bs[j].start && !bs[j].inUse
    ensures bs[j].start + HDR <= |m| && !Trusted(m, bs, k)
    ensures Next(AfterFree(m, lo, bs, k), bs[j].start) == bs[Last(bs, k)].end
    ensures LosesOnly(m, AfterFree(m, lo, bs, k), lo, bs, k) <==> forall i :: j < i < k ==> !bs[i].inUse
  {
    assert bs[j] in bs && bs[k] in bs && bs[k - 1] in bs;
    Apart(bs, lo, |m|, j, k - 1);
    Within(bs, lo, |m|);
    StaleLinkWrites(m, lo, bs, k);
    SkipsExactly(m, lo, bs, k, j, AfterFree(m, lo, bs, k));
    NoneBetween(bs, j, k);
  }

  lemma NoneBetween(bs: seq<Block>, j: nat, k: nat)
    requires j < k <= |bs|
    ensures Live(bs[j + 1..k]) == [] <==> forall i :: j < i < k ==> !bs[i].inUse
  {
    var mid := bs[j + 1..k];
    LiveNone(mid);
    forall i | j < i < k ensures bs[i] == mid[i - j - 1] {
    }
    if forall i :: j < i < k ==> !bs[i].inUse {
      forall i | 0 <= i < |mid| ensures !mid[i].inUse {
        assert mid[i] == bs[i + j + 1];
      }
    }
  }

  lemma SkipsExactly(m: seq<byte>, lo: nat, bs: seq<Block>, k: nat, j: nat, r: seq<byte>)
    requires Rep(m, lo, bs) && j < k < |bs| && bs[j].start + 6 <= |m| && !bs[j].inUse
    requires bs[k].start < |m| && bs[Last(bs, k)].end < 0x1_0000
    requires r == Put(Unmarked(m, bs[k].start), bs[j].start + 4, bs[Last(bs, k)].end)
    ensures LosesOnly(m, r, lo, bs, k) <==> Live(bs[j + 1..k]) == []
  {
    StaleExactly(m, lo, bs, k, r, bs[j].start + 4, bs[Last(bs, k)].end);
    SkippedExactly(m, lo, bs, k, j, r);
  }

  lemma SkippedExactly(m: seq<byte>, lo: nat, bs: seq<Block>, k: nat, j: nat, r: seq<byte>)
    requires Rep(m, lo, bs) && j < k < |bs| && bs[j].start + 6 <= |m| && !bs[j].inUse
    requires bs[k].start < |m| && bs[Last(bs, k)].end < 0x1_0000
    requires r == Put(Unmarked(m, bs[k].start), bs[j].start + 4, bs[Last(bs, k)].end)
    ensures AllFine(Unmarked(m, bs[k].start), r, lo, Idle(bs, k)) <==> Live(bs[j + 1..k]) == []
  {
    var m1, cs := Unmarked(m, bs[k].start), Idle(bs, k);
    UnmarkedShows(m, lo, bs, k);
    assert cs[j] == bs[j];
    SkippedOthers(m1, lo, cs, j, bs[Last(bs, k)].end);
    SkippedHeader(m, lo, bs, k, j);
    FreeReads(m, lo, bs, k);
    SkippedFine(m, lo, bs, k, j, m1);
  }

  lemma SkippedHeader(m: seq<byte>, lo: nat, bs: seq<Block>, k: nat, j: nat)
    requires Rep(m, lo, bs) && j < k < |bs|
    ensures bs[k].start < |m| && bs[j].end <= bs[k].start && HeaderAt(Unmarked(m, bs[k].start), bs[j])
  {
    UnmarkedShows(m, lo, bs, k);
    Apart(bs, lo, |m|, j, k);
    assert Idle(bs, k)[j] == bs[j] && Idle(bs, k)[j] in Idle(bs, k);
  }

  lemma SkippedOthers(m: seq<byte>, lo: nat, cs: seq<Block>, j: nat, e: word)
    requires Rep(m, lo, cs) && j < |cs|
    ensures cs[j].start + 6 <= |m|
    ensures AllFine(m, Put(m, cs[j].start + 4, e), lo, cs) <==> BlockFine(m, Put(m, cs[j].start + 4, e), lo, cs, j)
  {
    Within(cs, lo, |m|);
    assert cs[j] in cs;
    OthersFine(m, lo, cs, cs[j].start + 4, e, j);
  }

  lemma SkippedFine(m: seq<byte>, lo: nat, bs: seq<Block>, k: nat, j: nat, m1: seq<byte>)
    requires Rep(m, lo, bs) && k < |bs| && j < k && !bs[j].inUse && |m1| == |m| && bs[j].end <= bs[k].start
    requires HeaderAt(m1, bs[j]) && forall i :: bs[k].end <= i < |m| ==> m1[i] == m[i]
    ensures bs[Last(bs, k)].end <= |m|
    ensures var r := Put(m1, bs[j].start + 4, bs[Last(bs, k)].end);
            BlockFine(m1, r, lo, Idle(bs, k), j) <==> Live(bs[j + 1..k]) == []
  {
    Stretch(bs, lo, |m|, k);
    ShowsBehind(m, lo, bs, k, m1);
    var e := bs[Last(bs, k)].end;
    var r := Put(m1, bs[j].start + 4, e);
    assert bs[j] in bs;
    MovedFine(m1, lo, Idle(bs, k), j, e);
    ShowsBehind(m, lo, bs, k, r);
    RejoinsShown(r, lo, e, bs[Last(bs, k) + 1..], Live(Idle(bs, k)[j + 1..]));
    LiveBetween(bs, j, k);
  }

  // A free block whose end is moved further up is fine when the chain rejoins from there.
  lemma MovedFine(m: seq<byte>, lo: nat, cs: seq<Block>, j: nat, e: word)
    requires j < |cs| && HeaderAt(m, cs[j]) && !cs[j].inUse && LinkOk(cs[j].prev, lo, cs[j].start)
    requires cs[j].end < e
    ensures var r := Put(m, cs[j].start + 4, e);
            BlockFine(m, r, lo, cs, j) <==> Rejoins(r, lo, e, Live(cs[j + 1..]))
  {
    var r, a := Put(m, cs[j].start + 4, e), cs[j].start;
    assert Next(r, a) == e && Prev(r, a) == Prev(m, a) && InUse(r, a) == InUse(m, a);
  }

  // ---------- Allocating in memory ----------

  // What an allocation has written when it is done: nothing outside block k, and in it the
  // headers of the carved block and of what is left of it.
  ghost predicate AllocWrote(m: seq<byte>, r: seq<byte>, bs: seq<Block>, k: nat, need: nat)
    requires k < |bs|
  {
    && |r| == |m| && (forall i :: 0 <= i < |m| && !(bs[k].start <= i < bs[k].end) ==> r[i] == m[i])
    && Headers(r, Carved(bs[k], need))
  }

  lemma AllocLeavesOthers(m: seq<byte>, r: seq<byte>, lo: nat, bs: seq<Block>, k: nat, need: nat)
    requires Rep(m, lo, bs) && k < |bs| && AllocWrote(m, r, bs, k, need)
    ensures Headers(r, bs[..k]) && Headers(r, bs[k + 1..])
    ensures forall j :: 0 <= j < |bs| && j != k ==> Same(m, r, bs[j].start, bs[j].end)
  {
    Around(bs, lo, |m|, k);
    Within(bs[..k], lo, bs[k].start);
    Within(bs[k + 1..], bs[k].end, |m|);
    HeadersFrame(m, r, bs[..k], lo, bs[k].start);
    HeadersFrame(m, r, bs[k + 1..], bs[k].end, |m|);
    forall j | 0 <= j < |bs| && j != k ensures Same(m, r, bs[j].start, bs[j].end) {
      assert bs[j] in if j < k then bs[..k] else bs[k + 1..] by {
        if j > k { assert bs[j] == bs[k + 1..][j - k - 1]; }
      }
    }
  }

  lemma AllocKeepsHeap(m: seq<byte>, r: seq<byte>, lo: nat, bs: seq<Block>, k: nat, need: nat)
    requires Rep(m, lo, bs) && k < |bs| && Fits(bs[k], need) && HDR <= need && AllocWrote(m, r, bs, k, need)
    ensures Rep(r, lo, Carve(bs, k, need))
  {
    CarveKeeps(bs, lo, |m|, k, need);
    AllocLeavesOthers(m, r, lo, bs, k, need);
    forall b | b in Carve(bs, k, need) ensures HeaderAt(r, b) {
      assert b in bs[..k] || b in Carved(bs[k], need) || b in bs[k + 1..];
    }
  }

  // Stamping the first header of a carved block completes its headers.
  lemma StampedHeaders(m: seq<byte>, r: seq<byte>, b: Block, need: nat)
    requires |r| == |m| && b.start + HDR <= b.end <= |m| && HDR <= need
    requires forall i :: 0 <= i < |m| && i != b.start && i != b.start + 2 && i != b.start + 3 ==> r[i] == m[i]
    requires InUse(r, b.start) && Prev(m, b.start) == b.prev
    requires Next(m, b.start) == if Splits(b, need) then b.start + need else b.end
    requires Splits(b, need) ==> HeaderAt(m, Block(b.start + need, b.end, false, b.start))
    ensures Headers(r, Carved(b, need))
  {
    var mid := Carved(b, need);
    assert HeaderAt(r, mid[0]);
    if Splits(b, need) {
      HeaderFrame(m, r, mid[1]);
    }
  }

  // Filling in the carved block behind its header changes nothing of this.
  lemma BodyKeepsHeap(m: seq<byte>, taken: seq<byte>, r: seq<byte>, lo: nat, bs: seq<Block>, k: nat, need: nat)
    requires Rep(m, lo, bs) && k < |bs| && Fits(bs[k], need) && HDR + PTR <= need
    requires AllocWrote(m, taken, bs, k, need) && bs[k].start + need <= bs[k].end <= |r| == |m|
    requires forall i :: 0 <= i < |r| && !(bs[k].start + HDR <= i < bs[k].start + need) ==> r[i] == taken[i]
    ensures Rep(r, lo, Carve(bs, k, need))
    ensures WordAt(r, bs[k].start + 2) == WordAt(taken, bs[k].start + 2)
    ensures forall j :: 0 <= j < |bs| && j != k ==> Same(m, r, bs[j].start, bs[j].end)
  {
    forall b | b in Carved(bs[k], need) ensures HeaderAt(r, b) {
      HeaderFrame(taken, r, b);
    }
    AllocKeepsHeap(m, r, lo, bs, k, need);
    AllocLeavesOthers(m, r, lo, bs, k, need);
  }

  // memCheck's walk: headers ascend, back links point below their header, and the walk ends
  // exactly at the end of the arena.
  predicate Walks(m: seq<byte>, a: nat)
    decreases |m| - a
  {
    if a >= |m| then a == |m|
    else a + HDR <= |m| && a < Next(m, a) && Prev(m, a) < a && Walks(m, Next(m, a))
  }

  lemma {:induction false} TiledWalks(m: seq<byte>, lo: nat, bs: seq<Block>)
    requires Tiles(bs, lo, |m|) && Headers(m, bs) && 0 < lo
    requires forall b :: b in bs ==> b.prev < b.start
    ensures Walks(m, lo)
    decreases |bs|
  {
    if bs != [] {
      assert bs[0] in bs;
      TiledWalks(m, bs[0].end, bs[1..]);
    }
  }

  // A chain of headers from the first address to the end of the image: each links to the next,
  // which lies above it, and back to something below it.
  ghost predicate Chain(m: seq<byte>, path: seq<nat>) {
    && path != [] && path[|path| - 1] == |m|
    && forall i :: 0 <= i && i + 1 < |path| ==>
         path[i] + HDR <= |m| && Prev(m, path[i]) < path[i] < path[i + 1] && Next(m, path[i]) == path[i + 1]
  }

  lemma {:induction false} ChainWalks(m: seq<byte>, path: seq<nat>)
    requires Chain(m, path)
    ensures Walks(m, path[0])
    decreases |path|
  {
    if |path| > 1 {
      var tail := path[1..];
      assert forall i :: 0 <= i < |tail| ==> tail[i] == path[i + 1];
      assert path[0] < path[0 + 1];
      ChainWalks(m, tail);
    }
  }

  lemma {:induction false} WalkGives(m: seq<byte>, a: nat) returns (path: seq<nat>)
    requires Walks(m, a)
    ensures Chain(m, path) && path[0] == a
    decreases |m| - a
  {
    if a >= |m| {
      path := [a];
    } else {
      var rest := WalkGives(m, Next(m, a));
      path := [a] + rest;
      assert forall i :: 1 <= i < |path| ==> path[i] == rest[i - 1];
    }
  }

  // The walk accepts exactly the images whose headers form such a chain.
  lemma WalksExactly(m: seq<byte>, a: nat)
    ensures Walks(m, a) <==> exists path :: Chain(m, path) && path[0] == a
  {
    if Walks(m, a) {
      var path := WalkGives(m, a);
    }
    if exists path :: Chain(m, path) && path[0] == a {
      var path :| Chain(m, path) && path[0] == a;
      ChainWalks(m, path);
    }
  }

  // Every header that the walk reads lies inside the image.
  ghost predicate Readable(m: seq<byte>, a: nat)
    decreases |m| - a
  {
    a >= |m| || (a + HDR <= |m| && (a < Next(m, a) && Prev(m, a) < a ==> Readable(m, Next(m, a))))
  }

  // osal_mem_init leaves one free block.
  lemma InitialHeap(m: seq<byte>, lo: nat)
    requires 0 < lo && lo + HDR <= |m| <= 0xFFF0
    requires m[lo] == 0 && Prev(m, lo) == 0
    ensures Rep(Put(m, lo + 4, |m|), lo, [Block(lo, |m|, false, 0)])
  {
    assert HeaderAt(Put(m, lo + 4, |m|), Block(lo, |m|, false, 0));
    assert [Block(lo, |m|, false, 0)][1..] == [];
  }

  // A stored file name, with its line number behind it.
  ghost predicate NameAt(m: seq<byte>, a: nat, name: seq<byte>, lnum: word) {
    a + |name| + 2 <= |m| && m[a..a + |name|] == name && WordAt(m, a + |name|) == lnum
  }

  lemma NameFrame(m: seq<byte>, r: seq<byte>, a: nat, name: seq<byte>, lnum: word)
    requires NameAt(m, a, name, lnum) && |r| == |m|
    requires forall i :: a <= i < a + |name| + 2 ==> r[i] == m[i]
    ensures NameAt(r, a, name, lnum)
  {
    assert r[a..a + |name|] == m[a..a + |name|];
  }

  // The blocks of the heap a release leaves, if it leaves one.
  ghost function BlocksAfter(m: seq<byte>, lo: nat, bs: seq<Block>, k: nat): seq<Block>
    requires Rep(m, lo, bs) && k < |bs|
  {
    var r, live := AfterFree(m, lo, bs, k), Live(bs[..k]) + Live(bs[k + 1..]);
    if Trusted(m, bs, k) then Release(bs, k)
    else if exists cs :: Rep(r, lo, cs) && Live(cs) == live then
      var cs :| Rep(r, lo, cs) && Live(cs) == live; cs
    else bs
  }

  lemma BlocksAfterShow(m: seq<byte>, lo: nat, bs: seq<Block>, k: nat)
    requires Rep(m, lo, bs) && k < |bs| && bs[k].inUse
    ensures Trusted(m, bs, k) || LosesOnly(m, AfterFree(m, lo, bs, k), lo, bs, k) ==>
              && Rep(AfterFree(m, lo, bs, k), lo, BlocksAfter(m, lo, bs, k))
              && Live(BlocksAfter(m, lo, bs, k)) == Live(bs[..k]) + Live(bs[k + 1..])
    ensures Trusted(m, bs, k) ==>
              forall j :: 0 <= j < |bs| && j != k && bs[j].inUse ==>
                Same(m, AfterFree(m, lo, bs, k), bs[j].start, bs[j].end)
  {
    if Trusted(m, bs, k) {
      FreeKeepsHeap(m, lo, bs, k);
      ReleaseLive(bs, k);
    }
  }

  class Heap {
    const theHeap: nat
    const ram: array<byte>
    var counter: word
    ghost var blocks: seq<Block>

    ghost predicate Valid()
      reads this, ram
    {
      Rep(ram[..], theHeap, blocks)
    }

    constructor OsalMemInit(theHeap: nat, ram: array<byte>)
      requires 0 < theHeap && theHeap + HDR <= ram.Length <= 0xFFF0
      modifies ram
      ensures Valid() && this.theHeap == theHeap && this.ram == ram
      ensures blocks == [Block(theHeap, ram.Length, false, 0)]
    {
      this.theHeap, this.ram, counter := theHeap, ram, 1;
      new;
      ClearArena();
      StoreWord(theHeap + 6, 0);
      assert ram[..][theHeap] == 0;
      assert Prev(ram[..], theHeap) == 0;
      FirstHeader();
    }

    method FirstHeader()
      requires 0 < theHeap && theHeap + HDR <= ram.Length <= 0xFFF0
      requires ram[theHeap] == 0 && Prev(ram[..], theHeap) == 0
      modifies this`blocks, ram
      ensures Valid() && blocks == [Block(theHeap, ram.Length, false, 0)]
    {
      InitialHeap(ram[..], theHeap);
      StoreWord(theHeap + 4, ram.Length);
      blocks := [Block(theHeap, ram.Length, false, 0)];
    }

    method ClearArena()
      requires theHeap <= ram.Length
      modifies ram
      ensures forall i :: theHeap <= i < ram.Length ==> ram[i] == 0
    {
      for a := theHeap to ram.Length
        invariant forall i :: theHeap <= i < a ==> ram[i] == 0
      {
        ram[a] := 0;
      }
    }

    method StoreWord(a: nat, w: word)
      requires a + 2 <= ram.Length
      modifies ram
      ensures ram[..] == Put(old(ram[..]), a, w)
    {
      ram[a] := Lo(w);
      ram[a + 1] := Hi(w);
      assert ram[..] == old(ram[..])[a := Lo(w)][a + 1 := Hi(w)];
    }

    method StoreBytes(a: nat, bytes: seq<byte>)
      requires a + |bytes| <= ram.Length
      modifies ram
      ensures forall i :: 0 <= i < ram.Length ==>
                ram[i] == if a <= i < a + |bytes| then bytes[i - a] else old(ram[i])
    {
      for n := 0 to |bytes|
        invariant forall i :: 0 <= i < ram.Length ==> ram[i] == if a <= i < a + n then bytes[i - a] else old(ram[i])
      {
        ram[a + n] := bytes[n];
      }
    }

    // The header of what is left when a block is split, and the split block's new end.
    method WriteRest(iter: nat, need: nat, end: nat)
      requires HDR <= need && iter + need + HDR <= end <= ram.Length <= 0xFFF0
      modifies ram
      ensures forall i :: 0 <= i < ram.Length ==>
                iter + 4 <= i < iter + 6 || iter + need <= i < iter + need + HDR || ram[i] == old(ram[i])
      ensures Next(ram[..], iter) == iter + need
      ensures HeaderAt(ram[..], Block(iter + need, end, false, iter))
    {
      var next := iter + need;
      ram[next] := Cleared(ram[next]);
      StoreWord(next + 4, end);
      StoreWord(next + 6, iter);
      assert Next(ram[..], next) == end && !InUse(ram[..], next);
      ghost var m := ram[..];
      StoreWord(iter + 4, next);
      HeaderFrame(m, ram[..], Block(next, end, false, iter));
    }

    // The first merge; `head` is the header that now covers the freed block.
    method JoinPrevious(memHdr: nat) returns (head: nat)
      requires memHdr + HDR <= ram.Length && Prev(ram[..], memHdr) + HDR <= ram.Length
      modifies ram
      ensures ram[..] == MergeBack(old(ram[..]), memHdr)
      ensures head == if GoesBack(old(ram[..]), memHdr) then Prev(old(ram[..]), memHdr) else memHdr
    {
      head := memHdr;
      var prev: nat := Prev(ram[..], memHdr);
      if prev != 0 && !InUse(ram[..], prev) {
        StoreWord(prev + 4, Next(ram[..], memHdr));
        head := prev;
      }
    }

    method JoinNext(memHdr: nat, next: nat)
      requires memHdr + HDR <= ram.Length && (next + HDR <= ram.Length || next == ram.Length)
      modifies ram
      ensures ram[..] == MergeOn(old(ram[..]), memHdr, next)
    {
      if next < ram.Length && !InUse(ram[..], next) {
        StoreWord(memHdr + 4, Next(ram[..], next));
      }
    }

    // Marks the header in use and gives it its id and its "named" flag.
    method Stamp(iter: nat, named: bool)
      requires iter + HDR <= ram.Length
      modifies this`counter, ram
      ensures forall i :: 0 <= i < ram.Length && i != iter && i != iter + 2 && i != iter + 3 ==> ram[i] == old(ram[i])
      ensures InUse(ram[..], iter) && (ram[iter] % 2 == 1 <==> named)
      ensures WordAt(ram[..], iter + 2) == old(counter) && counter == (old(counter) + 1) % 0x1_0000
    {
      FlagBits(ram[iter], named);
      ram[iter] := Marked(ram[iter]);
      StoreWord(iter + 2, counter);
      counter := (counter + 1) % 0x1_0000;
      ghost var m := ram[..];
      ram[iter] := Named(ram[iter], named);
      assert WordAt(ram[..], iter + 2) == WordAt(m, iter + 2);
    }

    // The name and line, the back cell holding the block's start, and the filled payload.
    method WriteBody(iter: nat, size: word, name: Option<seq<byte>>, lnum: word) returns (data: nat)
      requires iter + Need(size, name) <= ram.Length <= 0xFFF0
      modifies ram
      ensures data == iter + HDR + NameLen(name) + PTR
      ensures forall i :: 0 <= i < ram.Length && !(iter + HDR <= i < iter + Need(size, name)) ==> ram[i] == old(ram[i])
      ensures name.Some? ==> NameAt(ram[..], iter + HDR, name.value, lnum)
      ensures WordAt(ram[..], data - PTR) == iter
      ensures forall i :: data <= i < data + size + 4 ==> ram[i] == FILL
    {
      data := iter + HDR;
      if name.Some? {
        StoreBytes(data, name.value);
        data := data + |name.value|;
        StoreWord(data, lnum);
        data := data + 2;
      }
      ghost var named := ram[..];
      StoreWord(data, iter);
      data := data + PTR;
      ghost var linked := ram[..];
      StoreBytes(data, seq(size + 4, _ => FILL));
      assert WordAt(ram[..], data - PTR) == WordAt(linked, data - PTR);
      if name.Some? {
        assert NameAt(named, iter + HDR, name.value, lnum);
        NameFrame(named, ram[..], iter + HDR, name.value, lnum);
      }
    }

    // The walk to the first free block of at least `need` bytes.
    method FindFree(need: word) returns (iter: nat)
      requires Valid()
      ensures var k := FirstFit(blocks, need);
              if k < |blocks| then iter == blocks[k].start < ram.Length else iter == ram.Length
    {
      iter := theHeap;
      ghost var k := 0;
      FreeReads(ram[..], theHeap, blocks, 0);
      while iter < ram.Length && !(!InUse(ram[..], iter) && Next(ram[..], iter) - iter >= need)
        invariant k <= FirstFit(blocks, need)
        invariant if k < |blocks| then iter == blocks[k].start && HeaderAt(ram[..], blocks[k]) else iter == ram.Length
        decreases ram.Length - iter
      {
        FreeReads(ram[..], theHeap, blocks, k);
        iter := Next(ram[..], iter);
        k := k + 1;
      }
    }

    // Carves block k; the header of what is left of it is written first.
    method Take(iter: nat, need: word, named: bool, ghost k: nat)
      requires Valid() && k < |blocks| && Fits(blocks[k], need) && HDR + PTR <= need && iter == blocks[k].start
      modifies this`counter, ram
      ensures AllocWrote(old(ram[..]), ram[..], blocks, k, need) && iter + need <= blocks[k].end <= ram.Length
      ensures WordAt(ram[..], iter + 2) == old(counter) && counter == (old(counter) + 1) % 0x1_0000
    {
      ghost var m, b := ram[..], blocks[k];
      FreeReads(m, theHeap, blocks, k);
      var end := Next(ram[..], iter);
      if end - iter > need + HDR {
        WriteRest(iter, need, end);
      }
      ghost var split := ram[..];
      Stamp(iter, named);
      StampedHeaders(split, ram[..], b, need);
    }

    method TakeAndFill(iter: nat, size: word, name: Option<seq<byte>>, lnum: word, ghost k: nat) returns (p: nat)
      requires Valid() && Need(size, name) < 0x1_0000
      requires k < |blocks| && Fits(blocks[k], Need(size, name)) && iter == blocks[k].start
      modifies this, ram
      ensures Valid()
      ensures var bs, need := old(blocks), Need(size, name);
              && blocks == Carve(bs, k, need) && counter == (old(counter) + 1) % 0x1_0000
              && p == bs[k].start + HDR + NameLen(name) + PTR
              && bs[k].start + need <= bs[k].end <= ram.Length && p + size + 4 == bs[k].start + need
              && WordAt(ram[..], p - PTR) == bs[k].start
              && WordAt(ram[..], bs[k].start + 2) == old(counter)
              && (name.Some? ==> NameAt(ram[..], bs[k].start + HDR, name.value, lnum))
              && (forall i :: p <= i < p + size + 4 ==> ram[i] == FILL)
              && (forall j :: 0 <= j < |bs| && j != k ==> Same(old(ram[..]), ram[..], bs[j].start, bs[j].end))
    {
      ghost var m, bs, need := ram[..], blocks, Need(size, name);
      Take(iter, Need(size, name), name.Some?, k);
      ghost var taken := ram[..];
      p := WriteBody(iter, size, name, lnum);
      BodyKeepsHeap(m, taken, ram[..], theHeap, bs, k, need);
      blocks := Carve(bs, k, need);
    }

    // First fit: p is 0 exactly when no free block is large enough, and then nothing changes.
    // Otherwise the first such block is carved, its payload lies inside it behind a cell that
    // holds its start, and no other block loses a byte.
    method OsalMemAllocDbg(size: word, name: Option<seq<byte>>, lnum: word) returns (p: nat)
      requires Valid() && (name.Some? ==> |name.value| <= 0xFF)
      requires Need(size, name) < 0x1_0000 || FirstFit(blocks, Need16(size, name)) == |blocks|
      modifies this, ram
      ensures Valid()
      ensures var bs, need := old(blocks), Need16(size, name);
              var k := FirstFit(bs, need);
              if k == |bs| then p == 0 && blocks == bs && ram[..] == old(ram[..]) && counter == old(counter)
              else
                && blocks == Carve(bs, k, need) && counter == (old(counter) + 1) % 0x1_0000
                && p == bs[k].start + HDR + NameLen(name) + PTR
                && bs[k].start + need <= bs[k].end <= ram.Length && p + size + 4 == bs[k].start + need
                && WordAt(ram[..], p - PTR) == bs[k].start
                && WordAt(ram[..], bs[k].start + 2) == old(counter)
                && (name.Some? ==> NameAt(ram[..], bs[k].start + HDR, name.value, lnum))
                && (forall i :: p <= i < p + size + 4 ==> ram[i] == FILL)
                && (forall j :: 0 <= j < |bs| && j != k ==> Same(old(ram[..]), ram[..], bs[j].start, bs[j].end))
    {
      var sizeNeed := Need16(size, name);
      NeedWraps(size, name);
      var iter := FindFree(sizeNeed);
      if iter >= ram.Length {
        return 0;
      }
      p := TakeAndFill(iter, size, name, lnum, FirstFit(blocks, sizeNeed));
    }

    // ptr is what an allocation returned: the cell before it holds the start of a live block.
    // Whatever its back link says, memory is then as AfterFree describes; the blocks are the
    // old ones with this one released when the link can be trusted, and otherwise whatever
    // heap is left, if one is.
    method OsalMemFree(ptr: nat, ghost k: nat)
      requires Valid() && PTR <= ptr <= ram.Length
      requires k < |blocks| && blocks[k].inUse && WordAt(ram[..], ptr - PTR) == blocks[k].start
      modifies this, ram
      ensures ram[..] == AfterFree(old(ram[..]), theHeap, old(blocks), k) && counter == old(counter)
      ensures old(Trusted(ram[..], blocks, k)) ==>
                && Valid() && blocks == Release(old(blocks), k)
                && forall j :: 0 <= j < |old(blocks)| && j != k && old(blocks)[j].inUse ==>
                     Same(old(ram[..]), ram[..], old(blocks)[j].start, old(blocks)[j].end)
      ensures LosesOnly(old(ram[..]), ram[..], theHeap, old(blocks), k) ==>
                Valid() && Live(blocks) == Live(old(blocks)[..k]) + Live(old(blocks)[k + 1..])
    {
      ghost var m, bs := ram[..], blocks;
      FreeReads(m, theHeap, blocks, k);
      var iter := ptr - PTR;
      var memHdr: nat := WordAt(ram[..], iter);
      var next := Next(ram[..], memHdr);
      ram[memHdr] := Cleared(ram[memHdr]);
      ghost var m1 := Unmarked(m, memHdr);
      assert ram[..] == m1 && Prev(m1, memHdr) == Prev(m, memHdr);
      memHdr := JoinPrevious(memHdr);
      JoinNext(memHdr, next);
      blocks := BlocksAfter(m, theHeap, bs, k);
      BlocksAfterShow(m, theHeap, bs, k);
    }

    method MemCheck() returns (ok: bool)
      requires theHeap < ram.Length < 0x1_0000 && Readable(ram[..], theHeap)
      ensures ok <==> Walks(ram[..], theHeap)
    {
      var iter := theHeap;
      while iter < ram.Length
        invariant theHeap <= iter <= ram.Length && Readable(ram[..], iter)
        invariant Walks(ram[..], theHeap) <==> Walks(ram[..], iter)
        decreases ram.Length - iter
      {
        if iter >= Next(ram[..], iter) || iter <= Prev(ram[..], iter) {
          return false;
        }
        iter := Next(ram[..], iter);
        if iter > ram.Length || iter < theHeap {
          return false;
        }
      }
      return true;
    }
  }

  // ---------- Reaching stale back links ----------

  // A first fit in the last block, behind blocks that are in use.
  lemma CarveLast(bs: seq<Block>, last: Block, need: nat)
    requires Fits(last, need) && forall b :: b in bs ==> b.inUse
    ensures FirstFit(bs + [last], need) == |bs|
    ensures Carve(bs + [last], |bs|, need) == bs + Carved(last, need)
  {
    assert forall j :: 0 <= j < |bs| ==> (bs + [last])[j] == bs[j] && bs[j] in bs;
    assert (bs + [last])[|bs|] == last;
    assert (bs + [last])[..|bs|] == bs && (bs + [last])[|bs| + 1..] == [];
  }

  // Allocates from the heap's last block, all others being in use.
  method AllocLast(h: Heap, size: word, ghost used: seq<Block>, ghost last: Block) returns (p: nat)
    requires h.Valid() && h.blocks == used + [last] && (forall b :: b in used ==> b.inUse)
    requires Need(size, None) < 0x1_0000 && !last.inUse && last.end > last.start + Need(size, None) + HDR
    modifies h, h.ram
    ensures h.Valid() && h.blocks == used + Carved(last, Need(size, None)) && p == last.start + HDR + PTR
    ensures p <= h.ram.Length && WordAt(h.ram[..], p - PTR) == last.start
    ensures forall b :: b in used ==> Same(old(h.ram[..]), h.ram[..], b.start, b.end)
  {
    CarveLast(used, last, Need(size, None));
    p := h.OsalMemAllocDbg(size, None, 0);
    forall b | b in used ensures Same(old(h.ram[..]), h.ram[..], b.start, b.end) {
      var j :| 0 <= j < |used| && used[j] == b;
      assert old(h.blocks)[j] == b;
    }
  }

  // The blocks after three allocations of ten bytes in a fresh image of 1000 bytes.
  const FIRST := Block(8, 32, true, 0)
  const SECOND := Block(32, 56, true, 8)
  const THIRD := Block(56, 80, true, 32)
  const BEHIND := Block(80, 1000, false, 56)

  method AllocThree(ram: array<byte>) returns (h: Heap, a: nat, b: nat)
    requires ram.Length == 1000
    modifies ram
    ensures fresh(h) && h.ram == ram && h.theHeap == 8 && h.Valid() && h.blocks == [FIRST, SECOND, THIRD, BEHIND]
    ensures a == 18 && WordAt(ram[..], a - PTR) == 8 && b == 42 && WordAt(ram[..], b - PTR) == 32
  {
    h := new Heap.OsalMemInit(8, ram);
    a := AllocLast(h, 10, [], Block(8, 1000, false, 0));
    ghost var m := ram[..];
    b := AllocLast(h, 10, [FIRST], Block(32, 1000, false, 8));
    assert Same(m, ram[..], 8, 32);
    m := ram[..];
    var c := AllocLast(h, 10, [FIRST, SECOND], Block(56, 1000, false, 32));
    assert Same(m, ram[..], 8, 32) && Same(m, ram[..], 32, 56);
  }

  // A link into a live block is reached by allocating three blocks, releasing the second and
  // the first, and allocating a larger block over both: the third block still records the
  // second as its predecessor, and releasing it would overwrite the live payload there.
  method ReachStaleLink(ram: array<byte>) returns (h: Heap)
    requires ram.Length == 1000
    modifies ram
    ensures fresh(h) && h.ram == ram && h.Valid() && h.blocks == [Block(8, 56, true, 0), THIRD, BEHIND]
    ensures LinksInto(ram[..], h.blocks, 1, 0)
    ensures !LosesOnly(ram[..], AfterFree(ram[..], h.theHeap, h.blocks, 1), h.theHeap, h.blocks, 1)
  {
    var a, b;
    h, a, b := AllocThree(ram);
    FreeTwo(h, a, b);
    AllocOver(h);
    StaleLinkOverwrites(ram[..], 8, h.blocks, 1, 0);
  }

  lemma TwoReleased()
    ensures Release([FIRST, SECOND, THIRD, BEHIND], 1) == [FIRST, SECOND.(inUse := false), THIRD, BEHIND]
    ensures Release([FIRST, SECOND.(inUse := false), THIRD, BEHIND], 0) == [Block(8, 56, false, 0), THIRD, BEHIND]
  {
  }

  method FreeTwo(h: Heap, a: nat, b: nat)
    requires h.Valid() && h.blocks == [FIRST, SECOND, THIRD, BEHIND] && h.ram.Length == 1000
    requires a == 18 && WordAt(h.ram[..], a - PTR) == 8 && b == 42 && WordAt(h.ram[..], b - PTR) == 32
    modifies h, h.ram
    ensures h.Valid() && h.blocks == [Block(8, 56, false, 0), THIRD, BEHIND]
  {
    TwoReleased();
    ghost var m := h.ram[..];
    FreeSecond(h, b);
    assert WordAt(h.ram[..], a - PTR) == 8;
    h.OsalMemFree(a, 0);
  }

  method FreeSecond(h: Heap, b: nat)
    requires h.Valid() && h.blocks == [FIRST, SECOND, THIRD, BEHIND] && h.ram.Length == 1000
    requires b == 42 && WordAt(h.ram[..], b - PTR) == 32
    modifies h, h.ram
    ensures h.Valid() && h.blocks == [FIRST, SECOND.(inUse := false), THIRD, BEHIND]
    ensures Same(old(h.ram[..]), h.ram[..], 8, 32)
  {
    TwoReleased();
    h.OsalMemFree(b, 1);
  }

  method AllocOver(h: Heap)
    requires h.Valid() && h.blocks == [Block(8, 56, false, 0), THIRD, BEHIND]
    modifies h, h.ram
    ensures h.Valid() && h.blocks == [Block(8, 56, true, 0), THIRD, BEHIND]
    ensures LinksInto(h.ram[..], h.blocks, 1, 0) && WordAt(h.ram[..], 36) == BuildWord(FILL, FILL)
  {
    var p := h.OsalMemAllocDbg(30, None, 0);
    assert h.blocks == [Block(8, 56, true, 0), THIRD, BEHIND];
  }

  const WIDE := Block(8, 82, true, 0)
  const OVER := Block(82, 106, true, 8)
  const LOWER := Block(32, 56, true, 8)

  // Six calls reach a block that records an earlier free block, with a live one in between:
  // releasing it would drop that one off the chain.
  method ReachSkippedBlock(ram: array<byte>) returns (h: Heap)
    requires ram.Length == 1000
    modifies ram
    ensures fresh(h) && h.ram == ram && h.Valid()
    ensures h.blocks == [FIRST.(inUse := false), LOWER, Block(56, 82, false, 32), OVER, Block(106, 1000, false, 82)]
    ensures !LosesOnly(ram[..], AfterFree(ram[..], h.theHeap, h.blocks, 3), h.theHeap, h.blocks, 3)
  {
    h := AllocWide(ram);
    RefillTwice(h);
    StaleHeaderSkips(ram[..], 8, h.blocks, 3, 0);
    assert h.blocks[1].inUse;
  }

  method AllocWide(ram: array<byte>) returns (h: Heap)
    requires ram.Length == 1000
    modifies ram
    ensures fresh(h) && h.ram == ram && h.theHeap == 8 && h.Valid()
    ensures h.blocks == [WIDE.(inUse := false), OVER, Block(106, 1000, false, 82)]
  {
    h := new Heap.OsalMemInit(8, ram);
    var a := AllocLast(h, 60, [], Block(8, 1000, false, 0));
    ghost var m := ram[..];
    var b := AllocLast(h, 10, [WIDE], Block(82, 1000, false, 8));
    assert Same(m, ram[..], 8, 82);
    FreeWide(h, a);
  }

  method FreeWide(h: Heap, a: nat)
    requires h.Valid() && h.blocks == [WIDE, OVER, Block(106, 1000, false, 82)] && h.ram.Length == 1000
    requires a == 18 && WordAt(h.ram[..], a - PTR) == 8
    modifies h, h.ram
    ensures h.Valid() && h.blocks == [WIDE.(inUse := false), OVER, Block(106, 1000, false, 82)]
  {
    h.OsalMemFree(a, 0);
    assert h.blocks == [WIDE.(inUse := false), OVER, Block(106, 1000, false, 82)];
  }

  method RefillTwice(h: Heap)
    requires h.Valid() && h.blocks == [WIDE.(inUse := false), OVER, Block(106, 1000, false, 82)]
    modifies h, h.ram
    ensures h.Valid()
    ensures h.blocks == [FIRST.(inUse := false), LOWER, Block(56, 82, false, 32), OVER, Block(106, 1000, false, 82)]
  {
    var c := h.OsalMemAllocDbg(10, None, 0);
    assert h.blocks == [FIRST, Block(32, 82, false, 8), OVER, Block(106, 1000, false, 82)];
    ghost var m := h.ram[..];
    AllocSecond(h);
    assert WordAt(h.ram[..], c - PTR) == 8;
    h.OsalMemFree(c, 0);
  }

  method AllocSecond(h: Heap)
    requires h.Valid() && h.blocks == [FIRST, Block(32, 82, false, 8), OVER, Block(106, 1000, false, 82)]
    modifies h, h.ram
    ensures h.Valid()
    ensures h.blocks == [FIRST, LOWER, Block(56, 82, false, 32), OVER, Block(106, 1000, false, 82)]
    ensures Same(old(h.ram[..]), h.ram[..], 8, 32)
  {
    assert FirstFit(h.blocks, 24) == 1;
    var d := h.OsalMemAllocDbg(10, None, 0);
    assert h.blocks == [FIRST, LOWER, Block(56, 82, false, 32), OVER, Block(106, 1000, false, 82)];
  }
}
