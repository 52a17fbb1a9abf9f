/**
  Binding records as both the RAM table and the NV item hold them, and the order-preserving
  filter of the records in use.
 */
module BindingEntries {
  import opened Words

  const NV_BIND_EMPTY: byte := 0xFF
  const INVALID_NODE_ADDR: word := 0xFFFE
  const DSTGROUPMODE_ADDR: byte := 0
  const DSTGROUPMODE_GROUP: byte := 1

  datatype Entry = Entry(srcEP: byte, dstGroupMode: byte, dstIdx: word, dstEP: byte,
                         numClusterIds: byte, clusterIdList: seq<word>)
  {
    // A record is in use when its source endpoint is not the "empty" mark.
    predicate Live() { srcEP != NV_BIND_EMPTY }
  }

  // What osal_memset(entry, 0xFF, gBIND_REC_SIZE) leaves, for `width` cluster slots.
  function Blank(width: nat): Entry {
    Entry(0xFF, 0xFF, 0xFFFF, 0xFF, 0xFF, seq(width, _ => 0xFFFF))
  }

  // The records in use, in table order.
  function LiveRecs(recs: seq<Entry>): seq<Entry> {
    if recs == [] then []
    else if recs[0].Live() then [recs[0]] + LiveRecs(recs[1..])
    else LiveRecs(recs[1..])
  }

  lemma LiveRecsBound(recs: seq<Entry>)
    ensures |LiveRecs(recs)| <= |recs|
    ensures forall e :: e in LiveRecs(recs) ==> e.Live() && e in recs
  {
  }

  lemma {:induction false} LiveRecsConcat(a: seq<Entry>, b: seq<Entry>)
    ensures LiveRecs(a + b) == LiveRecs(a) + LiveRecs(b)
  {
    if a == [] {
      assert a + b == b;
    } else {
      assert (a + b)[1..] == a[1..] + b;
      LiveRecsConcat(a[1..], b);
    }
  }

  lemma {:induction false} LiveRecsOfLive(recs: seq<Entry>)
    requires forall e :: e in recs ==> e.Live()
    ensures LiveRecs(recs) == recs
  {
    if recs != [] {
      LiveRecsOfLive(recs[1..]);
    }
  }

  // Filtering one record further: the filter grows exactly when the record is in use.
  lemma LiveRecsNext(recs: seq<Entry>, i: nat)
    requires i < |recs|
    ensures LiveRecs(recs[..i + 1]) == LiveRecs(recs[..i]) + (if recs[i].Live() then [recs[i]] else [])
  {
    assert recs[..i + 1] == recs[..i] + [recs[i]];
    LiveRecsConcat(recs[..i], [recs[i]]);
    assert [recs[i]][1..] == [];
  }

  lemma LiveRecsSplit(recs: seq<Entry>, i: nat)
    requires i <= |recs|
    ensures LiveRecs(recs) == LiveRecs(recs[..i]) + LiveRecs(recs[i..])
  {
    LiveRecsConcat(recs[..i], recs[i..]);
    assert recs == recs[..i] + recs[i..];
  }
}
