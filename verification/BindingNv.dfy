/**
  The non-volatile copy of the binding table and its power-fail-tolerant resize protocol.

  An NV item is a record count followed by record slots. Record sizes are equal in the old and
  the new firmware, so item lengths are counted in slots plus one for the header; length 0
  means that the item does not exist. Every operation that changes NV consults a fault script:
  it takes effect, it is refused, or the power is cut before it. After a power cut nothing
  changes until the next boot. An interrupted or refused nwkCreateDuplicateNV may leave any
  contents at all in the duplicate item.
 */
module BindingNv {
  import opened Words
  import opened BindingEntries

  function First(n: nat, s: seq<Entry>): seq<Entry> { if |s| <= n then s else s[..n] }

  datatype Item = Item(numRecs: word, recs: seq<Entry>)
  {
    // The records a reader sees: the first numRecs records in use, in slot order. A header
    // may count more records than there are.
    ghost function Records(): seq<Entry> { First(numRecs, LiveRecs(recs)) }

    // There are as many records in use as a copy into `capacity` slots looks for.
    ghost predicate Enough(capacity: nat) {
      numRecs <= |LiveRecs(recs)| || capacity <= |LiveRecs(recs)|
    }
  }

  datatype Fault = Proceed | Refuse(torn: Option<Item>) | PowerCut(torn: Option<Item>)

  // The firmware's table capacity, and what a freshly created item reads as.
  datatype Env = Env(capacity: word, freshCount: word, freshRec: Entry)
  {
    function Fresh(): Item { Item(freshCount, seq(capacity, _ => freshRec)) }
  }

  datatype Nv = Nv(table: Option<Item>, dup: Option<Item>, faults: seq<Fault>, powered: bool)

  function Length(item: Option<Item>): nat {
    if item.None? then 0 else 1 + |item.value.recs|
  }

  // ---------- NV operations ----------

  // One changing operation: `possible` says whether the driver can carry it out.
  function Attempt(nv: Nv, table: Option<Item>, dup: Option<Item>, possible: bool): (Nv, bool) {
    if !nv.powered then (nv, false)
    else if nv.faults == [] then
      if possible then (nv.(table := table, dup := dup), true) else (nv, false)
    else
      var rest := nv.(faults := nv.faults[1..]);
      match nv.faults[0]
      case Proceed => if possible then (rest.(table := table, dup := dup), true) else (rest, false)
      case Refuse(_) => (rest, false)
      case PowerCut(_) => (rest.(powered := false), false)
  }

  function DeleteTable(nv: Nv, len: nat): (Nv, bool) {
    Attempt(nv, None, nv.dup, nv.table.Some? && len == Length(nv.table))
  }

  function DeleteDuplicate(nv: Nv, len: nat): (Nv, bool) {
    Attempt(nv, nv.table, None, nv.dup.Some? && len == Length(nv.dup))
  }

  function InitTable(env: Env, nv: Nv): (Nv, bool) {
    Attempt(nv, if nv.table.Some? then nv.table else Some(env.Fresh()), nv.dup, true)
  }

  function WriteRecord(nv: Nv, i: nat, e: Entry): (Nv, bool) {
    if nv.table.Some? && i < |nv.table.value.recs| then
      Attempt(nv, Some(nv.table.value.(recs := nv.table.value.recs[i := e])), nv.dup, true)
    else
      Attempt(nv, nv.table, nv.dup, false)
  }

  function WriteCount(nv: Nv, n: word): (Nv, bool) {
    if nv.table.Some? then Attempt(nv, Some(nv.table.value.(numRecs := n)), nv.dup, true)
    else Attempt(nv, nv.table, nv.dup, false)
  }

  // nwkCreateDuplicateNV: on anything but success the duplicate is left in an arbitrary state.
  function CreateDuplicate(nv: Nv): (Nv, bool) {
    var (after, ok) := Attempt(nv, nv.table, nv.table, nv.table.Some?);
    if ok || !nv.powered || nv.faults == [] || nv.faults[0].Proceed? then (after, ok)
    else (after.(dup := nv.faults[0].torn), false)
  }

  // ---------- The upgrade protocol ----------

  // The copy loop from slot i of the duplicate, with `valid` records already copied. Reading a
  // slot past the end of the duplicate fails and ends the loop.
  function CopyFrom(env: Env, nv: Nv, count: word, i: nat, valid: nat): (r: (Nv, nat, bool))
    requires valid <= count
    ensures r.1 <= count
    decreases Length(nv.dup) - i
  {
    if !(valid < env.capacity && valid < count) then (nv, valid, true)
    else if !nv.powered || nv.dup.None? || i >= |nv.dup.value.recs| then (nv, valid, false)
    else
      var rec := nv.dup.value.recs[i];
      if !rec.Live() then CopyFrom(env, nv, count, i + 1, valid)
      else
        var (nv', ok) := WriteRecord(nv, valid, rec);
        if !ok then (nv', valid, false) else CopyFrom(env, nv', count, i + 1, valid + 1)
  }

  function CopyBackup(env: Env, nv: Nv, dupLen: nat): (Nv, bool) {
    var bindLen := Length(nv.table);
    var nv1 := if bindLen > 0 && bindLen != 1 + env.capacity then DeleteTable(nv, bindLen).0 else nv;
    var (nv2, created) := InitTable(env, nv1);
    if !created || nv2.dup.None? then (nv2, false)
    else
      var (nv3, valid, copied) := CopyFrom(env, nv2, nv2.dup.value.numRecs, 0, 0);
      if !copied then (nv3, false)
      else
        var (nv4, counted) := WriteCount(nv3, valid);
        if !counted then (nv4, false) else DeleteDuplicate(nv4, dupLen)
  }

  function Upgrade(env: Env, nv: Nv): (Nv, bool) {
    var bindLen, dupLen := Length(nv.table), Length(nv.dup);
    var numRecs := if nv.table.Some? then nv.table.value.numRecs else 0;
    if (dupLen == 0 && bindLen != 1 + env.capacity) || (dupLen > 0 && bindLen > 0 && numRecs > 0) then
      var (nv1, duplicated) := CreateDuplicate(nv);
      if !duplicated then (nv1, false)
      else
        var (nv2, deleted) := DeleteTable(nv1, bindLen);
        if !deleted then (nv2, false) else CopyBackup(env, nv2, bindLen)
    else if dupLen > 0 then CopyBackup(env, nv, dupLen)
    else (nv, true)
  }

  // ---------- Crash safety ----------

  // The item counts some record, its records up to the capacity are the goal, and `whole` says
  // whether a copy finds all the records it looks for.
  ghost predicate Holds(env: Env, item: Item, goal: seq<Entry>, whole: bool) {
    item.numRecs > 0 && First(env.capacity, item.Records()) == goal && (whole <==> item.Enough(env.capacity))
  }

  // The records that must survive are in the table, or in the duplicate while the table's
  // header reads "no records".
  ghost predicate InTable(env: Env, nv: Nv, goal: seq<Entry>, whole: bool) {
    nv.table.Some? && Holds(env, nv.table.value, goal, whole)
  }

  ghost predicate InDuplicate(env: Env, nv: Nv, goal: seq<Entry>, whole: bool) {
    && nv.dup.Some? && Holds(env, nv.dup.value, goal, whole)
    && (nv.table.Some? ==> nv.table.value.numRecs == 0)
  }

  ghost predicate Recoverable(env: Env, nv: Nv, goal: seq<Entry>, whole: bool) {
    InTable(env, nv, goal, whole) || InDuplicate(env, nv, goal, whole)
  }

  // The protocol is over: the table reads as exactly the goal and the duplicate is gone.
  ghost predicate Upgraded(nv: Nv, goal: seq<Entry>) {
    nv.table.Some? && nv.table.value.Records() == goal && nv.dup.None?
  }

  // The item's leading slots are the goal and its header counts just them.
  ghost predicate Compact(item: Item, goal: seq<Entry>) {
    item.numRecs == |goal| <= |item.recs| && item.recs[..|goal|] == goal
  }

  // A table whose leading slots are the goal and whose header counts them reads as the goal.
  lemma LeadingRecords(item: Item, goal: seq<Entry>)
    requires |goal| <= |item.recs| && item.recs[..|goal|] == goal && item.numRecs == |goal|
    requires forall e :: e in goal ==> e.Live()
    ensures item.numRecs <= |LiveRecs(item.recs)| && item.Records() == goal
  {
    LiveRecsSplit(item.recs, |goal|);
    LiveRecsOfLive(goal);
  }

  // The state of the copy loop: `valid` records of the goal are in the leading table slots.
  ghost predicate Copying(env: Env, nv: Nv, goal: seq<Entry>, i: nat, valid: nat) {
    && nv.table.Some? && nv.dup.Some?
    && goal == First(env.capacity, nv.dup.value.Records())
    && i <= |nv.dup.value.recs| && valid <= |goal| && valid <= |nv.table.value.recs|
    && LiveRecs(nv.dup.value.recs[..i]) == goal[..valid]
    && nv.table.value.recs[..valid] == goal[..valid]
  }

  // One record further along the duplicate: a record in use is the next record of the goal.
  lemma NextOfGoal(env: Env, nv: Nv, goal: seq<Entry>, i: nat, valid: nat)
    requires Copying(env, nv, goal, i, valid) && i < |nv.dup.value.recs|
    requires valid < env.capacity && valid < nv.dup.value.numRecs
    ensures nv.dup.value.recs[i].Live() ==> valid < |goal| && nv.dup.value.recs[i] == goal[valid]
    ensures LiveRecs(nv.dup.value.recs[..i + 1])
         == goal[..if nv.dup.value.recs[i].Live() then valid + 1 else valid]
  {
    var recs := nv.dup.value.recs;
    LiveRecsNext(recs, i);
    LiveRecsSplit(recs, i + 1);
    if recs[i].Live() {
      assert LiveRecs(recs)[valid] == recs[i];
    }
  }

  // The duplicate runs out exactly when it holds fewer records than the copy looks for.
  lemma RunsOut(env: Env, nv: Nv, goal: seq<Entry>, valid: nat)
    requires nv.dup.Some? && Copying(env, nv, goal, |nv.dup.value.recs|, valid)
    requires valid < env.capacity && valid < nv.dup.value.numRecs
    ensures !nv.dup.value.Enough(env.capacity)
  {
    assert nv.dup.value.recs[..|nv.dup.value.recs|] == nv.dup.value.recs;
  }

  // A record in use that is written into the next table slot.
  lemma CopiedOne(env: Env, nv: Nv, goal: seq<Entry>, i: nat, valid: nat)
    requires Copying(env, nv, goal, i, valid) && i < |nv.dup.value.recs| && nv.dup.value.recs[i].Live()
    requires valid < env.capacity && valid < nv.dup.value.numRecs
    requires WriteRecord(nv, valid, nv.dup.value.recs[i]).1
    ensures Copying(env, WriteRecord(nv, valid, nv.dup.value.recs[i]).0, goal, i + 1, valid + 1)
  {
    NextOfGoal(env, nv, goal, i, valid);
    var rec, nv' := nv.dup.value.recs[i], WriteRecord(nv, valid, nv.dup.value.recs[i]).0;
    assert nv'.table.value.recs[..valid + 1] == nv.table.value.recs[..valid] + [rec];
    assert goal[..valid + 1] == goal[..valid] + [rec];
  }

  // However the copy loop is interrupted, the duplicate and the table's header are untouched;
  // if the loop ends well the table's leading slots are the goal. Without faults it ends well
  // exactly when the duplicate holds the records it looks for.
  lemma {:induction false} CopyKeeps(env: Env, nv: Nv, goal: seq<Entry>, i: nat, valid: nat)
    requires Copying(env, nv, goal, i, valid)
    ensures var (nv', v, ok) := CopyFrom(env, nv, nv.dup.value.numRecs, i, valid);
            && nv'.dup == nv.dup && nv'.table.Some?
            && nv'.table.value.numRecs == nv.table.value.numRecs
            && |nv'.table.value.recs| == |nv.table.value.recs|
            && (ok ==> nv.dup.value.Enough(env.capacity)
                       && v == |goal| && v <= |nv'.table.value.recs| && nv'.table.value.recs[..v] == goal)
            && (nv.powered && nv.faults == [] ==> nv'.powered && nv'.faults == [])
            && (nv.powered && nv.faults == [] && nv.dup.value.Enough(env.capacity) ==>
                  |goal| <= |nv.table.value.recs| ==> ok)
    decreases |nv.dup.value.recs| - i
  {
    var count, recs := nv.dup.value.numRecs, nv.dup.value.recs;
    if !(valid < env.capacity && valid < count) {
      LiveRecsSplit(recs, i);
      assert goal[..valid] == goal;
    } else if i == |recs| {
      RunsOut(env, nv, goal, valid);
    } else if nv.powered {
      NextOfGoal(env, nv, goal, i, valid);
      if !recs[i].Live() {
        CopyKeeps(env, nv, goal, i + 1, valid);
      } else {
        var (nv', ok) := WriteRecord(nv, valid, recs[i]);
        if ok {
          CopiedOne(env, nv, goal, i, valid);
          CopyKeeps(env, nv', goal, i + 1, valid + 1);
        }
      }
    }
  }

  lemma GoalIsLive(env: Env, item: Item, goal: seq<Entry>)
    requires goal == First(env.capacity, item.Records())
    ensures forall e :: e in goal ==> e.Live()
    ensures |goal| <= env.capacity && |goal| <= item.numRecs
  {
    LiveRecsBound(item.recs);
  }

  // Once the leading slots hold the goal: writing the header and dropping the duplicate.
  lemma ClosingKeeps(env: Env, nv: Nv, goal: seq<Entry>, dupLen: nat)
    requires env.capacity > 0 && InDuplicate(env, nv, goal, true) && dupLen == Length(nv.dup)
    requires nv.table.Some? && |goal| <= |nv.table.value.recs| && nv.table.value.recs[..|goal|] == goal
    ensures |goal| < 0x1_0000
    ensures var (nv1, counted) := WriteCount(nv, |goal|);
            var (nv2, deleted) := DeleteDuplicate(nv1, dupLen);
            && Recoverable(env, nv1, goal, true)
            && (counted ==> Recoverable(env, nv2, goal, true) && (deleted ==> Upgraded(nv2, goal)))
            && (counted ==> nv2.table == nv1.table && Compact(nv1.table.value, goal))
            && (!counted ==> nv1.table == nv.table)
            && (nv.powered && nv.faults == [] ==> counted && deleted)
  {
    GoalIsLive(env, nv.dup.value, goal);
    LeadingRecords(nv.table.value.(numRecs := |goal|), goal);
  }

  // Rebuilding the table from the duplicate keeps the records recoverable at every step, and
  // without faults it succeeds exactly when the duplicate is whole.
  lemma CopyBackupKeeps(env: Env, nv: Nv, goal: seq<Entry>, whole: bool)
    requires env.capacity > 0 && env.freshCount == 0
    requires InDuplicate(env, nv, goal, whole)
    ensures var (nv', ok) := CopyBackup(env, nv, Length(nv.dup));
            && Recoverable(env, nv', goal, whole)
            && (ok ==> whole && Upgraded(nv', goal))
            && (nv'.table.Some? && nv'.table.value.numRecs > 0 ==> Compact(nv'.table.value, goal))
            && (!whole ==> InDuplicate(env, nv', goal, whole))
            && (nv.powered && nv.faults == [] ==> (ok <==> whole))
  {
    GoalIsLive(env, nv.dup.value, goal);
    var bindLen := Length(nv.table);
    var nv1 := if bindLen > 0 && bindLen != 1 + env.capacity then DeleteTable(nv, bindLen).0 else nv;
    var (nv2, created) := InitTable(env, nv1);
    assert InDuplicate(env, nv2, goal, whole) && nv2.dup == nv.dup;
    if created {
      assert LiveRecs(nv2.dup.value.recs[..0]) == goal[..0] == nv2.table.value.recs[..0];
      CopyKeeps(env, nv2, goal, 0, 0);
      var (nv3, valid, copied) := CopyFrom(env, nv2, nv2.dup.value.numRecs, 0, 0);
      if copied {
        ClosingKeeps(env, nv3, goal, Length(nv.dup));
      }
    }
  }

  // There is nothing to upgrade: the table has the right size and no duplicate stands by.
  ghost predicate Settled(env: Env, nv: Nv) {
    nv.dup.None? && nv.table.Some? && |nv.table.value.recs| == env.capacity
  }

  // One boot, whatever the fault script: the records stay recoverable, and a run that reports
  // success has finished. Without faults it succeeds exactly when the records are whole or
  // there is nothing to do.
  lemma UpgradeKeeps(env: Env, nv: Nv, goal: seq<Entry>, whole: bool)
    requires env.capacity > 0 && env.freshCount == 0
    requires Recoverable(env, nv, goal, whole)
    ensures var (nv', ok) := Upgrade(env, nv);
            && Recoverable(env, nv', goal, whole)
            && (ok ==> Upgraded(nv', goal))
            && (nv'.table.Some? && nv'.table.value.numRecs > 0 && nv'.table != nv.table ==>
                  Compact(nv'.table.value, goal))
            && (ok && !Settled(env, nv) ==> Compact(nv'.table.value, goal))
            && (nv.powered && nv.faults == [] ==>
                  (ok <==> whole || (nv.dup.None? && Length(nv.table) == 1 + env.capacity)))
  {
    if InTable(env, nv, goal, whole) {
      var (nv1, duplicated) := CreateDuplicate(nv);
      if nv.dup.None? && Length(nv.table) == 1 + env.capacity {
        LiveRecsBound(nv.table.value.recs);
      } else if duplicated {
        var (nv2, deleted) := DeleteTable(nv1, Length(nv.table));
        if deleted {
          CopyBackupKeeps(env, nv2, goal, whole);
        }
      }
    } else {
      CopyBackupKeeps(env, nv, goal, whole);
    }
  }

  // A boot with the given fault script, and any number of boots one after the other.
  function Boot(env: Env, nv: Nv, script: seq<Fault>): (Nv, bool) {
    Upgrade(env, nv.(faults := script, powered := true))
  }

  function Boots(env: Env, nv: Nv, scripts: seq<seq<Fault>>): Nv
    decreases |scripts|
  {
    if scripts == [] then nv else Boots(env, Boot(env, nv, scripts[0]).0, scripts[1..])
  }

  lemma {:induction false} BootsKeep(env: Env, nv: Nv, goal: seq<Entry>, whole: bool, scripts: seq<seq<Fault>>)
    requires env.capacity > 0 && env.freshCount == 0
    requires Recoverable(env, nv, goal, whole)
    ensures Recoverable(env, Boots(env, nv, scripts), goal, whole)
    decreases |scripts|
  {
    if scripts != [] {
      UpgradeKeeps(env, nv.(faults := scripts[0], powered := true), goal, whole);
      BootsKeep(env, Boot(env, nv, scripts[0]).0, goal, whole, scripts[1..]);
    }
  }

  function Installed(t: Item): Nv { Nv(Some(t), None, [], true) }

  // After any interrupted boots, whatever boot reports success has left exactly the goal, and a
  // boot without faults does report success.
  ghost predicate Survives(env: Env, t: Item, scripts: seq<seq<Fault>>) {
    var goal := First(env.capacity, t.Records());
    var nv := Boots(env, Installed(t), scripts);
    && Boot(env, nv, []).1
    && forall script :: Boot(env, nv, script).1 ==> Upgraded(Boot(env, nv, script).0, goal)
  }

  // A table that needs no resize, or that counts records and holds as many as a resize copies.
  ghost predicate Resizable(env: Env, t: Item) {
    |t.recs| == env.capacity || (t.numRecs > 0 && t.Enough(env.capacity))
  }

  ghost predicate CrashSafe(env: Env) {
    forall t: Item, scripts :: Resizable(env, t) ==> Survives(env, t, scripts)
  }

  lemma SurvivesWhenFreshIsEmpty(env: Env, t: Item, scripts: seq<seq<Fault>>)
    requires env.capacity > 0 && env.freshCount == 0
    requires t.numRecs > 0 && t.Enough(env.capacity)
    ensures Survives(env, t, scripts)
  {
    var goal := First(env.capacity, t.Records());
    BootsKeep(env, Installed(t), goal, true, scripts);
    var nv := Boots(env, Installed(t), scripts);
    forall script
      ensures Boot(env, nv, script).1 ==> Upgraded(Boot(env, nv, script).0, goal)
    {
      UpgradeKeeps(env, nv.(faults := script, powered := true), goal, true);
    }
    UpgradeKeeps(env, nv.(faults := [], powered := true), goal, true);
  }

  // ---------- What an unreliable fresh header costs ----------

  ghost predicate AllFresh(env: Env, recs: seq<Entry>) {
    forall k :: 0 <= k < |recs| ==> recs[k] == env.freshRec
  }

  lemma {:induction false} CopyOfFresh(env: Env, nv: Nv, count: word, i: nat, valid: nat)
    requires valid <= count
    requires nv.table.Some? && AllFresh(env, nv.table.value.recs)
    requires nv.dup.Some? && AllFresh(env, nv.dup.value.recs)
    ensures var (nv', _, _) := CopyFrom(env, nv, count, i, valid);
            nv'.table.Some? && AllFresh(env, nv'.table.value.recs)
    decreases Length(nv.dup) - i
  {
    if valid < env.capacity && valid < count && nv.powered && i < |nv.dup.value.recs| {
      if nv.dup.value.recs[i].Live() {
        var (nv', ok) := WriteRecord(nv, valid, nv.dup.value.recs[i]);
        if ok {
          CopyOfFresh(env, nv', count, i + 1, valid + 1);
        }
      } else {
        CopyOfFresh(env, nv, count, i + 1, valid);
      }
    }
  }

  // A power cut right after the new table item is created.
  lemma CutAfterCreate(env: Env, t: Item)
    requires env.capacity > 0 && |t.recs| == env.capacity + 1 && t.numRecs > 0 && t.recs[0].Live()
    ensures var script := [Proceed, Proceed, Proceed, PowerCut(None)];
            var nv := Boots(env, Installed(t), [script]);
            nv.table == Some(env.Fresh()) && nv.dup == Some(t)
  {
    var script := [Proceed, Proceed, Proceed, PowerCut(None)];
    assert script[1..] == [Proceed, Proceed, PowerCut(None)];
    assert script[1..][1..] == [Proceed, PowerCut(None)];
    assert script[1..][1..][1..] == [PowerCut(None)];
    var nv := Boot(env, Installed(t), script).0;
    assert Boots(env, Installed(t), [script]) == nv by {
      assert Boots(env, nv, [script][1..]) == nv;
    }
  }

  // When a fresh header does not read 0, cutting the power right after the new table item is
  // created loses the records: the next boot takes the empty item for a filled one and copies
  // it over the duplicate.
  lemma LosesWhenFreshIsNotEmpty(env: Env, t: Item, r: Entry)
    requires env.capacity > 0 && env.freshCount > 0
    requires r.Live() && r != env.freshRec
    requires t == Item(1, seq(env.capacity + 1, _ => r))
    ensures Resizable(env, t) && !Survives(env, t, [[Proceed, Proceed, Proceed, PowerCut(None)]])
  {
    LiveRecsOfLive(t.recs);
    var goal := First(env.capacity, t.Records());
    assert goal == [r];
    CutAfterCreate(env, t);
    var nv := Boots(env, Installed(t), [[Proceed, Proceed, Proceed, PowerCut(None)]]);
    var blank := Some(env.Fresh());
    CopyOfFresh(env, Nv(blank, blank, [], true), env.freshCount, 0, 0);
    var (after, ok) := Boot(env, nv, []);
    if ok && Upgraded(after, goal) {
      LiveRecsBound(after.table.value.recs);
    }
  }

  // ---------- Which tables survive ----------

  // A table that already has the right size is left alone.
  lemma {:induction false} RightSizeUntouched(env: Env, nv: Nv, t: Item, scripts: seq<seq<Fault>>)
    requires |t.recs| == env.capacity && nv.table == Some(t) && nv.dup.None?
    ensures Boots(env, nv, scripts).table == Some(t) && Boots(env, nv, scripts).dup.None?
    decreases |scripts|
  {
    if scripts != [] {
      RightSizeUntouched(env, Boot(env, nv, scripts[0]).0, t, scripts[1..]);
    }
  }

  lemma RightSizeSurvives(env: Env, t: Item, scripts: seq<seq<Fault>>)
    requires |t.recs| == env.capacity
    ensures Survives(env, t, scripts)
  {
    LiveRecsBound(t.recs);
    RightSizeUntouched(env, Installed(t), t, scripts);
  }

  // An empty table of another size can gain records: if nwkCreateDuplicateNV is cut short and
  // leaves something in the duplicate, the next boot trusts it.
  lemma EmptyMayGain(env: Env, t: Item, r: Entry)
    requires env.capacity > 0 && env.freshCount == 0 && r.Live()
    requires t.numRecs == 0 && |t.recs| != env.capacity
    ensures !Survives(env, t, [[PowerCut(Some(Item(1, [r])))]])
  {
    var torn := Item(1, [r]);
    var script := [PowerCut(Some(torn))];
    var nv := Boot(env, Installed(t), script).0;
    assert nv.table == Some(t) && nv.dup == Some(torn);
    assert Boots(env, Installed(t), [script]) == nv by {
      assert Boots(env, nv, [script][1..]) == nv;
    }
    LiveRecsOfLive(torn.recs);
    assert InDuplicate(env, nv, [r], true);
    UpgradeKeeps(env, nv.(faults := [], powered := true), [r], true);
  }

  // What a table of another size that counts too many records leads to: it stays, or its
  // duplicate does.
  ghost predicate Stuck(env: Env, nv: Nv, t: Item) {
    nv.table == Some(t) || InDuplicate(env, nv, First(env.capacity, t.Records()), false)
  }

  lemma StuckUpgrade(env: Env, nv: Nv, t: Item)
    requires env.capacity > 0 && env.freshCount == 0
    requires |t.recs| != env.capacity && t.numRecs > 0 && !t.Enough(env.capacity) && Stuck(env, nv, t)
    ensures Stuck(env, Upgrade(env, nv).0, t) && !Upgrade(env, nv).1
  {
    var goal := First(env.capacity, t.Records());
    if nv.table == Some(t) {
      var (nv1, duplicated) := CreateDuplicate(nv);
      if duplicated {
        var (nv2, deleted) := DeleteTable(nv1, Length(nv.table));
        if deleted {
          CopyBackupKeeps(env, nv2, goal, false);
        }
      }
    } else {
      CopyBackupKeeps(env, nv, goal, false);
    }
  }

  lemma {:induction false} StuckBoots(env: Env, nv: Nv, t: Item, scripts: seq<seq<Fault>>)
    requires env.capacity > 0 && env.freshCount == 0
    requires |t.recs| != env.capacity && t.numRecs > 0 && !t.Enough(env.capacity) && Stuck(env, nv, t)
    ensures Stuck(env, Boots(env, nv, scripts), t)
    decreases |scripts|
  {
    if scripts != [] {
      StuckUpgrade(env, nv.(faults := scripts[0], powered := true), t);
      StuckBoots(env, Boot(env, nv, scripts[0]).0, t, scripts[1..]);
    }
  }

  // A table of another size whose header counts records that are not there never gets through
  // a resize: after any boots the next one fails, with or without faults, though no record is
  // lost.
  lemma OverCountedIsStuck(env: Env, t: Item, scripts: seq<seq<Fault>>)
    requires env.capacity > 0 && env.freshCount == 0
    requires |t.recs| != env.capacity && t.numRecs > 0 && !t.Enough(env.capacity)
    ensures Recoverable(env, Boots(env, Installed(t), scripts), First(env.capacity, t.Records()), false)
    ensures forall script :: !Boot(env, Boots(env, Installed(t), scripts), script).1
    ensures !Survives(env, t, scripts)
  {
    StuckBoots(env, Installed(t), t, scripts);
    var nv := Boots(env, Installed(t), scripts);
    forall script ensures !Boot(env, nv, script).1 {
      StuckUpgrade(env, nv.(faults := script, powered := true), t);
    }
  }

  // With fresh headers reading 0, a table survives every sequence of faults exactly when it
  // needs no resize, or counts records and holds as many as the resize copies.
  lemma SurvivesExactly(env: Env, t: Item)
    requires env.capacity > 0 && env.freshCount == 0
    ensures (forall scripts :: Survives(env, t, scripts)) <==> Resizable(env, t)
  {
    if |t.recs| == env.capacity {
      forall scripts ensures Survives(env, t, scripts) {
        RightSizeSurvives(env, t, scripts);
      }
    } else if t.numRecs == 0 {
      EmptyMayGain(env, t, Entry(1, 0, 0, 0, 0, []));
    } else if t.Enough(env.capacity) {
      forall scripts ensures Survives(env, t, scripts) {
        SurvivesWhenFreshIsEmpty(env, t, scripts);
      }
    } else {
      OverCountedIsStuck(env, t, []);
    }
  }

  // The tables that can survive all do, whatever the faults, exactly when a fresh header reads 0.
  lemma CrashSafeExactly(env: Env)
    requires env.capacity > 0
    ensures CrashSafe(env) <==> env.freshCount == 0
  {
    if env.freshCount == 0 {
      forall t: Item, scripts | Resizable(env, t) ensures Survives(env, t, scripts) {
        SurvivesExactly(env, t);
      }
    } else {
      var one, two := Entry(1, 0, 0, 0, 0, []), Entry(2, 0, 0, 0, 0, []);
      var r := if env.freshRec == one then two else one;
      LosesWhenFreshIsNotEmpty(env, Item(1, seq(env.capacity + 1, _ => r)), r);
    }
  }

  // ---------- Saving and restoring the RAM table ----------

  // BindWriteNV from slot x on, with n records in use so far; failed writes are ignored.
  function WriteFrom(nv: Nv, ram: seq<Entry>, x: nat, n: nat): Nv
    requires n <= x <= |ram| < 0x1_0000
    decreases |ram| - x
  {
    if x == |ram| then WriteCount(nv, n).0
    else WriteFrom(WriteRecord(nv, x, ram[x]).0, ram, x + 1, if ram[x].Live() then n + 1 else n)
  }

  // BindRestoreFromNV's loop from slot x on; a slot that cannot be read is skipped.
  function ReadFrom(nv: Nv, count: word, ram: seq<Entry>, x: nat, valid: nat): (r: seq<Entry>)
    ensures |r| == |ram|
    decreases |ram| - x
  {
    if !(x < |ram| && valid < count) then ram
    else if nv.powered && nv.table.Some? && x < |nv.table.value.recs| then
      var e := nv.table.value.recs[x];
      ReadFrom(nv, count, ram[x := e], x + 1, if e.Live() then valid + 1 else valid)
    else ReadFrom(nv, count, ram, x + 1, valid)
  }

  function Restore(env: Env, nv: Nv, ram: seq<Entry>): (Nv, seq<Entry>, word) {
    var (nv', ok) := Upgrade(env, nv);
    if ok && nv'.powered && nv'.table.Some? then
      var count := nv'.table.value.numRecs;
      (nv', ReadFrom(nv', count, ram, 0, 0), count)
    else (nv', ram, 0)
  }

  function Blanks(n: nat, width: nat): seq<Entry> { seq(n, _ => Blank(width)) }

  lemma {:induction false} WriteFromResult(nv: Nv, ram: seq<Entry>, x: nat, n: nat)
    requires |ram| < 0x1_0000 && x <= |ram| && n == |LiveRecs(ram[..x])| <= x
    requires nv.powered && nv.faults == [] && nv.table.Some?
    requires |nv.table.value.recs| == |ram| && nv.table.value.recs[..x] == ram[..x]
    ensures |LiveRecs(ram)| < 0x1_0000
    ensures WriteFrom(nv, ram, x, n) == nv.(table := Some(Item(|LiveRecs(ram)|, ram)))
    decreases |ram| - x
  {
    LiveRecsBound(ram);
    if x == |ram| {
      assert ram[..x] == ram && nv.table.value.recs[..x] == nv.table.value.recs;
    } else {
      LiveRecsNext(ram, x);
      var nv' := WriteRecord(nv, x, ram[x]).0;
      assert nv'.table.value.recs[..x + 1] == ram[..x] + [ram[x]] == ram[..x + 1];
      WriteFromResult(nv', ram, x + 1, if ram[x].Live() then n + 1 else n);
    }
  }

  // A save that is cut after i record writes leaves the old header over the mixed records.
  lemma {:induction false} CutSave(nv: Nv, ram: seq<Entry>, i: nat, x: nat, n: nat)
    requires n <= x <= i <= |ram| < 0x1_0000
    requires nv.powered && nv.table.Some? && |nv.table.value.recs| == |ram|
    requires nv.faults == seq(i - x, _ => Proceed) + [PowerCut(None)]
    ensures var t := nv.table.value;
            WriteFrom(nv, ram, x, n) == nv.(table := Some(t.(recs := t.recs[..x] + ram[x..i] + t.recs[i..])),
                                            faults := [], powered := false)
    decreases |ram| - x
  {
    var recs := nv.table.value.recs;
    if x == i {
      assert nv.faults[0] == PowerCut(None) && nv.faults[1..] == [];
      assert recs[..x] + ram[x..i] + recs[i..] == recs;
      if x < |ram| {
        Unpowered(WriteRecord(nv, x, ram[x]).0, ram, x + 1, if ram[x].Live() then n + 1 else n);
      }
    } else {
      assert nv.faults[0] == Proceed && nv.faults[1..] == seq(i - x - 1, _ => Proceed) + [PowerCut(None)];
      var nv' := WriteRecord(nv, x, ram[x]).0;
      CutSave(nv', ram, i, x + 1, if ram[x].Live() then n + 1 else n);
      var recs' := nv'.table.value.recs;
      assert recs'[..x + 1] + ram[x + 1..i] + recs'[i..] == recs[..x] + ram[x..i] + recs[i..];
    }
  }

  lemma {:induction false} Unpowered(nv: Nv, ram: seq<Entry>, x: nat, n: nat)
    requires n <= x <= |ram| < 0x1_0000 && !nv.powered
    ensures WriteFrom(nv, ram, x, n) == nv
    decreases |ram| - x
  {
    if x < |ram| {
      Unpowered(nv, ram, x + 1, if ram[x].Live() then n + 1 else n);
    }
  }

  // So a save cut before its header can leave a table that later never gets through a resize:
  // exactly when the old header counts more records than are left and the new capacity does too.
  lemma CutSaveSurvives(env: Env, t: Item, ram: seq<Entry>, i: nat)
    requires env.capacity > 0 && env.freshCount == 0
    requires i <= |ram| == |t.recs| < 0x1_0000 && |ram| != env.capacity && t.numRecs > 0
    ensures var cut := WriteFrom(Installed(t).(faults := seq(i, _ => Proceed) + [PowerCut(None)]), ram, 0, 0);
            var left := ram[..i] + t.recs[i..];
            && cut.table == Some(Item(t.numRecs, left)) && cut.dup.None?
            && ((forall scripts :: Survives(env, cut.table.value, scripts)) <==>
                  t.numRecs <= |LiveRecs(left)| || env.capacity <= |LiveRecs(left)|)
  {
    CutSave(Installed(t).(faults := seq(i, _ => Proceed) + [PowerCut(None)]), ram, i, 0, 0);
    assert t.recs[..0] + ram[0..i] + t.recs[i..] == ram[..i] + t.recs[i..];
    SurvivesExactly(env, Item(t.numRecs, ram[..i] + t.recs[i..]));
  }

  // ---------- Saves between boots ----------

  // The slots of an item of any length after `ram` is written over it record by record.
  function Over(ram: seq<Entry>, recs: seq<Entry>): seq<Entry> {
    if |ram| <= |recs| then ram + recs[|ram|..] else ram[..|recs|]
  }

  // A save without faults writes the records that fit and then the count of all in use; without
  // a table item it writes nothing.
  lemma {:induction false} WriteFromAny(nv: Nv, ram: seq<Entry>, x: nat, n: nat)
    requires |ram| < 0x1_0000 && x <= |ram| && n == |LiveRecs(ram[..x])| <= x
    requires nv.powered && nv.faults == []
    requires nv.table.Some? ==> nv.table.value.recs == Over(ram[..x], nv.table.value.recs)
    ensures |LiveRecs(ram)| < 0x1_0000
    ensures WriteFrom(nv, ram, x, n) ==
              if nv.table.None? then nv
              else nv.(table := Some(Item(|LiveRecs(ram)|, Over(ram, nv.table.value.recs))))
    decreases |ram| - x
  {
    LiveRecsBound(ram);
    if x == |ram| {
      assert ram[..x] == ram;
    } else {
      LiveRecsNext(ram, x);
      var nv' := WriteRecord(nv, x, ram[x]).0;
      if nv.table.Some? {
        OverNext(ram, nv.table.value.recs, x);
      }
      WriteFromAny(nv', ram, x + 1, if ram[x].Live() then n + 1 else n);
    }
  }

  lemma OverNext(ram: seq<Entry>, recs: seq<Entry>, x: nat)
    requires x < |ram| && recs == Over(ram[..x], recs)
    ensures var recs' := if x < |recs| then recs[x := ram[x]] else recs;
            recs' == Over(ram[..x + 1], recs') && Over(ram, recs') == Over(ram, recs)
  {
  }

  // The firmware runs on after a failed upgrade and may save its RAM table.
  datatype Event = Started(script: seq<Fault>) | Saved(ram: seq<Entry>)

  function After(env: Env, nv: Nv, e: Event): Nv
    requires e.Saved? ==> |e.ram| < 0x1_0000
  {
    match e
    case Started(script) => Boot(env, nv, script).0
    case Saved(ram) => WriteFrom(nv.(faults := [], powered := true), ram, 0, 0)
  }

  ghost predicate Sized(events: seq<Event>) {
    forall i :: 0 <= i < |events| && events[i].Saved? ==> |events[i].ram| < 0x1_0000
  }

  function AfterAll(env: Env, nv: Nv, events: seq<Event>): Nv
    requires Sized(events)
    decreases |events|
  {
    if events == [] then nv else AfterAll(env, After(env, nv, events[0]), events[1..])
  }

  // A whole duplicate, or not, stands by.
  ghost predicate Backed(env: Env, nv: Nv, goal: seq<Entry>, whole: bool) {
    nv.dup.Some? && Holds(env, nv.dup.value, goal, whole)
  }

  // A save that leaves the old records recoverable: it counts none while a duplicate holds
  // them (or finds no table item to write to), or it writes those very records itself.
  ghost predicate SaveFine(env: Env, nv: Nv, goal: seq<Entry>, whole: bool, ram: seq<Entry>)
    requires |ram| < 0x1_0000
  {
    LiveRecsBound(ram);
    if nv.table.None? || LiveRecs(ram) == [] then Backed(env, nv, goal, whole)
    else Holds(env, Item(|LiveRecs(ram)|, Over(ram, nv.table.value.recs)), goal, whole)
  }

  ghost predicate EventFine(env: Env, nv: Nv, goal: seq<Entry>, whole: bool, e: Event)
    requires e.Saved? ==> |e.ram| < 0x1_0000
  {
    e.Saved? ==> SaveFine(env, nv, goal, whole, e.ram)
  }

  lemma EventKeepsExactly(env: Env, nv: Nv, goal: seq<Entry>, whole: bool, e: Event)
    requires env.capacity > 0 && env.freshCount == 0 && (e.Saved? ==> |e.ram| < 0x1_0000)
    requires Recoverable(env, nv, goal, whole)
    ensures Recoverable(env, After(env, nv, e), goal, whole) <==> EventFine(env, nv, goal, whole, e)
  {
    match e
    case Started(script) => UpgradeKeeps(env, nv.(faults := script, powered := true), goal, whole);
    case Saved(ram) =>
      if nv.table.Some? {
        assert Over(ram[..0], nv.table.value.recs) == nv.table.value.recs;
      }
      WriteFromAny(nv.(faults := [], powered := true), ram, 0, 0);
  }

  // Over any run of boots, interrupted in any way, and saves: the old records are recoverable at
  // every point exactly when every save leaves them so.
  lemma SavesBetweenBootsExactly(env: Env, nv: Nv, goal: seq<Entry>, whole: bool, events: seq<Event>)
    requires env.capacity > 0 && env.freshCount == 0 && Sized(events)
    requires Recoverable(env, nv, goal, whole)
    ensures (forall k :: 0 <= k <= |events| ==> Recoverable(env, AfterAll(env, nv, events[..k]), goal, whole)) <==>
              forall k :: 0 <= k < |events| ==>
                EventFine(env, AfterAll(env, nv, events[..k]), goal, whole, events[k])
  {
    forall k | 0 <= k < |events|
      ensures AfterAll(env, nv, events[..k + 1]) == After(env, AfterAll(env, nv, events[..k]), events[k])
    {
      AfterNext(env, nv, events, k);
    }
    if forall k :: 0 <= k < |events| ==> EventFine(env, AfterAll(env, nv, events[..k]), goal, whole, events[k]) {
      forall k | 0 <= k <= |events| ensures Recoverable(env, AfterAll(env, nv, events[..k]), goal, whole) {
        FineSoFar(env, nv, goal, whole, events, k);
      }
    }
    if forall k :: 0 <= k <= |events| ==> Recoverable(env, AfterAll(env, nv, events[..k]), goal, whole) {
      forall k | 0 <= k < |events| ensures EventFine(env, AfterAll(env, nv, events[..k]), goal, whole, events[k]) {
        assert Recoverable(env, AfterAll(env, nv, events[..k + 1]), goal, whole);
        EventKeepsExactly(env, AfterAll(env, nv, events[..k]), goal, whole, events[k]);
      }
    }
  }

  lemma {:induction false} AfterNext(env: Env, nv: Nv, events: seq<Event>, k: nat)
    requires Sized(events) && k < |events|
    ensures AfterAll(env, nv, events[..k + 1]) == After(env, AfterAll(env, nv, events[..k]), events[k])
    decreases k
  {
    if k == 0 {
      assert events[..1][1..] == [] && events[..0] == [];
    } else {
      AfterNext(env, After(env, nv, events[0]), events[1..], k - 1);
      assert events[..k + 1][1..] == events[1..][..k] && events[..k][1..] == events[1..][..k - 1];
    }
  }

  lemma {:induction false} FineSoFar(env: Env, nv: Nv, goal: seq<Entry>, whole: bool, events: seq<Event>, k: nat)
    requires env.capacity > 0 && env.freshCount == 0 && Sized(events) && k <= |events|
    requires Recoverable(env, nv, goal, whole)
    requires forall i :: 0 <= i < |events| ==> EventFine(env, AfterAll(env, nv, events[..i]), goal, whole, events[i])
    ensures Recoverable(env, AfterAll(env, nv, events[..k]), goal, whole)
    decreases k
  {
    if k > 0 {
      FineSoFar(env, nv, goal, whole, events, k - 1);
      AfterNext(env, nv, events, k - 1);
      EventKeepsExactly(env, AfterAll(env, nv, events[..k - 1]), goal, whole, events[k - 1]);
    }
  }

  // While a duplicate holds the old records and the new table item has been created, a save of
  // as many records as the table has keeps them exactly when it counts none or holds just them.
  lemma SaveOverNewTable(env: Env, nv: Nv, goal: seq<Entry>, ram: seq<Entry>)
    requires env.capacity > 0 && InDuplicate(env, nv, goal, true)
    requires nv.table.Some? && |nv.table.value.recs| == env.capacity == |ram| < 0x1_0000
    ensures SaveFine(env, nv, goal, true, ram) <==> LiveRecs(ram) == [] || LiveRecs(ram) == goal
  {
    LiveRecsBound(ram);
    assert Over(ram, nv.table.value.recs) == ram;
  }

  // A save that counts other records takes their place for good: whatever the faults, a later
  // boot that succeeds leaves the saved records, and one without faults does succeed.
  lemma CountingSaveReplaces(env: Env, nv: Nv, goal: seq<Entry>, ram: seq<Entry>, scripts: seq<seq<Fault>>,
                             script: seq<Fault>)
    requires env.capacity > 0 && env.freshCount == 0 && InDuplicate(env, nv, goal, true)
    requires nv.table.Some? && |nv.table.value.recs| == env.capacity == |ram| < 0x1_0000 && LiveRecs(ram) != []
    ensures var later := Boots(env, After(env, nv, Saved(ram)), scripts);
            && Boot(env, later, []).1
            && (Boot(env, later, script).1 ==> Upgraded(Boot(env, later, script).0, LiveRecs(ram)))
  {
    LiveRecsBound(ram);
    assert Over(ram[..0], nv.table.value.recs) == nv.table.value.recs;
    assert Over(ram, nv.table.value.recs) == ram;
    WriteFromAny(nv.(faults := [], powered := true), ram, 0, 0);
    var saved := After(env, nv, Saved(ram));
    assert InTable(env, saved, LiveRecs(ram), true);
    BootsKeep(env, saved, LiveRecs(ram), true, scripts);
    var later := Boots(env, saved, scripts);
    UpgradeKeeps(env, later.(faults := [], powered := true), LiveRecs(ram), true);
    UpgradeKeeps(env, later.(faults := script, powered := true), LiveRecs(ram), true);
  }

  ghost predicate NoneLiveFrom(recs: seq<Entry>, x: nat) {
    forall y :: x <= y < |recs| ==> !recs[y].Live()
  }

  lemma {:induction false} NoLiveRecs(recs: seq<Entry>)
    ensures LiveRecs(recs) == [] <==> NoneLiveFrom(recs, 0)
  {
    if recs != [] {
      NoLiveRecs(recs[1..]);
      assert forall y :: 1 <= y < |recs| ==> recs[y] == recs[1..][y - 1];
      assert NoneLiveFrom(recs, 0) <==> !recs[0].Live() && NoneLiveFrom(recs[1..], 0) by {
        if !recs[0].Live() && NoneLiveFrom(recs[1..], 0) {
          forall y | 0 <= y < |recs| ensures !recs[y].Live() {
            if y > 0 { assert !recs[1..][y - 1].Live(); }
          }
        }
        if NoneLiveFrom(recs, 0) {
          forall y | 0 <= y < |recs[1..]| ensures !recs[1..][y].Live() {
            assert !recs[y + 1].Live();
          }
        }
      }
    }
  }

  // Slots beyond x hold no record exactly when the filter has already met its last record.
  lemma NoneLiveTail(recs: seq<Entry>, x: nat)
    requires x <= |recs|
    ensures NoneLiveFrom(recs, x) <==> |LiveRecs(recs[..x])| == |LiveRecs(recs)|
  {
    LiveRecsSplit(recs, x);
    NoLiveRecs(recs[x..]);
    if NoneLiveFrom(recs[x..], 0) {
      forall y | x <= y < |recs| ensures !recs[y].Live() {
        assert !recs[x..][y - x].Live();
      }
    }
  }

  // Reading back an item of the RAM table's own size: slots up to the last record in use are
  // the item's, later ones keep what RAM held.
  lemma {:induction false} ReadFromResult(nv: Nv, ram: seq<Entry>, x: nat, valid: nat)
    requires nv.powered && nv.table.Some?
    requires |nv.table.value.recs| == |ram| && |LiveRecs(nv.table.value.recs)| == nv.table.value.numRecs
    requires x <= |ram| && valid == |LiveRecs(nv.table.value.recs[..x])|
    requires forall y :: 0 <= y < x ==> ram[y] == nv.table.value.recs[y]
    requires forall y :: 0 <= y < x ==> !NoneLiveFrom(nv.table.value.recs, y)
    ensures var recs, r := nv.table.value.recs, ReadFrom(nv, nv.table.value.numRecs, ram, x, valid);
            forall y :: 0 <= y < |ram| ==> r[y] == if NoneLiveFrom(recs, y) then ram[y] else recs[y]
    decreases |ram| - x
  {
    var recs := nv.table.value.recs;
    LiveRecsSplit(recs, x);
    NoneLiveTail(recs, x);
    if x < |ram| && valid < nv.table.value.numRecs {
      LiveRecsNext(recs, x);
      var next := if recs[x].Live() then valid + 1 else valid;
      ReadFromResult(nv, ram[x := recs[x]], x + 1, next);
    } else {
      assert forall y :: x <= y < |ram| && NoneLiveFrom(recs, x) ==> NoneLiveFrom(recs, y);
    }
  }

  // Saving and restoring into a freshly initialised table of the same capacity. The result is
  // the saved table up to its last record and blank after it; it is the saved table itself
  // exactly when the slots after its last record were blank.
  lemma SaveThenRestore(env: Env, nv: Nv, ram: seq<Entry>, width: nat)
    requires nv.powered && nv.faults == [] && nv.dup.None?
    requires nv.table.Some? && |nv.table.value.recs| == |ram| == env.capacity
    ensures var saved := WriteFrom(nv, ram, 0, 0);
            var (nv', restored, count) := Restore(env, saved, Blanks(|ram|, width));
            && nv' == saved && count == |LiveRecs(ram)| && |restored| == |ram|
            && (forall y :: 0 <= y < |ram| ==>
                  restored[y] == if NoneLiveFrom(ram, y) then Blank(width) else ram[y])
            && (restored == ram <==>
                  forall y :: 0 <= y < |ram| && NoneLiveFrom(ram, y) ==> ram[y] == Blank(width))
  {
    WriteFromResult(nv, ram, 0, 0);
    var saved := WriteFrom(nv, ram, 0, 0);
    ReadFromResult(saved, Blanks(|ram|, width), 0, 0);
  }

  // Reading back an item whose leading slots are all in use and counted by its header.
  lemma {:induction false} ReadCompact(nv: Nv, goal: seq<Entry>, ram: seq<Entry>, x: nat)
    requires nv.powered && nv.table.Some? && |goal| < 0x1_0000
    requires |goal| <= |nv.table.value.recs| && |goal| <= |ram|
    requires nv.table.value.recs[..|goal|] == goal && forall e :: e in goal ==> e.Live()
    requires x <= |goal| && ram[..x] == goal[..x]
    ensures ReadFrom(nv, |goal|, ram, x, x) == goal + ram[|goal|..]
    decreases |goal| - x
  {
    if x < |goal| {
      var e := nv.table.value.recs[x];
      assert e == nv.table.value.recs[..|goal|][x] == goal[x];
      assert ram[x := e][..x + 1] == goal[..x] + [e] == goal[..x + 1];
      ReadCompact(nv, goal, ram[x := e], x + 1);
    } else {
      assert goal[..x] == goal;
    }
  }

  // A fault-free upgrade of a table to another capacity, whatever a fresh header reads: it
  // succeeds exactly when the table holds as many records as it looks for.
  lemma ResizeWithoutFaults(env: Env, item: Item, goal: seq<Entry>)
    requires |item.recs| != env.capacity
    requires goal == First(env.capacity, item.Records())
    ensures var (nv', ok) := Upgrade(env, Installed(item));
            && (ok <==> item.Enough(env.capacity))
            && (ok ==>
                  && nv'.powered && nv'.dup.None? && nv'.table.Some?
                  && nv'.table.value.numRecs == |goal| <= |nv'.table.value.recs|
                  && nv'.table.value.recs[..|goal|] == goal)
  {
    GoalIsLive(env, item, goal);
    var nv := Nv(Some(env.Fresh()), Some(item), [], true);
    assert LiveRecs(item.recs[..0]) == goal[..0] == env.Fresh().recs[..0];
    CopyKeeps(env, nv, goal, 0, 0);
    var (nv1, duplicated) := CreateDuplicate(Installed(item));
    assert DeleteTable(nv1, 1 + |item.recs|) == (Nv(None, Some(item), [], true), true);
    assert InitTable(env, Nv(None, Some(item), [], true)) == (nv, true);
  }

  // What a restore reads from a table that holds the goal in its leading slots.
  lemma RestoreCompact(env: Env, nv: Nv, goal: seq<Entry>, width: nat)
    requires nv.powered && nv.table.Some? && |goal| <= env.capacity
    requires nv.table.value.numRecs == |goal| <= |nv.table.value.recs| && nv.table.value.recs[..|goal|] == goal
    requires forall e :: e in goal ==> e.Live()
    ensures ReadFrom(nv, nv.table.value.numRecs, Blanks(env.capacity, width), 0, 0)
         == goal + Blanks(env.capacity - |goal|, width)
    ensures nv.dup.None? ==> Upgraded(nv, goal)
  {
    LeadingRecords(nv.table.value, goal);
    ReadCompact(nv, goal, Blanks(env.capacity, width), 0);
    assert Blanks(env.capacity, width)[|goal|..] == Blanks(env.capacity - |goal|, width);
  }

  lemma AllCounted(item: Item)
    requires item.numRecs == |LiveRecs(item.recs)|
    ensures item.Records() == LiveRecs(item.recs)
    ensures forall capacity: nat :: item.Enough(capacity)
  {
  }

  // Restoring under another capacity: the saved records in order, without the holes between
  // them, cut at the new capacity, and blank slots after them.
  lemma RestoreResized(env: Env, saved: seq<Entry>, width: nat)
    requires |saved| != env.capacity && |saved| < 0x1_0000
    ensures |LiveRecs(saved)| < 0x1_0000
    ensures var goal := First(env.capacity, LiveRecs(saved));
            var nv := Installed(Item(|LiveRecs(saved)|, saved));
            var (nv', restored, count) := Restore(env, nv, Blanks(env.capacity, width));
            && restored == goal + Blanks(env.capacity - |goal|, width) && count == |goal|
            && Upgraded(nv', goal)
  {
    LiveRecsBound(saved);
    var item := Item(|LiveRecs(saved)|, saved);
    AllCounted(item);
    RestoreAfterResize(env, item, First(env.capacity, LiveRecs(saved)), width);
  }

  lemma RestoreAfterResize(env: Env, item: Item, goal: seq<Entry>, width: nat)
    requires |item.recs| != env.capacity && item.Enough(env.capacity)
    requires goal == First(env.capacity, item.Records())
    ensures var (nv', restored, count) := Restore(env, Installed(item), Blanks(env.capacity, width));
            && |goal| <= env.capacity
            && restored == goal + Blanks(env.capacity - |goal|, width) && count == |goal|
            && Upgraded(nv', goal)
  {
    GoalIsLive(env, item, goal);
    ResizeWithoutFaults(env, item, goal);
    RestoreCompact(env, Upgrade(env, Installed(item)).0, goal, width);
  }
}
