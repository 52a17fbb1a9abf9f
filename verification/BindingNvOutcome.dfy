/**
  What an upgrade and a restore of the binding table leave: how long the table is, and what
  the RAM table holds afterwards.
 */
module BindingNvOutcome {
  import opened Words
  import opened BindingEntries
  import opened BindingNv

  // ---------- The length of the table ----------

  // A leftover table item of another length, without records, stands beside the duplicate, and
  // its deletion is refused: the code ignores that.
  predicate LeftoverKept(env: Env, nv: Nv) {
    && nv.dup.Some? && nv.table.Some? && nv.table.value.numRecs == 0
    && |nv.table.value.recs| != env.capacity
    && nv.powered && nv.faults != [] && nv.faults[0].Refuse?
  }

  // The copy loop keeps the table's length and the duplicate.
  lemma {:induction false} CopyShape(env: Env, nv: Nv, count: word, i: nat, valid: nat)
    requires valid <= count
    ensures var nv' := CopyFrom(env, nv, count, i, valid).0;
            nv'.dup == nv.dup && (nv'.table.Some? <==> nv.table.Some?) && Length(nv'.table) == Length(nv.table)
    decreases Length(nv.dup) - i
  {
    if valid < env.capacity && valid < count && nv.powered && nv.dup.Some? && i < |nv.dup.value.recs| {
      var rec := nv.dup.value.recs[i];
      if !rec.Live() {
        CopyShape(env, nv, count, i + 1, valid);
      } else {
        var (nv', ok) := WriteRecord(nv, valid, rec);
        if ok {
          CopyShape(env, nv', count, i + 1, valid + 1);
        }
      }
    }
  }

  // Rebuilding from the duplicate: the table keeps a length it already has, a leftover of another
  // length is replaced unless its deletion is refused, and a missing one is created.
  lemma RebuiltLength(env: Env, nv: Nv, dupLen: nat)
    requires nv.powered && nv.dup.Some?
    ensures var (nv', ok) := CopyBackup(env, nv, dupLen);
            ok ==>
              && nv'.powered && nv'.table.Some? && nv'.dup.None?
              && |nv'.table.value.recs| ==
                 if nv.table.Some? && nv.faults != [] && nv.faults[0].Refuse? then |nv.table.value.recs|
                 else env.capacity
  {
    var bindLen := Length(nv.table);
    var nv1 := if bindLen > 0 && bindLen != 1 + env.capacity then DeleteTable(nv, bindLen).0 else nv;
    var (nv2, created) := InitTable(env, nv1);
    if created {
      CopyShape(env, nv2, nv2.dup.value.numRecs, 0, 0);
    }
  }

  // After any boot that succeeds, from any state and under any faults, there is no duplicate
  // and the table has the firmware's length, unless a leftover item of another length could not
  // be deleted: then it has that item's length.
  lemma UpgradeLength(env: Env, nv: Nv)
    requires nv.powered
    ensures var (nv', ok) := Upgrade(env, nv);
            ok ==>
              && nv'.powered && nv'.table.Some? && nv'.dup.None?
              && |nv'.table.value.recs| == if LeftoverKept(env, nv) then |nv.table.value.recs| else env.capacity
  {
    var bindLen, dupLen := Length(nv.table), Length(nv.dup);
    var numRecs := if nv.table.Some? then nv.table.value.numRecs else 0;
    if (dupLen == 0 && bindLen != 1 + env.capacity) || (dupLen > 0 && bindLen > 0 && numRecs > 0) {
      var (nv1, duplicated) := CreateDuplicate(nv);
      if duplicated {
        var (nv2, deleted) := DeleteTable(nv1, bindLen);
        if deleted {
          RebuiltLength(env, nv2, bindLen);
        }
      }
    } else if dupLen > 0 {
      RebuiltLength(env, nv, dupLen);
    }
  }

  // A boot without faults that succeeds, from any state at all, leaves a table of the firmware's
  // length and no duplicate, and every later boot changes nothing, whatever its faults.
  lemma UpgradeSettles(env: Env, nv: Nv, scripts: seq<seq<Fault>>)
    requires Boot(env, nv, []).1
    ensures var after := Boot(env, nv, []).0;
            && after.dup.None? && after.table.Some? && |after.table.value.recs| == env.capacity
            && Boots(env, after, scripts).table == after.table && Boots(env, after, scripts).dup.None?
            && Boot(env, Boots(env, after, scripts), []).1
  {
    UpgradeLength(env, nv.(faults := [], powered := true));
    var after := Boot(env, nv, []).0;
    RightSizeUntouched(env, after, after.table.value, scripts);
  }

  // ---------- What a restore reads ----------

  lemma LiveGrows(recs: seq<Entry>, x: nat, y: nat)
    requires x <= y <= |recs|
    ensures |LiveRecs(recs[..x])| <= |LiveRecs(recs[..y])|
  {
    assert recs[..y][..x] == recs[..x];
    LiveRecsSplit(recs[..y], x);
  }

  // Slot y of the RAM table after a restore from an item whose header counts n: the item's slot
  // while fewer than n records lie before it, else what RAM held.
  function Slot(recs: seq<Entry>, n: nat, ram: seq<Entry>, y: nat): Entry
    requires y < |ram|
  {
    if y < |recs| && |LiveRecs(recs[..y])| < n then recs[y] else ram[y]
  }

  lemma {:induction false} ReadExactly(nv: Nv, n: word, ram: seq<Entry>, x: nat, valid: nat)
    requires nv.powered && nv.table.Some? && x <= |ram|
    requires var recs := nv.table.value.recs;
             valid == |LiveRecs(recs[..if x <= |recs| then x else |recs|])|
    ensures var r := ReadFrom(nv, n, ram, x, valid);
            forall y :: 0 <= y < |ram| ==> r[y] == if x <= y then Slot(nv.table.value.recs, n, ram, y) else ram[y]
    decreases |ram| - x
  {
    var recs := nv.table.value.recs;
    if x < |ram| && valid < n {
      if x < |recs| {
        LiveRecsNext(recs, x);
        ReadExactly(nv, n, ram[x := recs[x]], x + 1, if recs[x].Live() then valid + 1 else valid);
      } else {
        ReadExactly(nv, n, ram, x + 1, valid);
      }
    } else {
      forall y | x <= y < |ram| ensures Slot(recs, n, ram, y) == ram[y] {
        if y < |recs| {
          LiveGrows(recs, x, y);
        }
      }
    }
  }

  // The first n records in use of the item come out, in order.
  lemma {:induction false} ReadRecords(recs: seq<Entry>, n: nat, r: seq<Entry>, width: nat, y: nat)
    requires y <= |recs| == |r|
    requires forall i :: 0 <= i < |r| ==> r[i] == Slot(recs, n, Blanks(|r|, width), i)
    ensures LiveRecs(r[..y]) == First(n, LiveRecs(recs[..y]))
    decreases y
  {
    if y > 0 {
      ReadRecords(recs, n, r, width, y - 1);
      LiveRecsNext(recs, y - 1);
      LiveRecsNext(r, y - 1);
      assert r[y - 1] == Slot(recs, n, Blanks(|r|, width), y - 1);
    }
  }

  // BindRestoreFromNV from any NV state: when the upgrade fails RAM stays as it was and no record
  // is reported; when it succeeds the header's count is reported and RAM is read slot by slot.
  lemma RestoreExactly(env: Env, nv: Nv, ram: seq<Entry>)
    requires nv.powered
    ensures var (nv1, ok) := Upgrade(env, nv);
            var (nv', restored, count) := Restore(env, nv, ram);
            && nv' == nv1 && |restored| == |ram|
            && (!ok ==> restored == ram && count == 0)
            && (ok ==>
                  && nv1.table.Some? && count == nv1.table.value.numRecs
                  && forall y :: 0 <= y < |ram| ==> restored[y] == Slot(nv1.table.value.recs, count, ram, y))
  {
    UpgradeLength(env, nv);
    var (nv1, ok) := Upgrade(env, nv);
    if ok {
      ReadExactly(nv1, nv1.table.value.numRecs, ram, 0, 0);
    }
  }

  // From a settled table nothing is upgraded, and its records are restored slot by slot.
  lemma RestoreSettled(env: Env, nv: Nv, width: nat)
    requires nv.powered && Settled(env, nv)
    ensures var t := nv.table.value;
            var (nv', restored, count) := Restore(env, nv, Blanks(env.capacity, width));
            && nv' == nv && count == t.numRecs && LiveRecs(restored) == t.Records() && |restored| == env.capacity
            && forall y :: 0 <= y < env.capacity ==>
                 restored[y] == if |LiveRecs(t.recs[..y])| < t.numRecs then t.recs[y] else Blank(width)
  {
    var t, ram := nv.table.value, Blanks(env.capacity, width);
    RestoreExactly(env, nv, ram);
    var restored := Restore(env, nv, ram).1;
    ReadRecords(t.recs, t.numRecs, restored, width, |restored|);
    assert restored[..|restored|] == restored && t.recs[..|t.recs|] == t.recs;
  }

  // From any other state in which all the records are recoverable, in the table or in the
  // duplicate of an interrupted upgrade, a restore without faults finishes the upgrade and gives
  // exactly those records, and blank slots after them.
  lemma RestoreRecovered(env: Env, nv: Nv, goal: seq<Entry>, width: nat)
    requires env.capacity > 0 && env.freshCount == 0 && nv.powered && nv.faults == []
    requires Recoverable(env, nv, goal, true) && !Settled(env, nv)
    ensures |goal| <= env.capacity
    ensures var (nv', restored, count) := Restore(env, nv, Blanks(env.capacity, width));
            && restored == goal + Blanks(env.capacity - |goal|, width) && count == |goal|
            && Upgraded(nv', goal) && Settled(env, nv')
  {
    UpgradeKeeps(env, nv, goal, true);
    UpgradeLength(env, nv);
    RecoverableIsLive(env, nv, goal);
    RestoreCompact(env, Upgrade(env, nv).0, goal, width);
  }

  lemma RecoverableIsLive(env: Env, nv: Nv, goal: seq<Entry>)
    requires Recoverable(env, nv, goal, true)
    ensures |goal| <= env.capacity && forall e :: e in goal ==> e.Live()
  {
    GoalIsLive(env, if InTable(env, nv, goal, true) then nv.table.value else nv.dup.value, goal);
  }

  // A counting table of the right length was written by the upgrade.
  ghost predicate SizedIsCompact(env: Env, nv: Nv, goal: seq<Entry>) {
    nv.table.Some? && nv.table.value.numRecs > 0 && |nv.table.value.recs| == env.capacity ==>
      Compact(nv.table.value, goal)
  }

  lemma {:induction false} BootsKeepCompact(env: Env, nv: Nv, goal: seq<Entry>, scripts: seq<seq<Fault>>)
    requires env.capacity > 0 && env.freshCount == 0
    requires Recoverable(env, nv, goal, true) && SizedIsCompact(env, nv, goal)
    ensures SizedIsCompact(env, Boots(env, nv, scripts), goal)
    decreases |scripts|
  {
    if scripts != [] {
      UpgradeKeeps(env, nv.(faults := scripts[0], powered := true), goal, true);
      BootsKeepCompact(env, Boot(env, nv, scripts[0]).0, goal, scripts[1..]);
    }
  }

  // After any boots, interrupted in any way, a restore without faults gives the records of the
  // table there was: one of another length compacted and cut at the capacity, with blank slots
  // behind, one of the right length slot by slot.
  lemma RestoreAfterBoots(env: Env, t: Item, scripts: seq<seq<Fault>>, width: nat)
    requires env.capacity > 0 && env.freshCount == 0 && Resizable(env, t)
    ensures var goal := First(env.capacity, t.Records());
            var nv := Boots(env, Installed(t), scripts).(faults := [], powered := true);
            var (nv', restored, count) := Restore(env, nv, Blanks(env.capacity, width));
            && |goal| <= env.capacity && Upgraded(nv', goal) && LiveRecs(restored) == goal
            && (|t.recs| != env.capacity ==>
                  restored == goal + Blanks(env.capacity - |goal|, width) && count == |goal|)
            && (|t.recs| == env.capacity ==>
                  && count == t.numRecs && |restored| == env.capacity
                  && forall y :: 0 <= y < env.capacity ==>
                       restored[y] == if |LiveRecs(t.recs[..y])| < t.numRecs then t.recs[y] else Blank(width))
  {
    var goal := First(env.capacity, t.Records());
    var nv := Boots(env, Installed(t), scripts).(faults := [], powered := true);
    if |t.recs| == env.capacity {
      LiveRecsBound(t.recs);
      RightSizeUntouched(env, Installed(t), t, scripts);
      RestoreSettled(env, nv, width);
    } else {
      BootsKeep(env, Installed(t), goal, true, scripts);
      BootsKeepCompact(env, Installed(t), goal, scripts);
      RestoreEither(env, nv, goal, width);
    }
  }

  lemma RestoreEither(env: Env, nv: Nv, goal: seq<Entry>, width: nat)
    requires env.capacity > 0 && env.freshCount == 0 && nv.powered && nv.faults == []
    requires Recoverable(env, nv, goal, true) && SizedIsCompact(env, nv, goal)
    ensures |goal| <= env.capacity
    ensures var (nv', restored, count) := Restore(env, nv, Blanks(env.capacity, width));
            && restored == goal + Blanks(env.capacity - |goal|, width) && count == |goal|
            && Upgraded(nv', goal) && LiveRecs(restored) == goal
  {
    RecoverableIsLive(env, nv, goal);
    if Settled(env, nv) {
      RestoreCompact(env, nv, goal, width);
    } else {
      RestoreRecovered(env, nv, goal, width);
    }
    LiveRecsConcat(goal, Blanks(env.capacity - |goal|, width));
    LiveRecsOfLive(goal);
    BlanksAreEmpty(env.capacity - |goal|, width);
  }

  lemma {:induction false} BlanksAreEmpty(n: nat, width: nat)
    ensures LiveRecs(Blanks(n, width)) == []
  {
    if n > 0 {
      assert Blanks(n, width)[1..] == Blanks(n - 1, width);
      BlanksAreEmpty(n - 1, width);
    }
  }
}
