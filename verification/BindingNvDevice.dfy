/**
  The step-by-step form of the NV code: a device whose items change in place, and the upgrade,
  save and restore routines as they run over it and over the RAM table.
 */
module BindingNvDevice {
  import opened Words
  import opened BindingEntries
  import opened BindingNv

  class NvDevice {
    const env: Env
    var table: Option<Item>
    var dup: Option<Item>
    var faults: seq<Fault>
    var powered: bool

    function State(): Nv
      reads this
    {
      Nv(table, dup, faults, powered)
    }

    constructor (env: Env, nv: Nv)
      ensures this.env == env && State() == nv
    {
      this.env := env;
      table, dup, faults, powered := nv.table, nv.dup, nv.faults, nv.powered;
    }

    // Takes the next fault off the script and says whether the operation is carried out.
    method Consult(possible: bool) returns (go: bool)
      modifies this
      ensures table == old(table) && dup == old(dup)
      ensures (State(), go) == Attempt(old(State()), old(table), old(dup), possible)
    {
      if !powered {
        return false;
      }
      if faults == [] {
        return possible;
      }
      var fault := faults[0];
      faults := faults[1..];
      powered := !fault.PowerCut?;
      go := fault.Proceed? && possible;
    }

    method DeleteTableItem(len: nat) returns (ok: bool)
      modifies this
      ensures (State(), ok) == DeleteTable(old(State()), len)
    {
      ok := Consult(table.Some? && len == Length(table));
      if ok {
        table := None;
      }
    }

    method DeleteDuplicateItem(len: nat) returns (ok: bool)
      modifies this
      ensures (State(), ok) == DeleteDuplicate(old(State()), len)
    {
      ok := Consult(dup.Some? && len == Length(dup));
      if ok {
        dup := None;
      }
    }

    method InitTableItem() returns (ok: bool)
      modifies this
      ensures (State(), ok) == InitTable(env, old(State()))
    {
      ok := Consult(true);
      if ok && table.None? {
        table := Some(env.Fresh());
      }
    }

    method WriteTableRecord(i: nat, e: Entry) returns (ok: bool)
      modifies this
      ensures (State(), ok) == WriteRecord(old(State()), i, e)
    {
      ok := Consult(table.Some? && i < |table.value.recs|);
      if ok {
        table := Some(table.value.(recs := table.value.recs[i := e]));
      }
    }

    method WriteTableCount(n: word) returns (ok: bool)
      modifies this
      ensures (State(), ok) == WriteCount(old(State()), n)
    {
      ok := Consult(table.Some?);
      if ok {
        table := Some(table.value.(numRecs := n));
      }
    }

    method NwkCreateDuplicateNV() returns (ok: bool)
      modifies this
      ensures (State(), ok) == CreateDuplicate(old(State()))
    {
      var torn := if powered && faults != [] && !faults[0].Proceed? then Some(faults[0].torn) else None;
      ok := Consult(table.Some?);
      if ok {
        dup := table;
      } else if torn.Some? {
        dup := torn.value;
      }
    }

    method BindCopyBackupToNewNV(dupLen: nat) returns (ok: bool)
      modifies this
      ensures (State(), ok) == CopyBackup(env, old(State()), dupLen)
    {
      var bindLen := Length(table);
      if bindLen > 0 && bindLen != 1 + env.capacity {
        var _ := DeleteTableItem(bindLen);
      }
      ok := InitTableItem();
      if !ok || dup.None? {
        return false;
      }
      var count: word := dup.value.numRecs;
      var i, validBackupRecs := 0, 0;
      ghost var start := State();
      while validBackupRecs < env.capacity && validBackupRecs < count
        invariant validBackupRecs <= count && dup == start.dup && count == dup.value.numRecs
        invariant CopyFrom(env, State(), count, i, validBackupRecs) == CopyFrom(env, start, count, 0, 0)
        decreases |dup.value.recs| - i
      {
        if !powered || i >= |dup.value.recs| {
          return false;
        }
        var backupRec := dup.value.recs[i];
        if backupRec.Live() {
          var written := WriteTableRecord(validBackupRecs, backupRec);
          if !written {
            return false;
          }
          validBackupRecs := validBackupRecs + 1;
        }
        i := i + 1;
      }
      ok := WriteTableCount(validBackupRecs);
      if ok {
        ok := DeleteDuplicateItem(dupLen);
      }
    }

    method BindUpgradeTableInNV() returns (ok: bool)
      modifies this
      ensures (State(), ok) == Upgrade(env, old(State()))
    {
      var bindLen, dupLen := Length(table), Length(dup);
      var numRecs: word := if table.Some? then table.value.numRecs else 0;
      if (dupLen == 0 && bindLen != 1 + env.capacity) || (dupLen > 0 && bindLen > 0 && numRecs > 0) {
        ok := NwkCreateDuplicateNV();
        if ok {
          ok := DeleteTableItem(bindLen);
        }
        if ok {
          ok := BindCopyBackupToNewNV(bindLen);
        }
      } else if dupLen > 0 {
        ok := BindCopyBackupToNewNV(dupLen);
      } else {
        ok := true;
      }
    }

    method BindRestoreFromNV(bindingTable: array<Entry>) returns (numRecs: word)
      requires bindingTable.Length == env.capacity
      modifies this, bindingTable
      ensures (State(), bindingTable[..], numRecs) == Restore(env, old(State()), old(bindingTable[..]))
    {
      var ok := BindUpgradeTableInNV();
      if !ok || !powered || table.None? {
        return 0;
      }
      numRecs := table.value.numRecs;
      var x, validRecsCount := 0, 0;
      ghost var nv, start := State(), bindingTable[..];
      while x < bindingTable.Length && validRecsCount < numRecs
        invariant x <= bindingTable.Length && State() == nv
        invariant ReadFrom(nv, numRecs, bindingTable[..], x, validRecsCount) == ReadFrom(nv, numRecs, start, 0, 0)
      {
        if x < |table.value.recs| {
          ghost var before := bindingTable[..];
          bindingTable[x] := table.value.recs[x];
          assert bindingTable[..] == before[x := table.value.recs[x]];
          if bindingTable[x].Live() {
            validRecsCount := validRecsCount + 1;
          }
        }
        x := x + 1;
      }
    }

    method BindWriteNV(bindingTable: array<Entry>)
      requires bindingTable.Length == env.capacity
      modifies this
      ensures State() == WriteFrom(old(State()), bindingTable[..], 0, 0)
    {
      var numRecs := 0;
      for x := 0 to bindingTable.Length
        invariant numRecs <= x
        invariant WriteFrom(State(), bindingTable[..], x, numRecs)
               == WriteFrom(old(State()), bindingTable[..], 0, 0)
      {
        var _ := WriteTableRecord(x, bindingTable[x]);
        if bindingTable[x].Live() {
          numRecs := numRecs + 1;
        }
      }
      var _ := WriteTableCount(numRecs);
    }
  }
}
