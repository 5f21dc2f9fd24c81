/** The running totals of one directory scan, updated in place batch by batch. */
module DirectoryScans {
  import opened Blocks
  import opened Bytes
  import opened Counts
  import opened Options
  import opened StoreModel
  import Scan

  const MOUNT_STATUS: nat := 38

  /** The columns that counting reads. */
  predicate CanAnalyze(batch: Batch, policy: Scan.MountPolicy) {
    && HasColumn(batch, TYPE) && HasColumn(batch, ERROR)
    && (policy.StayOnFilesystem? ==> HasColumn(batch, MOUNT_STATUS))
  }

  function Valued(batch: Batch, field: nat, i: nat): Option<nat>
    requires HasColumn(batch, field) && (field == ERROR || field == MOUNT_STATUS) && i < batch.count
  {
    if Bit(batch.validity[field], i) then Some(ReadU32(CellOf(batch, field, i), 0)) else None
  }

  function RowAt(batch: Batch, policy: Scan.MountPolicy, i: nat): Scan.Row
    requires CanAnalyze(batch, policy) && i < batch.count
  {
    Scan.Row(if Bit(batch.validity[TYPE], i) then Some(CellOf(batch, TYPE, i)[0]) else None,
             Valued(batch, ERROR, i),
             if policy.StayOnFilesystem? then Valued(batch, MOUNT_STATUS, i) else None)
  }

  function RowsOf(batch: Batch, policy: Scan.MountPolicy, n: nat): (rows: seq<Scan.Row>)
    requires CanAnalyze(batch, policy) && n <= batch.count
    ensures |rows| == n
  {
    if n == 0 then [] else RowsOf(batch, policy, n - 1) + [RowAt(batch, policy, n - 1)]
  }

  /** An error list with at most one slot per error number, as a count map. */
  function AsCounts(slots: seq<(nat, nat)>): Counts<nat> {
    if slots == [] then map[] else AsCounts(Init(slots))[Last(slots).0 := Last(slots).1]
  }

  ghost predicate OneSlotEach(slots: seq<(nat, nat)>) {
    forall i, j {:trigger slots[i], slots[j]} :: 0 <= i < j < |slots| ==> slots[i].0 != slots[j].0
  }

  lemma {:induction false} SlotIsCount(slots: seq<(nat, nat)>, error: nat)
    requires OneSlotEach(slots)
    ensures error in AsCounts(slots) <==> exists i :: 0 <= i < |slots| && slots[i].0 == error
    ensures forall i :: 0 <= i < |slots| && slots[i].0 == error ==> error in AsCounts(slots) && AsCounts(slots)[error] == slots[i].1
  {
    if slots != [] {
      SlotIsCount(Init(slots), error);
      if Last(slots).0 == error { assert slots[|slots| - 1].0 == error; }
    }
  }

  lemma {:induction false} SlotUpdate(slots: seq<(nat, nat)>, k: nat, count: nat)
    requires OneSlotEach(slots) && k < |slots|
    ensures OneSlotEach(slots[k := (slots[k].0, count)])
    ensures AsCounts(slots[k := (slots[k].0, count)]) == AsCounts(slots)[slots[k].0 := count]
  {
    var after := slots[k := (slots[k].0, count)];
    if k == |slots| - 1 {
      assert Init(after) == Init(slots);
    } else {
      SlotUpdate(Init(slots), k, count);
      assert Init(after) == Init(slots)[k := (slots[k].0, count)];
    }
  }

  lemma NextRowIsCounted(before: seq<Scan.Row>, batch: Batch, policy: Scan.MountPolicy, i: nat)
    requires CanAnalyze(batch, policy) && i < batch.count
    ensures Scan.CountRows(before + RowsOf(batch, policy, i + 1), policy)
            == Scan.CountRow(Scan.CountRows(before + RowsOf(batch, policy, i), policy), RowAt(batch, policy, i), policy)
  {
    var all := before + RowsOf(batch, policy, i + 1);
    assert all[..|all| - 1] == before + RowsOf(batch, policy, i) && all[|all| - 1] == RowAt(batch, policy, i);
  }

  class DirectoryScan {
    const policy: Scan.MountPolicy
    var entries: nat
    var directories: nat
    var regularFiles: nat
    var symlinks: nat
    var other: nat
    var metadataErrors: nat
    var skippedMounts: nat
    var errorCounts: seq<(nat, nat)>
    var children: seq<nat>
    ghost var rows: seq<Scan.Row>

    ghost predicate Holds(tally: Scan.Tally, seen: nat)
      reads this
    {
      && tally.entries == seen
      && directories == tally.directories && regularFiles == tally.regularFiles && symlinks == tally.symlinks
      && other == tally.other && metadataErrors == tally.metadataErrors && skippedMounts == tally.skippedMounts
      && OneSlotEach(errorCounts) && AsCounts(errorCounts) == tally.errorCounts && children == tally.children
    }

    /** The totals are those of the rows seen so far. */
    ghost predicate Valid()
      reads this
    {
      Holds(Scan.CountRows(rows, policy), entries)
    }

    constructor (policy: Scan.MountPolicy)
      ensures Valid() && rows == [] && this.policy == policy
    {
      this.policy := policy;
      entries, directories, regularFiles, symlinks, other, metadataErrors, skippedMounts := 0, 0, 0, 0, 0, 0, 0;
      errorCounts, children, rows := [], [], [];
    }

    /** Finds the error's slot, or appends one. */
    method RecordError(error: nat)
      requires OneSlotEach(errorCounts)
      modifies this`errorCounts
      ensures OneSlotEach(errorCounts) && AsCounts(errorCounts) == Increment(old(AsCounts(errorCounts)), error)
    {
      SlotIsCount(errorCounts, error);
      for i := 0 to |errorCounts|
        invariant errorCounts == old(errorCounts)
        invariant forall j :: 0 <= j < i ==> errorCounts[j].0 != error
      {
        if errorCounts[i].0 == error {
          SlotUpdate(errorCounts, i, errorCounts[i].1 + 1);
          errorCounts := errorCounts[i := (error, errorCounts[i].1 + 1)];
          return;
        }
      }
      errorCounts := errorCounts + [(error, 1)];
      assert Init(errorCounts) == old(errorCounts);
    }

    method CountType(kind: Option<nat>)
      modifies this`directories, this`regularFiles, this`symlinks, this`other
      ensures directories == old(directories) + if kind == Some(Scan.DIRECTORY) then 1 else 0
      ensures regularFiles == old(regularFiles) + if kind == Some(Scan.REGULAR) then 1 else 0
      ensures symlinks == old(symlinks) + if kind == Some(Scan.SYMLINK) then 1 else 0
      ensures other == old(other)
              + if kind in {Some(Scan.DIRECTORY), Some(Scan.REGULAR), Some(Scan.SYMLINK)} then 0 else 1
    {
      match kind
      case None => other := other + 1;
      case Some(code) =>
        if code == Scan.REGULAR { regularFiles := regularFiles + 1; }
        else if code == Scan.DIRECTORY { directories := directories + 1; }
        else if code == Scan.SYMLINK { symlinks := symlinks + 1; }
        else { other := other + 1; }
    }

    /** One row; `number` is its row number in the whole directory. */
    method AnalyzeRow(row: Scan.Row, number: nat, ghost tally: Scan.Tally)
      requires Holds(tally, number)
      modifies this
      ensures Holds(Scan.CountRow(tally, row, policy), number + 1)
      ensures entries == old(entries) && rows == old(rows)
    {
      if row.error.Some? {
        RecordError(row.error.value);
        metadataErrors := metadataErrors + 1;
      }
      CountType(row.kind);
      if row.kind != Some(Scan.DIRECTORY) || row.error.Some? { return; }
      var traverse := policy.CrossMounts?;
      if !traverse && row.mountStatus.Some? { traverse := row.mountStatus.value % 4 == 0; }
      if traverse { children := children + [number]; } else { skippedMounts := skippedMounts + 1; }
    }

    /** All rows of one batch, behind those of the batches before it. */
    method Analyze(batch: Batch) returns (ok: bool)
      requires Valid()
      modifies this
      ensures ok == (CanAnalyze(batch, policy) && old(entries) + batch.count <= UINT32_MAX)
      ensures ok ==> Valid() && rows == old(rows) + RowsOf(batch, policy, batch.count) && entries == old(entries) + batch.count
      ensures !ok ==> rows == old(rows) && entries == old(entries)
    {
      if !CanAnalyze(batch, policy) || entries > UINT32_MAX || batch.count > UINT32_MAX - entries { return false; }
      ghost var before := rows;
      assert before + RowsOf(batch, policy, 0) == before;
      for i := 0 to batch.count
        invariant entries == old(entries) && rows == before
        invariant Holds(Scan.CountRows(before + RowsOf(batch, policy, i), policy), entries + i)
      {
        NextRowIsCounted(before, batch, policy, i);
        AnalyzeRow(RowAt(batch, policy, i), entries + i, Scan.CountRows(before + RowsOf(batch, policy, i), policy));
      }
      entries := entries + batch.count;
      rows := before + RowsOf(batch, policy, batch.count);
      ok := true;
    }
  }
}
