/** What one directory scan counts, and which of its rows become child directories. */
module Scan {
  import opened Counts
  import opened Options
  import opened StoreModel

  datatype MountPolicy = CrossMounts | StayOnFilesystem

  const REGULAR: nat := 1
  const DIRECTORY: nat := 2
  const SYMLINK: nat := 3

  /** The columns a scan looks at, decoded: a value is absent where its validity bit is clear. */
  datatype Row = Row(kind: Option<nat>, error: Option<nat>, mountStatus: Option<nat>)

  datatype Tally = Tally(
    entries: nat, directories: nat, regularFiles: nat, symlinks: nat, other: nat,
    metadataErrors: nat, errorCounts: Counts<nat>, skippedMounts: nat, children: seq<nat>)

  const NOTHING: Tally := Tally(0, 0, 0, 0, 0, 0, map[], 0, [])

  predicate IsDirectory(row: Row) {
    row.kind == Some(DIRECTORY) && row.error.None?
  }

  /** Bits 0 and 1 of the mount status mark a mount point and an automount trigger. */
  predicate Traversed(row: Row, policy: MountPolicy) {
    policy.CrossMounts? || (row.mountStatus.Some? && row.mountStatus.value % 4 == 0)
  }

  predicate IsChild(row: Row, policy: MountPolicy) {
    IsDirectory(row) && Traversed(row, policy)
  }

  function CountRow(tally: Tally, row: Row, policy: MountPolicy): Tally {
    var t := if row.error.Some?
             then tally.(metadataErrors := tally.metadataErrors + 1,
                         errorCounts := Increment(tally.errorCounts, row.error.value))
             else tally;
    var t := if row.kind == Some(REGULAR) then t.(regularFiles := t.regularFiles + 1)
             else if row.kind == Some(DIRECTORY) then t.(directories := t.directories + 1)
             else if row.kind == Some(SYMLINK) then t.(symlinks := t.symlinks + 1)
             else t.(other := t.other + 1);
    var t := if !IsDirectory(row) then t
             else if Traversed(row, policy) then t.(children := t.children + [t.entries])
             else t.(skippedMounts := t.skippedMounts + 1);
    t.(entries := t.entries + 1)
  }

  function CountRows(rows: seq<Row>, policy: MountPolicy): Tally {
    if rows == [] then NOTHING
    else CountRow(CountRows(rows[..|rows| - 1], policy), rows[|rows| - 1], policy)
  }

  /** A row whose metadata could not be read carries no type: the record decoder stops before the type. */
  predicate ErrorsHaveNoType(rows: seq<Row>) {
    forall i :: 0 <= i < |rows| && rows[i].error.Some? ==> rows[i].kind.None?
  }

  predicate TypesAddUp(t: Tally) {
    && t.entries == t.directories + t.regularFiles + t.symlinks + t.other
    && |t.children| + t.skippedMounts <= t.directories
  }

  lemma CountRowConserves(t: Tally, row: Row, policy: MountPolicy)
    requires TypesAddUp(t)
    ensures var after := CountRow(t, row, policy);
            && TypesAddUp(after) && after.entries == t.entries + 1
            && ((row.error.Some? ==> row.kind.None?) ==>
                  after.directories - |after.children| - after.skippedMounts
                  == t.directories - |t.children| - t.skippedMounts)
  {
  }

  lemma CountRowErrors(t: Tally, row: Row, policy: MountPolicy)
    requires t.metadataErrors == Total(t.errorCounts)
    ensures var after := CountRow(t, row, policy); after.metadataErrors == Total(after.errorCounts)
  {
    if row.error.Some? { TotalIncrement(t.errorCounts, row.error.value); }
  }

  lemma {:induction false} CountsEveryRow(rows: seq<Row>, policy: MountPolicy)
    ensures CountRows(rows, policy).entries == |rows|
  {
    if rows != [] { CountsEveryRow(rows[..|rows| - 1], policy); }
  }

  lemma {:induction false} CountsErrors(rows: seq<Row>, policy: MountPolicy)
    ensures var t := CountRows(rows, policy); t.metadataErrors == Total(t.errorCounts)
  {
    if rows != [] {
      CountsErrors(rows[..|rows| - 1], policy);
      CountRowErrors(CountRows(rows[..|rows| - 1], policy), rows[|rows| - 1], policy);
    }
  }

  /** Every row is counted under one type, every traversable directory is a child or a skipped mount. */
  lemma {:induction false} CountsAreConserved(rows: seq<Row>, policy: MountPolicy)
    ensures var t := CountRows(rows, policy);
            && TypesAddUp(t)
            && (ErrorsHaveNoType(rows) ==> t.directories == |t.children| + t.skippedMounts)
  {
    if rows != [] {
      CountsAreConserved(rows[..|rows| - 1], policy);
      CountRowConserves(CountRows(rows[..|rows| - 1], policy), rows[|rows| - 1], policy);
    }
  }

  predicate IsChildRow(rows: seq<Row>, policy: MountPolicy, i: int) {
    0 <= i < |rows| && IsChild(rows[i], policy)
  }

  ghost predicate Ascending(s: seq<nat>) {
    forall k :: 0 < k < |s| ==> Rises(s, k)
  }

  predicate Rises(s: seq<nat>, k: nat)
    requires 0 < k < |s|
  {
    s[k - 1] < s[k]
  }

  lemma {:induction false} AscendingOrders(s: seq<nat>, j: nat, k: nat)
    requires Ascending(s) && j < k < |s|
    ensures s[j] < s[k]
    decreases k
  {
    assert Rises(s, k);
    if j < k - 1 { AscendingOrders(s, j, k - 1); }
  }

  ghost predicate ListsChildren(children: seq<nat>, rows: seq<Row>, policy: MountPolicy) {
    && (forall i {:trigger IsChildRow(rows, policy, i)} :: i in children <==> IsChildRow(rows, policy, i))
    && Ascending(children)
  }

  lemma ListsOneMore(children: seq<nat>, rows: seq<Row>, policy: MountPolicy)
    requires rows != [] && ListsChildren(children, rows[..|rows| - 1], policy)
    ensures var last := |rows| - 1;
            ListsChildren(if IsChild(rows[last], policy) then children + [last] else children, rows, policy)
  {
    var before := rows[..|rows| - 1];
    var after := if IsChild(rows[|before|], policy) then children + [|before|] else children;
    forall i ensures i in after <==> IsChildRow(rows, policy, i) {
      assert i in children <==> IsChildRow(before, policy, i);
    }
    if children != [] {
      var greatest := children[|children| - 1];
      assert greatest in children && IsChildRow(before, policy, greatest);
    }
    forall k | 0 < k < |after| ensures Rises(after, k) {
      if k < |children| { assert Rises(children, k); }
    }
  }

  /** So a row names at most one child directory. */
  lemma ChildRowsAreValid(rows: seq<Row>, policy: MountPolicy)
    ensures ValidChildRows(|rows|, CountRows(rows, policy).children)
  {
    ChildrenAreTraversableRows(rows, policy);
    var children := CountRows(rows, policy).children;
    forall j | 0 <= j < |children| ensures children[j] < |rows| {
      assert children[j] in children && IsChildRow(rows, policy, children[j]);
    }
    forall j, k | 0 <= j < k < |children| ensures children[j] != children[k] {
      AscendingOrders(children, j, k);
    }
  }

  /** The children are the traversable directory rows, each once and in row order. */
  lemma {:induction false} ChildrenAreTraversableRows(rows: seq<Row>, policy: MountPolicy)
    ensures ListsChildren(CountRows(rows, policy).children, rows, policy)
  {
    if rows != [] {
      var before := rows[..|rows| - 1];
      ChildrenAreTraversableRows(before, policy);
      CountsEveryRow(before, policy);
      ListsOneMore(CountRows(before, policy).children, rows, policy);
    }
  }

  // -- Row by row -------------------------------------------------------------------------------------

  /** How many rows have a property. */
  function CountIf(rows: seq<Row>, p: Row -> bool): nat {
    if rows == [] then 0 else CountIf(rows[..|rows| - 1], p) + if p(rows[|rows| - 1]) then 1 else 0
  }

  /** A directory without an error that may be entered: not behind a mount point or an automount trigger, if these matter. */
  predicate IsEntered(row: Row, policy: MountPolicy) {
    && row.kind == Some(2) && row.error == None
    && (policy == CrossMounts
        || (row.mountStatus.Some? && row.mountStatus.value % 2 == 0 && row.mountStatus.value / 2 % 2 == 0))
  }

  lemma EnteredIsChild(row: Row, policy: MountPolicy)
    ensures IsEntered(row, policy) <==> IsChild(row, policy)
  {
  }

  /** Every counter is the number of the rows it is for: type codes 1, 2 and 3 are files, directories and links. */
  lemma {:induction false} CountersCount(rows: seq<Row>, policy: MountPolicy)
    ensures var t := CountRows(rows, policy);
            && t.entries == |rows|
            && t.regularFiles == CountIf(rows, (r: Row) => r.kind == Some(1))
            && t.directories == CountIf(rows, (r: Row) => r.kind == Some(2))
            && t.symlinks == CountIf(rows, (r: Row) => r.kind == Some(3))
            && t.other == CountIf(rows, (r: Row) => r.kind != Some(1) && r.kind != Some(2) && r.kind != Some(3))
            && t.metadataErrors == CountIf(rows, (r: Row) => r.error != None)
            && t.skippedMounts
               == CountIf(rows, (r: Row) => r.kind == Some(2) && r.error == None && !IsEntered(r, policy))
  {
    if rows != [] {
      CountersCount(rows[..|rows| - 1], policy);
      EnteredIsChild(rows[|rows| - 1], policy);
    }
  }

  lemma {:induction false} ErrorNumbersCount(rows: seq<Row>, policy: MountPolicy, error: nat)
    ensures CountOf(CountRows(rows, policy).errorCounts, error) == CountIf(rows, (r: Row) => r.error == Some(error))
  {
    if rows != [] { ErrorNumbersCount(rows[..|rows| - 1], policy, error); }
  }

  /** The child directories are the rows that may be entered, in row order. */
  lemma ChildrenAreEntered(rows: seq<Row>, policy: MountPolicy)
    ensures var children := CountRows(rows, policy).children;
            && (forall i: nat :: i in children <==> i < |rows| && IsEntered(rows[i], policy))
            && (forall j, k :: 0 <= j < k < |children| ==> children[j] < children[k])
  {
    ChildrenAreTraversableRows(rows, policy);
    var children := CountRows(rows, policy).children;
    forall i: nat ensures i in children <==> i < |rows| && IsEntered(rows[i], policy) {
      assert i in children <==> IsChildRow(rows, policy, i);
      if i < |rows| { EnteredIsChild(rows[i], policy); }
    }
    forall j, k | 0 <= j < k < |children| ensures children[j] < children[k] { AscendingOrders(children, j, k); }
  }
}
