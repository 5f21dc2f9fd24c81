/** The native store as it is in memory: a table of record segments and a growing journal, changed under one lock. */
module IndexStores {
  import opened Blocks
  import opened Bytes
  import opened Options
  import opened StoreModel

  const RECORDS_PER_SEGMENT: nat := 4096

  type DirectoryRecord = Record<Block>

  const EMPTY: DirectoryRecord := Record(0, 0, 0, Pending, None)

  datatype Fetched =
    | Found(state: State, parent: Option<nat>, name: Buffer, entries: Option<Batch>, children: seq<(nat, nat)>,
            error: Option<nat>)
    | Missing
    | NoMemory
    | InvalidTree

  /** Opening a directory: its component names, deepest first, or why there are none. */
  datatype Components = Names(names: seq<Buffer>) | UnknownDirectory | RootUnavailable(errno: nat) | NoRoom | BrokenTree

  /** Capacities grow by doubling. */
  function Doubled(capacity: nat, required: nat): (grown: nat)
    requires capacity > 0
    ensures required <= grown && capacity <= grown
    decreases required - capacity
  {
    if capacity >= required then capacity else Doubled(2 * capacity, required)
  }

  /** The segments that hold so many records. */
  function SegmentsFor(required: nat): nat {
    (required + RECORDS_PER_SEGMENT - 1) / RECORDS_PER_SEGMENT
  }

  /** The allocations that room for `required` records takes: one for a larger table, and one for each new segment. */
  function DirectoryCost(required: nat, tableSize: nat, segmentCount: nat): nat {
    var needed := SegmentsFor(required);
    (if needed > tableSize then 1 else 0) + if needed > segmentCount then needed - segmentCount else 0
  }

  /** The allocation that a larger journal takes. */
  function CompletionCost(required: nat, capacity: nat): nat {
    if required > capacity then 1 else 0
  }

  class IndexStore {
    const fields: seq<nat>
    const rootName: Buffer
    var segments: array<array?<DirectoryRecord>>
    var segmentCount: nat
    var directoryCount: nat
    var publishedCount: nat
    var failedCount: nat
    var journal: array<nat>
    var completionCount: nat
    var entryCount: nat
    ghost var contents: Store<Block>
    ghost var Repr: set<object>

    // -- Representation -----------------------------------------------------------------------

    /** The table holds distinct segments of full size; slots past the directory count are free. */
    ghost predicate Shape()
      reads this, segments
    {
      && 0 < segments.Length && 0 < journal.Length && segmentCount <= segments.Length && completionCount <= journal.Length
      && (forall k :: 0 <= k < segmentCount ==> segments[k] != null && segments[k].Length == RECORDS_PER_SEGMENT)
      && (forall j, k :: 0 <= j < k < segmentCount ==> segments[j] != segments[k])
    }

    ghost predicate Owned()
      reads this, segments
    {
      && this in Repr && segments in Repr && journal in Repr
      && (forall k :: 0 <= k < segmentCount && k < segments.Length ==> segments[k] in Repr)
    }

    function Slot(i: nat): DirectoryRecord
      requires Shape() && Owned() && i < RECORDS_PER_SEGMENT * segmentCount
      reads this, Repr
    {
      segments[i / RECORDS_PER_SEGMENT][i % RECORDS_PER_SEGMENT]
    }

    ghost predicate Stores(records: seq<DirectoryRecord>)
      requires Shape() && Owned()
      reads this, Repr
    {
      && |records| <= RECORDS_PER_SEGMENT * segmentCount
      && forall i :: 0 <= i < |records| ==> Slot(i) == records[i]
    }

    ghost predicate Represents(store: Store<Block>)
      requires Shape() && Owned()
      reads this, Repr
    {
      && directoryCount == |store.records| && Stores(store.records)
      && completionCount == |store.journal| && journal[..completionCount] == store.journal
      && publishedCount == store.published && failedCount == store.failed && entryCount == store.entries
    }

    /** Stored blocks are validated blocks, and records name their child rows. */
    static ghost predicate BlockOk(fields: seq<nat>, stored: Stored<Block>) {
      && ValidFields(fields) && FitsLayout(stored.block, fields) && ValidBlock(stored.block, fields)
      && stored.count == stored.block.count
      && stored.childRows == ChildRows(stored.block, fields, stored.block.childCount)
    }

    static ghost predicate BlocksOk(fields: seq<nat>, store: Store<Block>) {
      forall id :: 0 <= id < |store.records| && store.records[id].stored.Some? ==>
        BlockOk(fields, store.records[id].stored.value)
    }

    /** Memory holds the abstract contents. */
    ghost predicate Consistent()
      reads this, Repr
    {
      this in Repr && segments in Repr && Shape() && Owned() && Represents(contents)
    }

    ghost predicate Valid()
      reads this, Repr
    {
      Consistent() && contents.Inv() && ValidFields(fields) && BlocksOk(fields, contents)
    }

    /** What walking the tree needs. */
    ghost predicate Readable()
      reads this, Repr
    {
      Consistent() && contents.TreeShape() && BlocksOk(fields, contents)
    }

    constructor (fields: seq<nat>, rootName: Buffer)
      requires ValidFields(fields)
      ensures Valid() && fresh(Repr) && contents == Store.New()
      ensures this.fields == fields && this.rootName == rootName
    {
      this.fields := fields;
      this.rootName := rootName;
      var segment := new DirectoryRecord[RECORDS_PER_SEGMENT](_ => EMPTY);
      segment[0] := Record(NO_ID, NO_ID, 0, Pending, None);
      var table := new array?<DirectoryRecord>[4](_ => null);
      table[0] := segment;
      var ids := new nat[1024](_ => 0);
      segments, segmentCount, journal := table, 1, ids;
      directoryCount, publishedCount, failedCount, completionCount, entryCount := 1, 0, 0, 0, 0;
      contents := Store.New();
      Repr := {this, table, ids, segment};
      new;
      assert Consistent() by {
        assert Shape() && Owned();
        assert Represents(contents) by { assert Slot(0) == contents.records[0]; }
      }
      NewIsSound(fields, contents);
    }

    /** Directories that are all pending hold no blocks. */
    static lemma NoBlocksYet(fields: seq<nat>, store: Store<Block>)
      requires forall id :: 0 <= id < |store.records| ==> store.records[id].stored.None?
      ensures BlocksOk(fields, store)
    {
    }

    static lemma NewIsSound(fields: seq<nat>, store: Store<Block>)
      requires store == Store.New()
      ensures store.Inv() && BlocksOk(fields, store)
    {
      NoBlocksYet(fields, store);
      store.NewInv();
    }

    // -- Growth -------------------------------------------------------------------------------

    /** The records beyond `i` are not affected by writing slot `i`. */
    method SetSlot(i: nat, record: DirectoryRecord)
      requires Shape() && Owned() && i < RECORDS_PER_SEGMENT * segmentCount
      modifies segments[i / RECORDS_PER_SEGMENT]
      ensures Shape() && Owned()
      ensures forall j :: 0 <= j < RECORDS_PER_SEGMENT * segmentCount ==> Slot(j) == if j == i then record else old(Slot(j))
    {
      var segment := segments[i / RECORDS_PER_SEGMENT];
      segment[i % RECORDS_PER_SEGMENT] := record;
    }

    /** A zeroed segment behind the last one. */
    method AddSegment()
      requires Consistent() && segmentCount < segments.Length
      modifies this, segments
      ensures Consistent() && fresh(Repr - old(Repr)) && contents == old(contents)
      ensures segmentCount == old(segmentCount) + 1 && segments == old(segments) && journal == old(journal)
    {
      var segment := new DirectoryRecord[RECORDS_PER_SEGMENT](_ => EMPTY);
      segments[segmentCount] := segment;
      segmentCount := segmentCount + 1;
      Repr := Repr + {segment};
      assert forall i :: 0 <= i < directoryCount ==> Slot(i) == old(Slot(i));
    }

    method GrowTable(capacity: nat)
      requires Consistent() && segments.Length <= capacity
      modifies this
      ensures Consistent() && fresh(Repr - old(Repr)) && contents == old(contents)
      ensures segmentCount == old(segmentCount) && segments.Length == capacity && journal == old(journal)
    {
      var before, count := segments, segmentCount;
      var table := new array?<DirectoryRecord>[capacity](_ => null);
      forall k | 0 <= k < count { table[k] := before[k]; }
      segments := table;
      Repr := Repr + {table};
      assert forall i :: 0 <= i < directoryCount ==> Slot(i) == old(Slot(i));
    }

    /** The table and its segments cover `required` records, unless that is too many or takes too many allocations. */
    method EnsureDirectories(required: nat, allocations: nat) returns (ok: bool, left: nat)
      requires Consistent()
      modifies Repr
      ensures Consistent() && fresh(Repr - old(Repr)) && contents == old(contents)
      ensures journal == old(journal)
      ensures ok == (required <= UINT32_MAX && old(DirectoryCost(required, segments.Length, segmentCount)) <= allocations)
      ensures ok ==> left == allocations - old(DirectoryCost(required, segments.Length, segmentCount))
      ensures ok ==> required <= RECORDS_PER_SEGMENT * segmentCount
    {
      left := allocations;
      if required > UINT32_MAX { return false, left; }
      var needed := SegmentsFor(required);
      if needed > segments.Length {
        if left == 0 { return false, left; }
        left := left - 1;
        GrowTable(Doubled(segments.Length, needed));
      }
      ghost var start := left;
      while segmentCount < needed
        invariant Consistent() && fresh(Repr - old(Repr)) && contents == old(contents) && journal == old(journal)
        invariant needed <= segments.Length && segmentCount >= old(segmentCount)
        invariant segmentCount <= needed || segmentCount == old(segmentCount)
        invariant left + segmentCount == start + old(segmentCount)
        decreases needed - segmentCount
      {
        if left == 0 { return false, left; }
        left := left - 1;
        AddSegment();
      }
      ok := true;
    }

    method EnsureCompletions(required: nat, allocations: nat) returns (ok: bool)
      requires Consistent()
      modifies this
      ensures Consistent() && fresh(Repr - old(Repr)) && contents == old(contents)
      ensures segments == old(segments) && segmentCount == old(segmentCount)
      ensures ok == (old(CompletionCost(required, journal.Length)) <= allocations) && (ok ==> required <= journal.Length)
    {
      if required <= journal.Length { return true; }
      if allocations == 0 { return false; }
      var before, count := journal, completionCount;
      var ids := new nat[Doubled(journal.Length, required)](_ => 0);
      forall i | 0 <= i < count { ids[i] := before[i]; }
      journal := ids;
      Repr := Repr + {ids};
      assert journal[..completionCount] == contents.journal;
      assert forall i :: 0 <= i < directoryCount ==> Slot(i) == old(Slot(i));
      ok := true;
    }

    /** The allocations that publishing a block with so many children takes. */
    ghost function PublishCost(children: nat): nat
      reads this
    {
      DirectoryCost(directoryCount + children, segments.Length, segmentCount) + CompletionCost(completionCount + 1, journal.Length)
    }

    /** Room for the children and for one more completion. Growth that stops half way is not taken back. */
    method EnsureCapacity(children: nat, allocations: nat) returns (ok: bool)
      requires Consistent()
      modifies Repr
      ensures Consistent() && fresh(Repr - old(Repr)) && contents == old(contents)
      ensures ok == (old(directoryCount) + children <= UINT32_MAX && old(PublishCost(children)) <= allocations)
      ensures ok ==> completionCount < journal.Length && directoryCount + children <= RECORDS_PER_SEGMENT * segmentCount
    {
      var left;
      ok, left := EnsureDirectories(directoryCount + children, allocations);
      if ok { ok := EnsureCompletions(completionCount + 1, left); }
    }

    // -- Terminal transitions -----------------------------------------------------------------

    method AppendCompletion(id: nat, ghost completed: seq<nat>)
      requires Shape() && Owned() && completionCount < journal.Length && journal[..completionCount] == completed
      modifies this`completionCount, journal
      ensures Shape() && Owned()
      ensures completionCount == old(completionCount) + 1 && journal[..completionCount] == completed + [id]
      ensures forall i :: 0 <= i < RECORDS_PER_SEGMENT * segmentCount ==> Slot(i) == old(Slot(i))
    {
      journal[completionCount] := id;
      completionCount := completionCount + 1;
      assert journal[..completionCount] == journal[..completionCount - 1] + [id];
    }

    /** Marks a pending directory as failed and journals it. */
    method RecordFailure(id: nat, errno: nat)
      requires Consistent() && contents.FailStatus(id, true) == Done && completionCount < journal.Length
      modifies this, journal, segments[id / RECORDS_PER_SEGMENT]
      ensures Consistent() && Repr == old(Repr) && contents == old(contents).Fail(id, errno, true)
    {
      ghost var next, completed := contents.Fail(id, errno, true), contents.journal;
      SetSlot(id, Slot(id).(errno := errno, state := State.Failed));
      AppendCompletion(id, completed);
      failedCount := failedCount + 1;
      contents := next;
      assert Stores(next.records);
    }

    /** `allocations` is how many allocations succeed before one fails. */
    method Fail(id: nat, errno: nat, allocations: nat) returns (status: Status)
      requires Valid()
      modifies Repr
      ensures Valid() && fresh(Repr - old(Repr))
      ensures var memory := old(CompletionCost(completionCount + 1, journal.Length)) <= allocations;
              status == old(contents).FailStatus(id, memory) && contents == old(contents).Fail(id, errno, memory)
    {
      if id >= directoryCount { return NotFound; }
      if Slot(id).state != Pending { return AlreadyCompleted; }
      var ok := EnsureCompletions(completionCount + 1, allocations);
      if !ok { return OutOfMemory; }
      FailedIsSound(fields, contents, id, errno);
      RecordFailure(id, errno);
      status := Done;
    }

    static lemma FailedIsSound(fields: seq<nat>, store: Store<Block>, id: nat, errno: nat)
      requires store.Inv() && BlocksOk(fields, store) && store.FailStatus(id, true) == Done
      ensures store.Fail(id, errno, true).Inv() && BlocksOk(fields, store.Fail(id, errno, true))
    {
      store.ApplyInv(FailStep(id, errno, true));
    }

    function StoredOf(id: nat, block: Block, first: nat): Stored<Block>
      requires FitsLayout(block, fields)
    {
      Stored(block, block.count, if block.childCount == 0 then NO_ID else first, ChildRows(block, fields, block.childCount))
    }

    /** The records of the reserved range, written one by one behind the last directory. */
    method ReserveChildren(id: nat, block: Block)
      requires Consistent() && FitsLayout(block, fields)
      requires directoryCount + block.childCount <= RECORDS_PER_SEGMENT * segmentCount
      modifies Repr - {this, segments, journal}
      ensures Shape() && Owned()
      ensures Stores(contents.records + Store<Block>.Children(id, ChildRows(block, fields, block.childCount)))
      ensures journal[..completionCount] == old(journal[..completionCount])
    {
      ghost var children := Store<Block>.Children(id, ChildRows(block, fields, block.childCount));
      for index := 0 to block.childCount
        invariant Shape() && Owned()
        invariant forall i :: 0 <= i < directoryCount + index ==> Slot(i) == (contents.records + children)[i]
        invariant journal[..completionCount] == old(journal[..completionCount])
      {
        SetSlot(directoryCount + index, Record(id, ChildRow(block, fields, index), 0, Pending, None));
      }
    }

    method InstallBlock(id: nat, stored: Stored<Block>, ghost all: seq<DirectoryRecord>)
      requires Shape() && Owned() && Stores(all) && id < |all|
      modifies segments[id / RECORDS_PER_SEGMENT]
      ensures Shape() && Owned() && Stores(all[id := all[id].(state := Published, stored := Some(stored))])
    {
      assert Slot(id) == all[id];
      SetSlot(id, Slot(id).(state := Published, stored := Some(stored)));
    }

    /** What publication makes of the store: the children behind the records, the block in place, one more completion. */
    static ghost predicate IsPublication(store: Store<Block>, id: nat, stored: Stored<Block>, next: Store<Block>) {
      && id < |store.records|
      && next.records == (store.records + Store<Block>.Children(id, stored.childRows))
                         [id := store.records[id].(state := Published, stored := Some(stored))]
      && next.journal == store.journal + [id] && next.published == store.published + 1
      && next.failed == store.failed && next.entries == store.entries + stored.count
    }

    /** Installs the block and journals the directory, once the children are written. */
    method RecordPublication(id: nat, stored: Stored<Block>, ghost next: Store<Block>)
      requires Shape() && Owned() && this in Repr && completionCount < journal.Length
      requires IsPublication(contents, id, stored, next)
      requires Stores(contents.records + Store<Block>.Children(id, stored.childRows))
      requires directoryCount == |contents.records| && journal[..completionCount] == contents.journal
      requires completionCount == |contents.journal| && publishedCount == contents.published
      requires failedCount == contents.failed && entryCount == contents.entries
      modifies this, journal, segments[id / RECORDS_PER_SEGMENT]
      ensures Consistent() && Repr == old(Repr) && contents == next
    {
      ghost var all, completed := contents.records + Store<Block>.Children(id, stored.childRows), contents.journal;
      InstallBlock(id, stored, all);
      AppendCompletion(id, completed);
      directoryCount := directoryCount + |stored.childRows|;
      publishedCount := publishedCount + 1;
      entryCount := entryCount + stored.count;
      contents := next;
    }

    static lemma PublishIsPublication(store: Store<Block>, id: nat, stored: Stored<Block>)
      requires store.PublishStatus(id, |stored.childRows|, true) == Done
      requires stored.firstChild == if stored.childRows == [] then NO_ID else |store.records|
      ensures IsPublication(store, id, stored, store.Publish(id, stored.block, stored.count, stored.childRows, true))
    {
    }

    method PublishLocked(id: nat, block: Block)
      requires Consistent() && FitsLayout(block, fields) && completionCount < journal.Length
      requires directoryCount + block.childCount <= RECORDS_PER_SEGMENT * segmentCount
      requires contents.PublishStatus(id, block.childCount, true) == Done
      modifies Repr
      ensures Consistent() && Repr == old(Repr)
      ensures contents == old(contents).Publish(id, block, block.count, ChildRows(block, fields, block.childCount), true)
    {
      var stored := StoredOf(id, block, directoryCount);
      ghost var next := contents.Publish(id, block, block.count, stored.childRows, true);
      PublishIsPublication(contents, id, stored);
      ReserveChildren(id, block);
      RecordPublication(id, stored, next);
    }

    /** Publishes a validated block under one lock; `firstChild` is the first ID of the reserved range. */
    method Publish(id: nat, block: Block, allocations: nat) returns (status: Status, firstChild: nat)
      requires Valid() && FitsLayout(block, fields) && ValidBlock(block, fields)
      modifies Repr
      ensures Valid() && fresh(Repr - old(Repr))
      ensures var rows, memory := ChildRows(block, fields, block.childCount), old(PublishCost(block.childCount)) <= allocations;
              && status == old(contents).PublishStatus(id, |rows|, memory)
              && contents == old(contents).Publish(id, block, block.count, rows, memory)
      ensures status == Done ==> firstChild == |old(contents).records|
    {
      firstChild := 0;
      if id >= directoryCount { return NotFound, firstChild; }
      if Slot(id).state != Pending { return AlreadyCompleted, firstChild; }
      var ok := EnsureCapacity(block.childCount, allocations);
      if !ok { return OutOfMemory, firstChild; }
      PublishedIsSound(fields, contents, id, block);
      firstChild := directoryCount;
      PublishLocked(id, block);
      status := Done;
    }

    static lemma PublishedIsSound(fields: seq<nat>, store: Store<Block>, id: nat, block: Block)
      requires store.Inv() && BlocksOk(fields, store) && ValidFields(fields)
      requires FitsLayout(block, fields) && ValidBlock(block, fields)
      requires store.PublishStatus(id, block.childCount, true) == Done
      ensures var next := store.Publish(id, block, block.count, ChildRows(block, fields, block.childCount), true);
              next.Inv() && BlocksOk(fields, next)
    {
      var rows := ChildRows(block, fields, block.childCount);
      ValidRowsAreDistinct(StoredBatch(block, fields), fields, rows);
      PublishedBlocks(fields, store, id, Stored(block, block.count, if rows == [] then NO_ID else |store.records|, rows));
      store.ApplyInv(PublishStep(id, block, block.count, rows, true));
    }

    static lemma PublishedBlocks(fields: seq<nat>, store: Store<Block>, id: nat, stored: Stored<Block>)
      requires BlocksOk(fields, store) && BlockOk(fields, stored) && store.PublishStatus(id, |stored.childRows|, true) == Done
      requires stored.firstChild == if stored.childRows == [] then NO_ID else |store.records|
      ensures BlocksOk(fields, store.Publish(id, stored.block, stored.count, stored.childRows, true))
    {
    }

    static lemma ValidRowsAreDistinct(batch: Batch, fields: seq<nat>, rows: seq<nat>)
      requires HasFields(batch, fields) && ValidChildren(batch, fields, rows)
      ensures ValidChildRows(batch.count, rows)
    {
    }

    // -- Readers --------------------------------------------------------------------------------

    /** First critical section of a journal read. */
    method CountCompleted(cursor: nat, limit: nat) returns (available: Option<nat>)
      requires Consistent()
      ensures available == contents.Available(cursor, limit)
    {
      if cursor > completionCount { return None; }
      available := Some(if completionCount - cursor < limit then completionCount - cursor else limit);
    }

    /** Second critical section, on whatever journal is there by then; an empty page needs no memory. */
    method CopyCompleted(cursor: nat, n: nat, memory: bool) returns (ids: Option<seq<nat>>)
      requires Consistent() && cursor + n <= |contents.journal|
      ensures ids == if n == 0 || memory then Some(contents.Copy(cursor, n)) else None
    {
      if n == 0 {
        ids := Some([]);
        assert contents.Copy(cursor, n) == [];
        return;
      }
      if !memory { return None; }
      ids := Some(journal[..completionCount][cursor..cursor + n]);
    }

    /** The name that the parent's block gives a directory. */
    static ghost function NameReading(fields: seq<nat>, store: Store<Block>, id: nat): Reading
      requires store.TreeShape() && BlocksOk(fields, store) && 0 < id < |store.records|
    {
      assert store.Linked(id) && store.ValidRecord(store.records[id].parent);
      Value(StoredBatch(store.records[store.records[id].parent].stored.value.block, fields), NAME, store.records[id].row)
    }

    static lemma ParentHoldsRow(fields: seq<nat>, store: Store<Block>, id: nat)
      requires store.TreeShape() && BlocksOk(fields, store) && 0 < id < |store.records|
      ensures var record := store.records[id];
              && record.parent < id && store.records[record.parent].stored.Some?
              && BlockOk(fields, store.records[record.parent].stored.value)
              && record.row in store.records[record.parent].stored.value.childRows
    {
      assert store.Linked(id);
      var parent := store.records[store.records[id].parent].stored.value;
      assert store.records[id].row == parent.childRows[id - parent.firstChild];
    }

    static lemma ChildRowHasName(fields: seq<nat>, stored: Stored<Block>, row: nat)
      requires BlockOk(fields, stored) && row in stored.childRows
      ensures row < stored.block.count
      ensures var name := Value(StoredBatch(stored.block, fields), NAME, row); name.Present? && ValidComponent(name.bytes)
    {
      ValidChildHasName(StoredBatch(stored.block, fields), fields, row);
    }

    /** Every directory but the root has an in-bounds name that is one path component. */
    static lemma NameIsComponent(fields: seq<nat>, store: Store<Block>, id: nat)
      requires store.TreeShape() && BlocksOk(fields, store) && 0 < id < |store.records|
      ensures var name := NameReading(fields, store, id); name.Present? && ValidComponent(name.bytes)
    {
      ParentHoldsRow(fields, store, id);
      ChildRowHasName(fields, store.records[store.records[id].parent].stored.value, store.records[id].row);
    }

    /** The names from a directory up to the root. */
    static ghost function NamesUp(fields: seq<nat>, store: Store<Block>, id: nat): seq<Buffer>
      requires store.TreeShape() && BlocksOk(fields, store) && id < |store.records|
      decreases id
    {
      if id == ROOT then []
      else
        NameIsComponent(fields, store, id);
        assert store.Linked(id);
        [NameReading(fields, store, id).bytes] + NamesUp(fields, store, store.records[id].parent)
    }

    static lemma {:induction false} NamesUpBounded(fields: seq<nat>, store: Store<Block>, id: nat)
      requires store.TreeShape() && BlocksOk(fields, store) && id < |store.records|
      ensures |NamesUp(fields, store, id)| == |store.Path(id)| <= id
      decreases id
    {
      if id != ROOT {
        assert store.Linked(id);
        NamesUpBounded(fields, store, store.records[id].parent);
      }
    }

    /**
      The bytes are the name of a row in the block of the directory at `path`: a valid path component, neither empty nor
      with a slash or NUL, nor `.` or `..`.
     */
    static ghost predicate IsNameAt(fields: seq<nat>, store: Store<Block>, path: seq<nat>, row: nat, name: Buffer) {
      && store.TreeShape() && BlocksOk(fields, store)
      && name != [] && 0x2F !in name && 0 !in name && name != [0x2E] && name != [0x2E, 0x2E]
      && exists above: nat :: above < |store.records| && store.Path(above) == path && HasNameAt(fields, store, above, row, name)
    }

    static ghost predicate HasNameAt(fields: seq<nat>, store: Store<Block>, above: nat, row: nat, name: Buffer)
      requires BlocksOk(fields, store) && above < |store.records|
    {
      && store.records[above].stored.Some?
      && var batch := StoredBatch(store.records[above].stored.value.block, fields);
         row < batch.count && Value(batch, 1, row) == Present(name)
    }

    /** The names of the rows along a path, deepest first. */
    static predicate AllAlong(path: seq<nat>, names: seq<Buffer>, isName: (seq<nat>, nat, Buffer) -> bool) {
      |names| == |path|
      && forall i: nat :: i < |names| ==> isName(path[..|path| - 1 - i], path[|path| - 1 - i], names[i])
    }

    /** Paths tell directories apart, so the name is in the block of this one. */
    static lemma NameIsInTheBlock(fields: seq<nat>, store: Store<Block>, above: nat, row: nat, name: Buffer)
      requires store.TreeShape() && above < |store.records| && IsNameAt(fields, store, store.Path(above), row, name)
      ensures BlocksOk(fields, store) && store.records[above].stored.Some?
      ensures var batch := StoredBatch(store.records[above].stored.value.block, fields);
              row < batch.count && HasColumn(batch, 1) && Value(batch, 1, row) == Present(name)
    {
      var other: nat :|
        other < |store.records| && store.Path(other) == store.Path(above) && HasNameAt(fields, store, other, row, name);
      store.PathIsInjective(other, above);
    }

    static ghost function NameTest(fields: seq<nat>, store: Store<Block>): (seq<nat>, nat, Buffer) -> bool {
      (path: seq<nat>, row: nat, name: Buffer) => IsNameAt(fields, store, path, row, name)
    }

    static ghost predicate AreNamesAlong(fields: seq<nat>, store: Store<Block>, path: seq<nat>, names: seq<Buffer>) {
      AllAlong(path, names, NameTest(fields, store))
    }

    static lemma OneMoreAlong(path: seq<nat>, row: nat, name: Buffer, names: seq<Buffer>, isName: (seq<nat>, nat, Buffer) -> bool)
      requires AllAlong(path, names, isName) && isName(path, row, name)
      ensures AllAlong(path + [row], [name] + names, isName)
    {
      var longer, all := path + [row], [name] + names;
      forall i: nat | i < |all| ensures isName(longer[..|longer| - 1 - i], longer[|longer| - 1 - i], all[i]) {
        if i > 0 {
          assert longer[..|longer| - 1 - i] == path[..|path| - 1 - (i - 1)] && all[i] == names[i - 1];
        } else {
          assert longer[..|path|] == path;
        }
      }
    }

    static lemma NameIsAtItsRow(fields: seq<nat>, store: Store<Block>, id: nat)
      requires store.TreeShape() && BlocksOk(fields, store) && 0 < id < |store.records|
      ensures store.records[id].parent < id && NameReading(fields, store, id).Present?
      ensures IsNameAt(fields, store, store.Path(store.records[id].parent), store.records[id].row, NameReading(fields, store, id).bytes)
    {
      NameIsComponent(fields, store, id);
      ParentHoldsRow(fields, store, id);
      ChildRowHasName(fields, store.records[store.records[id].parent].stored.value, store.records[id].row);
    }

    static lemma NamesUpStep(fields: seq<nat>, store: Store<Block>, id: nat)
      requires store.TreeShape() && BlocksOk(fields, store) && 0 < id < |store.records|
      ensures var above := store.records[id].parent;
              && above < id && store.Path(id) == store.Path(above) + [store.records[id].row]
              && NameReading(fields, store, id).Present?
              && NamesUp(fields, store, id) == [NameReading(fields, store, id).bytes] + NamesUp(fields, store, above)
    {
      NameIsComponent(fields, store, id);
      assert store.Linked(id);
    }

    /** The component at each depth is the name of the row that the path takes there. */
    static lemma {:induction false} NamesAreAlongThePath(fields: seq<nat>, store: Store<Block>, id: nat)
      requires store.TreeShape() && BlocksOk(fields, store) && id < |store.records|
      ensures AreNamesAlong(fields, store, store.Path(id), NamesUp(fields, store, id))
      decreases id
    {
      if id != ROOT {
        NamesUpStep(fields, store, id);
        NamesAreAlongThePath(fields, store, store.records[id].parent);
        NameIsAtItsRow(fields, store, id);
        var above := store.records[id].parent;
        OneMoreAlong(store.Path(above), store.records[id].row, NameReading(fields, store, id).bytes,
                     NamesUp(fields, store, above), NameTest(fields, store));
      }
    }

    /** One step of the walk, as the code checks it. */
    method ParentOf(id: nat) returns (parent: Option<nat>)
      requires Readable() && 0 < id < |contents.records|
      ensures parent == Some(contents.records[id].parent) && parent.value < id
      ensures |NamesUp(fields, contents, id)| == 1 + |NamesUp(fields, contents, parent.value)|
    {
      ParentHoldsRow(fields, contents, id);
      var record := Slot(id);
      parent := if record.parent == NO_ID || record.parent >= id then None else Some(record.parent);
    }

    /** First walk: how many components lead to a directory, or nothing if the tree is broken. */
    method CountComponents(id: nat) returns (count: Option<nat>)
      requires Readable() && id < |contents.records|
      ensures count == Some(|NamesUp(fields, contents, id)|)
    {
      var current: nat, n: nat := id, 0;
      NamesUpBounded(fields, contents, id);
      while current != ROOT
        invariant current < |contents.records| && n + |NamesUp(fields, contents, current)| == |NamesUp(fields, contents, id)|
        decreases current
      {
        var parent := ParentOf(current);
        if parent.None? || n + 1 > directoryCount { return None; }
        n := n + 1;
        current := parent.value;
      }
      count := Some(n);
    }

    method NameAndParent(id: nat) returns (name: Option<Buffer>, parent: nat)
      requires Readable() && 0 < id < |contents.records|
      ensures name.Some? && parent == contents.records[id].parent < id
      ensures NamesUp(fields, contents, id) == [name.value] + NamesUp(fields, contents, parent)
      ensures parent < |contents.records|
    {
      ParentHoldsRow(fields, contents, id);
      name := NameOf(id);
      parent := Slot(id).parent;
    }

    static lemma WalkStep(whole: seq<Buffer>, n: nat, name: Buffer, rest: seq<Buffer>)
      requires n <= |whole| && whole[n..] == [name] + rest
      ensures n < |whole| && rest == whole[n + 1..] && whole[..n] + [name] == whole[..n + 1]
    {
      assert whole[n..][0] == name && whole[n..][1..] == rest;
    }

    /** Second walk: the component names, deepest first. */
    method CollectComponents(id: nat, count: nat) returns (names: Option<seq<Buffer>>)
      requires Readable() && id < |contents.records| && count == |NamesUp(fields, contents, id)|
      ensures names == Some(NamesUp(fields, contents, id))
    {
      var current: nat, collected: seq<Buffer> := id, [];
      ghost var whole := NamesUp(fields, contents, id);
      ghost var rest := whole;
      while current != ROOT
        invariant current < |contents.records| && rest == NamesUp(fields, contents, current)
        invariant |collected| <= |whole| && collected == whole[..|collected|] && rest == whole[|collected|..]
        decreases current
      {
        var name, parent := NameAndParent(current);
        rest := NamesUp(fields, contents, parent);
        WalkStep(whole, |collected|, name.value, rest);
        if name.None? || |collected| >= count { return None; }
        collected := collected + [name.value];
        current := parent;
      }
      assert |rest| == 0 && collected == whole;
      names := Some(collected);
    }

    /**
      The walk never meets a broken tree: as long as the root is open and there is memory, a known directory always has
      its component names. `rootError` is why the root could not be opened, or is open no more.
     */
    method ComponentsOf(id: nat, rootError: Option<nat>, memory: bool) returns (result: Components)
      requires Valid()
      ensures result == if id >= |contents.records| then UnknownDirectory
                        else if rootError.Some? then RootUnavailable(rootError.value)
                        else if id != ROOT && !memory then NoRoom
                        else Names(NamesUp(fields, contents, id))
      ensures result.Names? ==> id < |contents.records| && AreNamesAlong(fields, contents, contents.Path(id), result.names)
    {
      if id >= directoryCount { return UnknownDirectory; }
      if rootError.Some? { return RootUnavailable(rootError.value); }
      var count := CountComponents(id);
      if count.None? { return BrokenTree; }
      if count.value > 0 && !memory { return NoRoom; }
      var names := CollectComponents(id, count.value);
      result := if names.Some? then Names(names.value) else BrokenTree;
      NamesAreAlongThePath(fields, contents, id);
    }

    static function ChildPairs(stored: Stored<Block>): (pairs: seq<(nat, nat)>)
      ensures |pairs| == |stored.childRows|
      ensures forall i :: 0 <= i < |pairs| ==> pairs[i] == (stored.childRows[i], stored.firstChild + i)
    {
      seq(|stored.childRows|, i requires 0 <= i < |stored.childRows| => (stored.childRows[i], stored.firstChild + i))
    }

    /** What a record, its parent and its name tell of a directory. */
    static function NodeFrom(fields: seq<nat>, record: DirectoryRecord, parent: Option<nat>, name: Buffer): Fetched
      requires record.stored.Some? ==> FitsLayout(record.stored.value.block, fields)
    {
      Found(record.state, parent, name,
            if record.stored.None? then None else Some(StoredBatch(record.stored.value.block, fields)),
            if record.stored.None? then [] else ChildPairs(record.stored.value),
            if record.state == State.Failed then Some(record.errno) else None)
    }

    /** What the store knows of a directory. */
    static ghost function NodeOf(fields: seq<nat>, rootName: Buffer, store: Store<Block>, id: nat): Fetched
      requires store.TreeShape() && BlocksOk(fields, store)
    {
      if id >= |store.records| then Missing
      else if id == ROOT then NodeFrom(fields, store.records[id], None, rootName)
      else
        NameIsComponent(fields, store, id);
        NodeFrom(fields, store.records[id], Some(store.records[id].parent), NameReading(fields, store, id).bytes)
    }

    method NameOf(id: nat) returns (name: Option<Buffer>)
      requires Readable() && 0 < id < |contents.records|
      ensures NameReading(fields, contents, id).Present? && name == Some(NameReading(fields, contents, id).bytes)
    {
      ParentHoldsRow(fields, contents, id);
      NameIsComponent(fields, contents, id);
      var record := Slot(id);
      if record.parent >= directoryCount { return None; }
      var above := Slot(record.parent);
      if above.stored.None? { return None; }
      var reading := Value(StoredBatch(above.stored.value.block, fields), NAME, record.row);
      name := if reading.Present? then Some(reading.bytes) else None;
    }

    /** What a fetch tells of a directory: its record, its rows and children once published, its error once failed, and its name. */
    static ghost predicate Tells(fields: seq<nat>, rootName: Buffer, store: Store<Block>, id: nat, node: Fetched)
      requires store.TreeShape() && id < |store.records|
    {
      var record := store.records[id];
      && node.Found? && node.state == record.state
      && node.parent == (if id == 0 then None else Some(record.parent))
      && node.error == (if record.state == State.Failed then Some(record.errno) else None)
      && (record.state != Published ==> node.entries == None && node.children == [])
      && (record.state == Published ==>
            && record.stored.Some? && FitsLayout(record.stored.value.block, fields)
            && node.entries == Some(StoredBatch(record.stored.value.block, fields))
            && node.children == ChildPairs(record.stored.value))
      && (if id == 0 then node.name == rootName
          else record.parent < id && IsNameAt(fields, store, store.Path(record.parent), record.row, node.name))
    }

    /** A directory is told of by its own record and by the name of its own row. */
    static lemma NodeTells(fields: seq<nat>, rootName: Buffer, store: Store<Block>, id: nat)
      requires store.TreeShape() && BlocksOk(fields, store) && id < |store.records|
      ensures Tells(fields, rootName, store, id, NodeOf(fields, rootName, store, id))
    {
      if id != ROOT { NameIsAtItsRow(fields, store, id); }
      assert store.ValidRecord(id);
    }

    /** So is every known directory, but for a published one when there is no memory for its batch. */
    static lemma FetchTells(fields: seq<nat>, rootName: Buffer, store: Store<Block>, id: nat, memory: bool)
      requires store.TreeShape() && BlocksOk(fields, store)
      ensures id >= |store.records| ==> FetchedWith(memory, NodeOf(fields, rootName, store, id)) == Missing
      ensures id < |store.records| && store.records[id].state == Published && !memory ==>
                FetchedWith(memory, NodeOf(fields, rootName, store, id)) == NoMemory
      ensures id < |store.records| && (store.records[id].state != Published || memory) ==>
                Tells(fields, rootName, store, id, FetchedWith(memory, NodeOf(fields, rootName, store, id)))
    {
      if id < |store.records| { NodeTells(fields, rootName, store, id); }
    }

    /** Only a batch handed out needs memory. */
    static function FetchedWith(memory: bool, node: Fetched): Fetched {
      if node.Found? && node.entries.Some? && !memory then NoMemory else node
    }

    /** A directory as the store hands it out; the tree is never found broken. */
    method Fetch(id: nat, memory: bool) returns (result: Fetched)
      requires Readable()
      ensures result == FetchedWith(memory, NodeOf(fields, rootName, contents, id)) && !result.InvalidTree?
    {
      if id >= directoryCount { return Missing; }
      var record, name := Slot(id), Some(rootName);
      if id != ROOT { name := NameOf(id); }
      if name.None? { return InvalidTree; }
      assert contents.ValidRecord(id);
      var parent := if record.parent == NO_ID then None else Some(record.parent);
      ParentIsAbsentAtRoot(contents, id);
      result := Describe(fields, record, parent, name.value, memory);
    }

    /** The part of a fetch outside the lock. */
    static method Describe(fields: seq<nat>, record: DirectoryRecord, parent: Option<nat>, name: Buffer, memory: bool)
      returns (result: Fetched)
      requires record.state == Published <==> record.stored.Some?
      requires record.stored.Some? ==> FitsLayout(record.stored.value.block, fields)
      ensures result == FetchedWith(memory, NodeFrom(fields, record, parent, name)) && !result.InvalidTree?
    {
      var error := if record.state == State.Failed then Some(record.errno) else None;
      if record.state != Published {
        return if record.stored.Some? then InvalidTree else Found(record.state, parent, name, None, [], error);
      }
      if record.stored.None? { return InvalidTree; }
      if !memory { return NoMemory; }
      var stored := record.stored.value;
      result := Found(record.state, parent, name, Some(StoredBatch(stored.block, fields)), ChildPairs(stored), error);
    }

    static lemma ParentIsAbsentAtRoot(store: Store<Block>, id: nat)
      requires store.TreeShape() && id < |store.records|
      ensures store.records[id].parent == NO_ID <==> id == ROOT
    {
      if id != ROOT { assert store.Linked(id); }
    }

    /** The children that a fetch lists are the directories that name this one as their parent, each at its row. */
    static lemma FetchedChildrenLinkBack(store: Store<Block>, id: nat, child: nat, row: nat)
      requires store.TreeShape() && id < |store.records| && store.records[id].stored.Some? && 0 < child < |store.records|
      ensures (row, child) in ChildPairs(store.records[id].stored.value)
              <==> store.records[child].parent == id && store.records[child].row == row
    {
      var stored := store.records[id].stored.value;
      assert store.ValidRecord(id) && store.Linked(child);
      if store.records[child].parent == id && store.records[child].row == row {
        assert ChildPairs(stored)[child - stored.firstChild] == (row, child);
      }
    }

    /** Directories not finished yet; the unsigned subtraction never wraps. */
    method PendingCount() returns (pending: nat)
      requires Valid()
      ensures pending == |contents.InState(Pending)|
    {
      PendingIsTheRest(contents);
      pending := directoryCount - publishedCount - failedCount;
    }

    static lemma PendingIsTheRest(store: Store<Block>)
      requires store.Inv()
      ensures |store.InState(Pending)| + store.published + store.failed == |store.records|
    {
      var pending, published, failed := store.InState(Pending), store.InState(Published), store.InState(State.Failed);
      assert pending !! published && pending + published !! failed;
      assert |pending + published + failed| == |pending| + |published| + |failed|;
      CountBelow(pending + published + failed, |store.records|);
    }
  }
}
