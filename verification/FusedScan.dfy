/** The fused native call: bulk reads become native batches, walked and counted one by one, then one packed block. */
module FusedScans {
  import opened BlockBuilder
  import opened Blocks
  import opened Bytes
  import opened DirectoryScans
  import opened Entries
  import opened Options
  import opened RecordWalks
  import opened ScanBuilder
  import opened StoreModel
  import opened Words
  import Scan

  /**
    One bulk call: a filled buffer with so many records; whether memory is found for their columns, and afterwards for
    the copy of the buffer and the counts. No records end the scan.
   */
  datatype Fill = Records(buffer: Buffer, count: nat, columnMemory: bool, copyMemory: bool) | CallFailed(errno: nat)

  datatype ScanStatus = Scanned | SystemError(errno: nat) | InvalidRecord | NoRoomLeft | InvalidArgument

  // -- What a scan hands over ---------------------------------------------------------------------------

  ghost predicate AllWalked(batches: seq<Batch>, cursor: Cursor, fills: seq<Fill>) {
    |batches| <= |fills| && forall k :: 0 <= k < |batches| ==> IsWalked(batches[k], cursor, fills[k])
  }

  /** A batch with a column for every requested field, whose rows hold the cells of the records in the buffer. */
  ghost predicate IsWalked(batch: Batch, cursor: Cursor, fill: Fill) {
    && fill.Records? && fill.count > 0 && batch.count == fill.count
    && HasColumns(batch, cursor) && Walked(batch, cursor, fill.buffer, batch.count) && ReadsAll(batch, cursor, fill.buffer)
  }

  /** Each row reads as the entry that the direct decoder makes of its record. */
  ghost predicate ReadsAll(batch: Batch, cursor: Cursor, buffer: Buffer)
    requires HasColumns(batch, cursor)
  {
    && AllDecode(cursor, buffer, batch.count)
    && forall i: nat :: i < batch.count ==>
         RowReads(batch, cursor, i, EntryAt(cursor, buffer, i).value, HasSmallError(buffer, i))
  }

  predicate AllCounted(batches: seq<Batch>, policy: Scan.MountPolicy) {
    forall k :: 0 <= k < |batches| ==> CanAnalyze(batches[k], policy)
  }

  /** The rows of all batches, one after the other, as the scan counts them. */
  function ScannedRows(batches: seq<Batch>, policy: Scan.MountPolicy): (rows: seq<Scan.Row>)
    requires AllCounted(batches, policy)
    ensures |rows| == Rows(batches)
  {
    if batches == [] then []
    else ScannedRows(Init(batches), policy) + RowsOf(Last(batches), policy, Last(batches).count)
  }

  /** Nothing was lost on the way from the buffers to the scan. */
  ghost predicate IsScanOf(scan: ScanResult, cursor: Cursor, policy: Scan.MountPolicy, fills: seq<Fill>) {
    && AllWalked(scan.batches, cursor, fills) && AllCounted(scan.batches, policy)
    && scan.entries == Rows(scan.batches)
    && scan.children == Scan.CountRows(ScannedRows(scan.batches, policy), policy).children
  }

  predicate CanScan(cursor: Cursor, policy: Scan.MountPolicy) {
    TYPE in cursor.requested && (policy.StayOnFilesystem? ==> MOUNT_STATUS in cursor.requested)
  }

  lemma WalkedCanBeCounted(batch: Batch, cursor: Cursor, policy: Scan.MountPolicy)
    requires Consistent(cursor) && CanScan(cursor, policy) && HasColumns(batch, cursor)
    ensures CanAnalyze(batch, policy)
  {
  }

  lemma HoldsOfMore<T>(items: seq<T>, item: T, p: (T, nat) -> bool)
    requires (forall k: nat :: k < |items| ==> p(items[k], k)) && p(item, |items|)
    ensures forall k: nat :: k < |items| + 1 ==> p((items + [item])[k], k)
  {
  }

  lemma OneMoreWalked(batches: seq<Batch>, batch: Batch, cursor: Cursor, fills: seq<Fill>)
    requires AllWalked(batches, cursor, fills) && |batches| < |fills| && IsWalked(batch, cursor, fills[|batches|])
    ensures AllWalked(batches + [batch], cursor, fills)
  {
    ghost var p := (b: Batch, k: nat) => k < |fills| && IsWalked(b, cursor, fills[k]);
    HoldsOfMore(batches, batch, p);
    assert forall k: nat :: k < |batches| + 1 ==> p((batches + [batch])[k], k);
  }

  lemma OneMoreCounted(batches: seq<Batch>, batch: Batch, policy: Scan.MountPolicy)
    requires AllCounted(batches, policy) && CanAnalyze(batch, policy)
    ensures AllCounted(batches + [batch], policy) && Rows(batches + [batch]) == Rows(batches) + batch.count
    ensures ScannedRows(batches + [batch], policy) == ScannedRows(batches, policy) + RowsOf(batch, policy, batch.count)
  {
    assert Init(batches + [batch]) == batches && Last(batches + [batch]) == batch;
  }

  /** What becomes of one fill, when so many entries were counted before. */
  function FillStatus(cursor: Cursor, fill: Fill, entries: nat): ScanStatus
    requires fill.Records?
  {
    if fill.count > |fill.buffer| / MINIMUM_RECORD then InvalidRecord
    else if !fill.columnMemory then NoRoomLeft
    else if !AllDecode(cursor, fill.buffer, fill.count) then InvalidRecord
    else if !fill.copyMemory || entries + fill.count > UINT32_MAX then NoRoomLeft
    else Scanned
  }

  predicate EndsScan(fills: seq<Fill>, k: nat)
    requires k <= |fills|
  {
    k == |fills| || (fills[k].Records? && fills[k].count == 0)
  }

  /** The first fill that goes wrong decides; otherwise the scan ends with the first that has no records. */
  function StatusFrom(cursor: Cursor, fills: seq<Fill>, k: nat, entries: nat): ScanStatus
    requires k <= |fills|
    decreases |fills| - k
  {
    if EndsScan(fills, k) then Scanned
    else if fills[k].CallFailed? then SystemError(fills[k].errno)
    else if FillStatus(cursor, fills[k], entries) != Scanned then FillStatus(cursor, fills[k], entries)
    else StatusFrom(cursor, fills, k + 1, entries + fills[k].count)
  }

  /** One fill: a batch that is walked and then counted, or the status that ends the scan. */
  method ScanFill(cursor: Cursor, fill: Fill, counts: DirectoryScan) returns (status: ScanStatus, batch: Batch)
    requires Consistent(cursor) && CanScan(cursor, counts.policy) && counts.Valid()
    requires fill.Records? && fill.count > 0 && |fill.buffer| < UINT32
    modifies counts
    ensures status == FillStatus(cursor, fill, old(counts.entries))
    ensures status == Scanned ==>
              && IsWalked(batch, cursor, fill) && CanAnalyze(batch, counts.policy) && counts.Valid()
              && counts.rows == old(counts.rows) + RowsOf(batch, counts.policy, batch.count)
              && counts.entries == old(counts.entries) + batch.count
  {
    batch := Batch(0, [], map[], map[]);
    if fill.count > |fill.buffer| / MINIMUM_RECORD { return InvalidRecord, batch; }
    if !fill.columnMemory { return NoRoomLeft, batch; }
    var walked := Walk(cursor, fill.buffer, fill.count);
    if walked.None? { return InvalidRecord, batch; }
    if !fill.copyMemory { return NoRoomLeft, batch; }
    batch := walked.value;
    WalkedCanBeCounted(batch, cursor, counts.policy);
    var ok := counts.Analyze(batch);
    status := if ok then Scanned else NoRoomLeft;
  }

  function StatusOf(cursor: Cursor, fills: seq<Fill>): ScanStatus {
    StatusFrom(cursor, fills, 0, 0)
  }

  /** The first `k` fills, with so many entries, have not decided yet. */
  ghost predicate Undecided(cursor: Cursor, fills: seq<Fill>, k: nat, entries: nat)
    requires k <= |fills|
  {
    StatusFrom(cursor, fills, k, entries) == StatusOf(cursor, fills)
  }

  lemma NextDecides(cursor: Cursor, fills: seq<Fill>, k: nat, entries: nat)
    requires k <= |fills| && Undecided(cursor, fills, k, entries)
    ensures !EndsScan(fills, k) && fills[k].CallFailed? ==> StatusOf(cursor, fills) == SystemError(fills[k].errno)
    ensures !EndsScan(fills, k) && fills[k].Records? ==>
              var status := FillStatus(cursor, fills[k], entries);
              if status == Scanned then Undecided(cursor, fills, k + 1, entries + fills[k].count)
              else StatusOf(cursor, fills) == status
  {
  }

  lemma EndDecides(cursor: Cursor, fills: seq<Fill>, k: nat, entries: nat)
    requires k <= |fills| && Undecided(cursor, fills, k, entries) && EndsScan(fills, k)
    ensures StatusOf(cursor, fills) == Scanned
  {
  }

  /** What has been scanned so far. */
  ghost predicate ScannedSoFar(batches: seq<Batch>, counts: DirectoryScan, cursor: Cursor, fills: seq<Fill>)
    reads counts
  {
    && counts.Valid() && AllWalked(batches, cursor, fills) && AllCounted(batches, counts.policy)
    && counts.rows == ScannedRows(batches, counts.policy) && counts.entries == Rows(batches)
  }

  /** The records of a fill, behind the batches so far. */
  method AddFill(cursor: Cursor, fills: seq<Fill>, batches: seq<Batch>, counts: DirectoryScan)
    returns (status: ScanStatus, more: seq<Batch>)
    requires Consistent(cursor) && CanScan(cursor, counts.policy) && ScannedSoFar(batches, counts, cursor, fills)
    requires |batches| < |fills| && !EndsScan(fills, |batches|)
    requires fills[|batches|].Records? && |fills[|batches|].buffer| < UINT32
    modifies counts
    ensures status == FillStatus(cursor, fills[|batches|], Rows(batches))
    ensures status == Scanned ==>
              && |more| == |batches| + 1 && ScannedSoFar(more, counts, cursor, fills)
              && Rows(more) == Rows(batches) + fills[|batches|].count
  {
    more := batches;
    var batch;
    status, batch := ScanFill(cursor, fills[|batches|], counts);
    if status == Scanned {
      OneMoreWalked(batches, batch, cursor, fills);
      OneMoreCounted(batches, batch, counts.policy);
      more := batches + [batch];
    }
  }

  /** The next bulk call. */
  method ScanNext(cursor: Cursor, fills: seq<Fill>, batches: seq<Batch>, counts: DirectoryScan)
    returns (status: ScanStatus, more: seq<Batch>)
    requires Consistent(cursor) && CanScan(cursor, counts.policy) && ScannedSoFar(batches, counts, cursor, fills)
    requires |batches| < |fills| && !EndsScan(fills, |batches|) && Undecided(cursor, fills, |batches|, Rows(batches))
    requires fills[|batches|].Records? ==> |fills[|batches|].buffer| < UINT32
    modifies counts
    ensures status != Scanned ==> StatusOf(cursor, fills) == status
    ensures status == Scanned ==>
              && |more| == |batches| + 1 && ScannedSoFar(more, counts, cursor, fills)
              && Undecided(cursor, fills, |more|, Rows(more))
  {
    NextDecides(cursor, fills, |batches|, Rows(batches));
    if fills[|batches|].CallFailed? { return SystemError(fills[|batches|].errno), batches; }
    status, more := AddFill(cursor, fills, batches, counts);
  }

  /** The scan of one directory: bulk calls until one returns no records. */
  method ScanDirectory(cursor: Cursor, fields: seq<nat>, policy: Scan.MountPolicy, fills: seq<Fill>)
    returns (status: ScanStatus, scan: ScanResult, counts: DirectoryScan)
    requires Consistent(cursor) && cursor.requested == set field | field in fields
    requires forall k :: 0 <= k < |fills| && fills[k].Records? ==> |fills[k].buffer| < UINT32
    ensures status == if CanScan(cursor, policy) then StatusOf(cursor, fills) else InvalidArgument
    ensures status == Scanned ==>
              && |scan.batches| <= |fills| && EndsScan(fills, |scan.batches|) && scan.fields == fields
              && IsScanOf(scan, cursor, policy, fills)
              && counts.Valid() && counts.rows == ScannedRows(scan.batches, policy) && counts.children == scan.children
  {
    counts := new DirectoryScan(policy);
    scan := ScanResult(fields, 0, [], []);
    if !CanScan(cursor, policy) { return InvalidArgument, scan, counts; }
    var batches: seq<Batch> := [];
    while |batches| < |fills| && !EndsScan(fills, |batches|)
      invariant fresh(counts) && counts.policy == policy && ScannedSoFar(batches, counts, cursor, fills)
      invariant Undecided(cursor, fills, |batches|, Rows(batches))
      decreases |fills| - |batches|
    {
      var more;
      status, more := ScanNext(cursor, fills, batches, counts);
      if status != Scanned { return; }
      batches := more;
    }
    EndDecides(cursor, fills, |batches|, Rows(batches));
    status := Scanned;
    scan := ScanResult(fields, counts.entries, batches, counts.children);
  }

  /** A scan's rows keep what conservation relies on: a row with an error has no type. */
  lemma {:induction false} ScannedErrorsHaveNoType(batches: seq<Batch>, cursor: Cursor, policy: Scan.MountPolicy, fills: seq<Fill>)
    requires Consistent(cursor) && CanScan(cursor, policy) && AllWalked(batches, cursor, fills) && AllCounted(batches, policy)
    ensures Scan.ErrorsHaveNoType(ScannedRows(batches, policy))
  {
    if batches != [] {
      var last := |batches| - 1;
      assert IsWalked(batches[last], cursor, fills[last]);
      forall k | 0 <= k < last ensures IsWalked(Init(batches)[k], cursor, fills[k]) { assert IsWalked(batches[k], cursor, fills[k]); }
      ScannedErrorsHaveNoType(Init(batches), cursor, policy, fills);
      WalkedErrorsHaveNoType(batches[last], cursor, fills[last].buffer, policy);
    }
  }

  // -- The two builders on a scan -----------------------------------------------------------------------

  lemma ScansArePacked(batches: seq<Batch>, fields: seq<nat>, cursor: Cursor, fills: seq<Fill>)
    requires AllWalked(batches, cursor, fills) && cursor.requested == (set field | field in fields) && Rows(batches) < UINT32
    ensures AllPacked(batches, fields)
  {
    forall k | 0 <= k < |batches| ensures IsPacked(batches[k], fields) {
      assert IsWalked(batches[k], cursor, fills[k]);
      CountBounded(batches, k);
    }
  }

  /** On every scan the two builders give one answer, whatever the allocations do. */
  lemma ScansAreBuiltAlike(scan: ScanResult, fields: seq<nat>, cursor: Cursor, policy: Scan.MountPolicy, fills: seq<Fill>,
                           memory: bool, seenMemory: bool)
    requires ValidFields(fields) && cursor.requested == set field | field in fields
    requires scan.fields == fields && IsScanOf(scan, cursor, policy, fills)
    ensures ScanExpected(scan, fields, memory, seenMemory) == Expected(scan.batches, fields, scan.children, memory, seenMemory)
  {
    if Countable(scan.batches, scan.children) { ScansArePacked(scan.batches, fields, cursor, fills); }
    BuildersAgree(scan, fields, memory, seenMemory);
  }

  // -- What a stored block says of its rows -------------------------------------------------------------

  /** A row as the counting reads it, from the values of its fields. */
  function NumberIn(reading: Reading): Option<nat> {
    if reading.Present? && |reading.bytes| >= 4 then Some(ReadU32(reading.bytes, 0)) else None
  }

  function KindIn(reading: Reading): Option<nat> {
    if reading.Present? && reading.bytes != [] then Some(reading.bytes[0]) else None
  }

  lemma RowFromValues(batch: Batch, policy: Scan.MountPolicy, i: nat)
    requires CanAnalyze(batch, policy) && i < batch.count
    ensures RowAt(batch, policy, i)
            == Scan.Row(KindIn(Value(batch, TYPE, i)), NumberIn(Value(batch, ERROR, i)),
                        if policy.StayOnFilesystem? then NumberIn(Value(batch, MOUNT_STATUS, i)) else None)
  {
  }

  ghost predicate RowScanned(batches: seq<Batch>, policy: Scan.MountPolicy, k: nat, i: nat)
    requires AllCounted(batches, policy) && k < |batches| && i < batches[k].count
  {
    var row := BlockRow(batches, k, i);
    row < Rows(batches) && ScannedRows(batches, policy)[row] == RowAt(batches[k], policy, i)
  }

  lemma LastRowScanned(batches: seq<Batch>, policy: Scan.MountPolicy, i: nat)
    requires batches != [] && AllCounted(batches, policy) && i < Last(batches).count
    ensures RowScanned(batches, policy, |batches| - 1, i)
  {
    assert batches[..|batches| - 1] == Init(batches);
    RowsAreOf(Last(batches), policy, Last(batches).count);
  }

  lemma EarlierRowScanned(batches: seq<Batch>, policy: Scan.MountPolicy, k: nat, i: nat)
    requires AllCounted(batches, policy) && k < |batches| - 1 && i < batches[k].count
    requires RowScanned(Init(batches), policy, k, i)
    ensures RowScanned(batches, policy, k, i)
  {
    InFrontOfLast(batches, k, i);
  }

  lemma {:induction false} ScannedRowAt(batches: seq<Batch>, policy: Scan.MountPolicy, k: nat, i: nat)
    requires AllCounted(batches, policy) && k < |batches| && i < batches[k].count
    ensures RowScanned(batches, policy, k, i)
  {
    if k == |batches| - 1 {
      LastRowScanned(batches, policy, i);
    } else {
      ScannedRowAt(Init(batches), policy, k, i);
      EarlierRowScanned(batches, policy, k, i);
    }
  }

  /** The fields that counting reads are among those the store keeps. */
  predicate KeepsCounted(fields: seq<nat>, policy: Scan.MountPolicy) {
    TYPE in fields && ERROR in fields && (policy.StayOnFilesystem? ==> MOUNT_STATUS in fields)
  }

  lemma StoredRowIsScanned(batches: seq<Batch>, fields: seq<nat>, children: seq<nat>, policy: Scan.MountPolicy, k: nat, i: nat)
    requires Buildable(batches, fields, children) && KeepsCounted(fields, policy) && AllCounted(batches, policy)
    requires k < |batches| && i < batches[k].count
    ensures var block, row := Consolidated(batches, fields, children), BlockRow(batches, k, i);
            && FitsLayout(block, fields) && CanAnalyze(StoredBatch(block, fields), policy) && row < block.count
            && RowAt(StoredBatch(block, fields), policy, row) == RowAt(batches[k], policy, i)
  {
    var block, row := Consolidated(batches, fields, children), BlockRow(batches, k, i);
    ConsolidatedIsLaidOut(batches, fields, children);
    ConsolidationPreservesMeaning(batches, fields, children, TYPE, k, i);
    ConsolidationPreservesMeaning(batches, fields, children, ERROR, k, i);
    if policy.StayOnFilesystem? { ConsolidationPreservesMeaning(batches, fields, children, MOUNT_STATUS, k, i); }
    RowFromValues(StoredBatch(block, fields), policy, row);
    RowFromValues(batches[k], policy, i);
  }

  lemma StoredRowAt(batches: seq<Batch>, fields: seq<nat>, children: seq<nat>, policy: Scan.MountPolicy, row: nat)
    requires Buildable(batches, fields, children) && KeepsCounted(fields, policy) && AllCounted(batches, policy)
    requires row < Rows(batches)
    ensures var block := Consolidated(batches, fields, children);
            && FitsLayout(block, fields) && CanAnalyze(StoredBatch(block, fields), policy)
            && RowAt(StoredBatch(block, fields), policy, row) == ScannedRows(batches, policy)[row]
  {
    EveryRowIsFromABatch(batches, row);
    var k, i :| 0 <= k < |batches| && 0 <= i < batches[k].count && BlockRow(batches, k, i) == row;
    StoredRowIsScanned(batches, fields, children, policy, k, i);
    ScannedRowAt(batches, policy, k, i);
  }

  /** The rows of the block are those that the scan counted, in their order. */
  lemma StoredRowsAreScanned(batches: seq<Batch>, fields: seq<nat>, children: seq<nat>, policy: Scan.MountPolicy)
    requires Buildable(batches, fields, children) && KeepsCounted(fields, policy) && AllCounted(batches, policy)
    ensures var block := Consolidated(batches, fields, children);
            && FitsLayout(block, fields) && CanAnalyze(StoredBatch(block, fields), policy)
            && RowsOf(StoredBatch(block, fields), policy, block.count) == ScannedRows(batches, policy)
  {
    var block := Consolidated(batches, fields, children);
    ConsolidatedIsLaidOut(batches, fields, children);
    var stored := StoredBatch(block, fields);
    assert CanAnalyze(stored, policy);
    RowsAreOf(stored, policy, block.count);
    forall row: nat | row < block.count ensures RowsOf(stored, policy, block.count)[row] == ScannedRows(batches, policy)[row] {
      StoredRowAt(batches, fields, children, policy, row);
    }
  }
}
