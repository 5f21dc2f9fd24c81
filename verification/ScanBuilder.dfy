/** The builder behind the fused scan, which reads native batches instead of batch terms. */
module ScanBuilder {
  import opened BlockBuilder
  import opened Blocks
  import opened Bytes
  import opened StoreModel
  import opened Words

  /** What one fused scan hands over. A field without an entry in a batch's maps is a NULL pointer there. */
  datatype ScanResult = ScanResult(fields: seq<nat>, entries: nat, batches: seq<Batch>, children: seq<nat>)

  /** The regions behind the pointers: the builder is given no lengths, so it relies on these. */
  predicate IsSized(batch: Batch) {
    && (forall field :: field in batch.columns ==> |batch.columns[field]| == Span(Width(field), batch.count))
    && (forall field :: field in batch.validity ==> |batch.validity[field]| == BitmapSize(batch.count))
  }

  predicate AllSized(batches: seq<Batch>) {
    forall k :: 0 <= k < |batches| ==> IsSized(batches[k])
  }

  /** Adds up the sizes without looking at the columns; the first total over 32 bits ends it. */
  method MeasureScan(batches: seq<Batch>) returns (ok: bool, count: nat, storageSize: nat)
    ensures ok == (Rows(batches) < UINT32 && |MergedStorage(batches)| < UINT32)
    ensures ok ==> count == Rows(batches) && storageSize == |MergedStorage(batches)|
  {
    count, storageSize := 0, 0;
    for k := 0 to |batches|
      invariant count == Rows(batches[..k]) < UINT32 && storageSize == |MergedStorage(batches[..k])| < UINT32
    {
      assert Init(batches[..k + 1]) == batches[..k];
      PrefixGrows(batches, 0, k + 1);
      count := count + batches[k].count;
      storageSize := storageSize + |batches[k].storage|;
      if count >= UINT32 || storageSize >= UINT32 { return false, 0, 0; }
    }
    assert batches[..|batches|] == batches;
    ok := true;
  }

  ghost predicate Usable(batch: Batch, field: nat) {
    HasColumn(batch, field) && ReferencesFit(batch, field)
  }

  ghost predicate AllUsable(batches: seq<Batch>, field: nat, n: nat)
    requires n <= |batches|
  {
    forall k :: 0 <= k < n ==> Usable(batches[k], field)
  }

  /** Copies the batches of one field; fails at the first that lacks it or holds a reference that does not fit. */
  method FillScannedField(data: array<Byte>, columnAt: nat, bitmapAt: nat, size: nat, batches: seq<Batch>, field: nat)
    returns (ok: bool)
    requires AllSized(batches) && |MergedStorage(batches)| < UINT32 && size == BitmapSize(Rows(batches))
    requires columnAt + Span(Width(field), Rows(batches)) <= bitmapAt && bitmapAt + size <= data.Length
    requires Holds(data[..], bitmapAt, Pack([], size))
    modifies data
    ensures ok == AllUsable(batches, field, |batches|)
    ensures ok ==> AllHaveColumn(batches, field) && Filled(data[..], columnAt, bitmapAt, size, batches, field)
    ensures SameOutsideBoth(old(data[..]), data[..], columnAt, columnAt + Span(Width(field), Rows(batches)),
                            bitmapAt, bitmapAt + size)
  {
    ghost var before, end := data[..], columnAt + Span(Width(field), Rows(batches));
    var rowOffset, storageOffset := 0, 0;
    for k := 0 to |batches|
      invariant rowOffset == Rows(batches[..k]) && storageOffset == |MergedStorage(batches[..k])|
      invariant AllUsable(batches, field, k) && AllHaveColumn(batches[..k], field)
      invariant Filled(data[..], columnAt, bitmapAt, size, batches[..k], field)
      invariant SameOutsideBoth(before, data[..], columnAt, end, bitmapAt, bitmapAt + size)
    {
      if field !in batches[k].columns || field !in batches[k].validity {
        assert !Usable(batches[k], field);
        return false;
      }
      ghost var previous := data[..];
      assert IsSized(batches[k]);
      ok := FillNext(data, columnAt, bitmapAt, size, batches, field, k, rowOffset, storageOffset);
      BothChains(before, previous, data[..], columnAt, end, bitmapAt, bitmapAt + size);
      assert ok == Usable(batches[k], field);
      if !ok { return; }
      rowOffset := rowOffset + batches[k].count;
      storageOffset := storageOffset + |batches[k].storage|;
    }
    assert batches[..|batches|] == batches;
    ok := true;
  }

  /** Fills the next field, right behind the columns and the bitmaps so far. */
  method FillScannedFieldAt(data: array<Byte>, ghost storage: Buffer, ghost columns: Buffer, ghost bitmapsAt: nat,
                            ghost bitmaps: Buffer, columnAt: nat, bitmapAt: nat, size: nat, batches: seq<Batch>, field: nat)
    returns (ok: bool)
    requires AllSized(batches) && |MergedStorage(batches)| < UINT32 && size == BitmapSize(Rows(batches))
    requires Regions(data[..], storage, columns, bitmapsAt, bitmaps)
    requires columnAt == |storage| + |columns| && bitmapAt == bitmapsAt + |bitmaps|
    requires columnAt + Span(Width(field), Rows(batches)) <= bitmapsAt && bitmapAt + size <= data.Length
    modifies data
    ensures ok == AllUsable(batches, field, |batches|)
    ensures ok ==> AllHaveColumn(batches, field)
    ensures ok ==> Regions(data[..], storage, columns + MergedColumn(batches, field), bitmapsAt,
                           bitmaps + MergedValidity(batches, field))
  {
    ghost var before := data[..];
    ClearBitmap(before, bitmapAt, size);
    ok := FillScannedField(data, columnAt, bitmapAt, size, batches, field);
    if ok {
      RegionsGrow(before, data[..], storage, columns, bitmapsAt, bitmaps,
                  MergedColumn(batches, field), MergedValidity(batches, field));
    }
  }

  lemma UsableIsFit(batches: seq<Batch>, fields: seq<nat>, j: nat)
    requires j < |fields|
    ensures FieldFits(batches, fields, j) == AllUsable(batches, fields[j], |batches|)
  {
    if AllUsable(batches, fields[j], |batches|) {
      assert forall k :: 0 <= k < |batches| ==> Usable(batches[k], fields[j]);
    }
  }

  method FillScannedFields(data: array<Byte>, batches: seq<Batch>, fields: seq<nat>, count: nat, storageSize: nat)
    returns (ok: bool)
    requires ValidFields(fields) && AllSized(batches)
    requires count == Rows(batches) && storageSize == |MergedStorage(batches)| < UINT32
    requires BitmapsAt(batches, fields) + Span(BitmapSize(count), |fields|) <= data.Length
    requires FieldsFilled(data[..], batches, fields, 0)
    modifies data
    ensures ok == AllFieldsFit(batches, fields, |fields|)
    ensures ok ==> Covers(batches, fields, |fields|) && FieldsFilled(data[..], batches, fields, |fields|)
  {
    for j := 0 to |fields|
      invariant AllFieldsFit(batches, fields, j) && Covers(batches, fields, j)
      invariant FieldsFilled(data[..], batches, fields, j)
    {
      FieldPlace(data.Length, batches, fields, j);
      UsableIsFit(batches, fields, j);
      var columnAt := storageSize + ColumnStart(fields, count, fields[j]);
      var bitmapAt := storageSize + ColumnsSize(fields, count) + ValidityStart(fields, BitmapSize(count), fields[j]);
      ok := FillScannedFieldAt(data, MergedStorage(batches), ColumnsUpTo(batches, fields, j), BitmapsAt(batches, fields),
                               BitmapsUpTo(batches, fields, j), columnAt, bitmapAt, BitmapSize(count), batches, fields[j]);
      if !ok {
        assert !FieldFits(batches, fields, j);
        return;
      }
      UpToGrows(batches, fields, j);
    }
    ok := true;
  }

  lemma FittingAreCovered(batches: seq<Batch>, fields: seq<nat>)
    requires AllFieldsFit(batches, fields, |fields|)
    ensures Covers(batches, fields, |fields|)
    ensures forall field :: field in fields ==> AllHaveColumn(batches, field)
  {
    assert forall j :: 0 <= j < |fields| ==> FieldFits(batches, fields, j);
    forall field | field in fields ensures AllHaveColumn(batches, field) {
      var j :| 0 <= j < |fields| && fields[j] == field;
      assert FieldFits(batches, fields, j);
    }
  }

  /** The buffer of a scanned block, zeroed and then filled in place; the child rows are copied at once. */
  method FillScan(batches: seq<Batch>, fields: seq<nat>, children: seq<nat>, count: nat, storageSize: nat)
    returns (ok: bool, data: array<Byte>)
    requires ValidFields(fields) && AllSized(batches) && Countable(batches, children)
    requires count == Rows(batches) && storageSize == |MergedStorage(batches)|
    ensures fresh(data)
    ensures ok == AllFieldsFit(batches, fields, |fields|)
    ensures ok ==> CanConsolidate(batches, fields, children) && data[..] == Consolidated(batches, fields, children).data
  {
    var end := storageSize + ColumnsSize(fields, count) + Span(BitmapSize(count), |fields|);
    data := Prepare(batches, end + 4 * |children|);
    ok := FillScannedFields(data, batches, fields, count, storageSize);
    if ok {
      FittingAreCovered(batches, fields);
      ghost var before := data[..];
      Write(data, end, U32List(children));
      FinishedIsConsolidated(before, data[..], batches, fields, children, end);
    }
  }

  predicate IsAsAnnounced(scan: ScanResult, fields: seq<nat>) {
    scan.fields == fields && scan.entries == Rows(scan.batches)
  }

  /** What the builder of the fused scan must return. A missing column is found only after the allocation. */
  ghost function ScanExpected(scan: ScanResult, fields: seq<nat>, memory: bool, seenMemory: bool): BuildResult
    requires ValidFields(fields)
  {
    if !IsAsAnnounced(scan, fields) || !Countable(scan.batches, scan.children) then InvalidBlock
    else if !memory then NoMemory
    else if !AllFieldsFit(scan.batches, fields, |fields|) then InvalidBlock
    else
      FittingAreCovered(scan.batches, fields);
      Validated(scan.batches, fields, scan.children, seenMemory)
  }

  method BuildFromScan(scan: ScanResult, fields: seq<nat>, memory: bool, seenMemory: bool) returns (result: BuildResult)
    requires ValidFields(fields) && AllSized(scan.batches)
    requires forall i :: 0 <= i < |scan.children| ==> scan.children[i] < UINT32
    ensures result == ScanExpected(scan, fields, memory, seenMemory)
  {
    if scan.fields != fields || scan.entries >= UINT32 || |scan.children| >= UINT32 { return InvalidBlock; }
    var ok, count, storageSize := MeasureScan(scan.batches);
    if !ok || count != scan.entries { return InvalidBlock; }
    if !memory { return NoMemory; }
    var data;
    ok, data := FillScan(scan.batches, fields, scan.children, count, storageSize);
    if !ok { return InvalidBlock; }
    var block := Block(count, storageSize, |scan.children|, data[..]);
    result := Validate(block, scan.batches, fields, scan.children, seenMemory);
  }

  lemma {:induction false} CountBounded(batches: seq<Batch>, k: nat)
    requires k < |batches|
    ensures batches[k].count <= Rows(batches)
  {
    if k < |batches| - 1 { CountBounded(Init(batches), k); }
  }

  /** Batches that fit have every column, in its length. */
  lemma FittingArePacked(batches: seq<Batch>, fields: seq<nat>)
    requires Rows(batches) < UINT32 && AllFieldsFit(batches, fields, |fields|)
    ensures AllPacked(batches, fields)
  {
    FittingAreCovered(batches, fields);
    forall k | 0 <= k < |batches| ensures IsPacked(batches[k], fields) {
      CountBounded(batches, k);
      forall field | field in fields ensures HasColumn(batches[k], field) { assert AllHaveColumn(batches, field); }
    }
  }

  /**
    The two builders give one answer for the batches of a scan, except when a column is missing and the allocation
    fails: the builder of the term list has refused the batches before it allocates, this one has not looked yet.
   */
  lemma BuildersAgree(scan: ScanResult, fields: seq<nat>, memory: bool, seenMemory: bool)
    requires ValidFields(fields) && IsAsAnnounced(scan, fields)
    ensures ScanExpected(scan, fields, memory, seenMemory) == Expected(scan.batches, fields, scan.children, memory, seenMemory)
            <==> memory || AllPacked(scan.batches, fields) || !Countable(scan.batches, scan.children)
  {
    if Countable(scan.batches, scan.children) && AllFieldsFit(scan.batches, fields, |fields|) {
      FittingArePacked(scan.batches, fields);
    }
  }

  /** A block built from a scan is the one the builder of the term list makes of the same batches. */
  lemma BuiltAlike(scan: ScanResult, fields: seq<nat>, memory: bool, seenMemory: bool)
    requires ValidFields(fields) && ScanExpected(scan, fields, memory, seenMemory).Built?
    ensures Expected(scan.batches, fields, scan.children, memory, seenMemory)
            == ScanExpected(scan, fields, memory, seenMemory)
  {
    BuildersAgree(scan, fields, memory, seenMemory);
  }
}
