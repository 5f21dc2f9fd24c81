/** The coordinator's store of listings and the native store of blocks, and what both say of one directory's rows. */
module StoreLinks {
  import opened BlockBuilder
  import opened Blocks
  import opened Bytes
  import opened Coordinators
  import opened DirectoryScans
  import opened FusedScans
  import opened IndexStores
  import opened Options
  import opened ScanBuilder
  import opened StoreModel
  import opened Words
  import Counts
  import Entries
  import RecordWalks
  import Scan
  import Summaries

  // -- Two stores of the same directories ---------------------------------------------------------------

  ghost predicate SameStored<A(!new), B(!new)>(a: Stored<A>, b: Stored<B>, shows: (A, B) -> bool) {
    a.count == b.count && a.firstChild == b.firstChild && a.childRows == b.childRows && shows(a.block, b.block)
  }

  ghost predicate SameRecord<A(!new), B(!new)>(a: Record<A>, b: Record<B>, shows: (A, B) -> bool) {
    && a.parent == b.parent && a.row == b.row && a.errno == b.errno && a.state == b.state
    && a.stored.Some? == b.stored.Some?
    && (a.stored.Some? ==> SameStored(a.stored.value, b.stored.value, shows))
  }

  /** One store holds what shows the contents of the other, directory by directory, and all else alike. */
  ghost predicate StandsFor<A(!new), B(!new)>(a: Store<A>, b: Store<B>, shows: (A, B) -> bool) {
    && |a.records| == |b.records| && a.journal == b.journal
    && a.published == b.published && a.failed == b.failed && a.entries == b.entries
    && forall id :: 0 <= id < |a.records| ==> SameRecord(a.records[id], b.records[id], shows)
  }

  ghost predicate SameStep<A(!new), B(!new)>(a: Step<A>, b: Step<B>, shows: (A, B) -> bool) {
    match a
    case PublishStep(id, block, count, childRows, memory) =>
      && b.PublishStep? && b.id == id && b.count == count && b.childRows == childRows && b.memory == memory
      && shows(block, b.block)
    case FailStep(id, errno, memory) => b.FailStep? && b.id == id && b.errno == errno && b.memory == memory
  }

  lemma PublishStandsFor<A(!new), B(!new)>(a: Store<A>, b: Store<B>, id: nat, block: A, other: B, count: nat, childRows: seq<nat>,
                                           memory: bool, shows: (A, B) -> bool)
    requires StandsFor(a, b, shows) && shows(block, other)
    ensures StandsFor(a.Publish(id, block, count, childRows, memory), b.Publish(id, other, count, childRows, memory), shows)
  {
    if id < |a.records| { assert SameRecord(a.records[id], b.records[id], shows); }
    if a.PublishStatus(id, |childRows|, memory) == Done {
      var c, d := a.Publish(id, block, count, childRows, memory), b.Publish(id, other, count, childRows, memory);
      forall k | 0 <= k < |c.records| ensures SameRecord(c.records[k], d.records[k], shows) {
        if k < |a.records| { assert SameRecord(a.records[k], b.records[k], shows); }
      }
    }
  }

  lemma FailStandsFor<A(!new), B(!new)>(a: Store<A>, b: Store<B>, id: nat, errno: nat, memory: bool, shows: (A, B) -> bool)
    requires StandsFor(a, b, shows)
    ensures StandsFor(a.Fail(id, errno, memory), b.Fail(id, errno, memory), shows)
  {
    if id < |a.records| { assert SameRecord(a.records[id], b.records[id], shows); }
    if a.FailStatus(id, memory) == Done {
      var c, d := a.Fail(id, errno, memory), b.Fail(id, errno, memory);
      forall k | 0 <= k < |c.records| ensures SameRecord(c.records[k], d.records[k], shows) {
        assert SameRecord(a.records[k], b.records[k], shows);
      }
    }
  }

  lemma NextStandsFor<A(!new), B(!new)>(a: Store<A>, b: Store<B>, s: Step<A>, t: Step<B>, shows: (A, B) -> bool)
    requires StandsFor(a, b, shows) && SameStep(s, t, shows)
    ensures StandsFor(a.Apply(s), b.Apply(t), shows)
  {
    match s
    case PublishStep(id, block, count, childRows, memory) =>
      PublishStandsFor(a, b, id, block, t.block, count, childRows, memory, shows);
    case FailStep(id, errno, memory) => FailStandsFor(a, b, id, errno, memory, shows);
  }

  /** Over any steps, refused ones included, the two stores stay alike. */
  lemma {:induction false} RunsStandFor<A(!new), B(!new)>(a: Store<A>, b: Store<B>, s: seq<Step<A>>, t: seq<Step<B>>,
                                                          shows: (A, B) -> bool)
    requires StandsFor(a, b, shows) && |s| == |t| && forall i :: 0 <= i < |s| ==> SameStep(s[i], t[i], shows)
    ensures StandsFor(a.Run(s), b.Run(t), shows)
    decreases |s|
  {
    if s != [] {
      NextStandsFor(a, b, s[0], t[0], shows);
      RunsStandFor(a.Apply(s[0]), b.Apply(t[0]), s[1..], t[1..], shows);
    }
  }

  // -- Blocks and listings ------------------------------------------------------------------------------

  /** The rows that a block holds are those of a listing. */
  ghost predicate Shows(block: Block, listing: seq<Entry>, fields: seq<nat>, policy: Scan.MountPolicy) {
    && FitsLayout(block, fields) && CanAnalyze(StoredBatch(block, fields), policy) && block.count == |listing|
    && RowsOf(StoredBatch(block, fields), policy, block.count) == Coordinators.Rows(listing)
  }

  /** The native store of blocks stands for the coordinator's store of listings over any run of publications and failures. */
  lemma NativeStoreStandsFor(steps: seq<Step<Block>>, listed: seq<Step<seq<Entry>>>, fields: seq<nat>, policy: Scan.MountPolicy)
    requires |steps| == |listed|
    requires forall i :: 0 <= i < |steps| ==> SameStep(steps[i], listed[i], (b, l) => Shows(b, l, fields, policy))
    ensures StandsFor(Store<Block>.New().Run(steps), Store<seq<Entry>>.New().Run(listed), (b, l) => Shows(b, l, fields, policy))
  {
    RunsStandFor(Store<Block>.New(), Store<seq<Entry>>.New(), steps, listed, (b, l) => Shows(b, l, fields, policy));
  }

  /** A directory that was listed as the scan met it is published by the block as the coordinator publishes the listing. */
  lemma ScanShowsListing(scan: ScanResult, fields: seq<nat>, cursor: Entries.Cursor, policy: Scan.MountPolicy, fills: seq<Fill>,
                         memory: bool, seenMemory: bool, listing: seq<Entry>)
    requires ValidFields(fields) && KeepsCounted(fields, policy) && scan.fields == fields && IsScanOf(scan, cursor, policy, fills)
    requires cursor.requested == set field | field in fields
    requires ScanExpected(scan, fields, memory, seenMemory).Built? && ScannedRows(scan.batches, policy) == Coordinators.Rows(listing)
    ensures var block, tally := ScanExpected(scan, fields, memory, seenMemory).block, Scan.CountRows(Coordinators.Rows(listing), policy);
            && Shows(block, listing, fields, policy)
            && tally.entries == block.count && tally.children == scan.children == ChildRows(block, fields, block.childCount)
  {
    BuiltAlike(scan, fields, memory, seenMemory);
    BuiltIsConsolidated(scan.batches, fields, scan.children, memory, seenMemory);
    StoredRowsAreScanned(scan.batches, fields, scan.children, policy);
    ChildrenReadBack(scan.batches, fields, scan.children);
    Scan.CountsEveryRow(Coordinators.Rows(listing), policy);
  }

  // -- Names --------------------------------------------------------------------------------------------

  /** The name of a row, read from the block that a scan's batches made, is the name in the entry of the record scanned there. */
  lemma RowNameIsScanned(batches: seq<Batch>, fields: seq<nat>, children: seq<nat>, cursor: Entries.Cursor, fills: seq<Fill>,
                         k: nat, i: nat)
    requires Buildable(batches, fields, children) && NAME in fields && NAME in cursor.requested && AllWalked(batches, cursor, fills)
    requires k < |batches| && i < batches[k].count
    ensures var block, row := Consolidated(batches, fields, children), BlockRow(batches, k, i);
            && IsWalked(batches[k], cursor, fills[k]) && FitsLayout(block, fields) && row < block.count
            && HasColumn(StoredBatch(block, fields), NAME)
            && var name := Value(StoredBatch(block, fields), NAME, row);
               name.Present? ==>
                 var entry := RecordWalks.EntryAt(cursor, fills[k].buffer, i).value;
                 NAME in entry && entry[NAME] == Entries.Term.Binary(name.bytes)
  {
    assert IsWalked(batches[k], cursor, fills[k]);
    ConsolidationPreservesMeaning(batches, fields, children, NAME, k, i);
    var entry := RecordWalks.EntryAt(cursor, fills[k].buffer, i).value;
    assert RecordWalks.RowReads(batches[k], cursor, i, entry, RecordWalks.HasSmallError(fills[k].buffer, i));
    assert Entries.RowTerm(batches[k], NAME, i) == RecordWalks.Lookup(entry, NAME);
  }

  /**
    A directory is opened under the name that the scan of its parent met: if the parent's block was built from a scan, the
    name at a row of it is that of the entry in the record there.
   */
  lemma OpenedAsScanned(store: Store<Block>, fields: seq<nat>, children: seq<nat>, cursor: Entries.Cursor, batches: seq<Batch>,
                        fills: seq<Fill>, above: nat, k: nat, i: nat, name: Buffer)
    requires store.TreeShape() && above < |store.records| && store.records[above].stored.Some?
    requires Buildable(batches, fields, children) && NAME in fields && NAME in cursor.requested && AllWalked(batches, cursor, fills)
    requires store.records[above].stored.value.block == Consolidated(batches, fields, children)
    requires k < |batches| && i < batches[k].count
    requires IndexStore.IsNameAt(fields, store, store.Path(above), BlockRow(batches, k, i), name)
    ensures k < |fills| && fills[k].Records? && RecordWalks.EntryAt(cursor, fills[k].buffer, i).Some?
    ensures var entry := RecordWalks.EntryAt(cursor, fills[k].buffer, i).value;
            NAME in entry && entry[NAME] == Entries.Term.Binary(name)
  {
    RowNameIsScanned(batches, fields, children, cursor, fills, k, i);
    IndexStore.NameIsInTheBlock(fields, store, above, BlockRow(batches, k, i), name);
    assert IsWalked(batches[k], cursor, fills[k]);
  }

  // -- Sizes --------------------------------------------------------------------------------------------

  /** Columns of signed 64-bit sizes. */
  predicate CanSummarize(batch: Batch, sizeField: nat) {
    HasColumn(batch, TYPE) && HasColumn(batch, sizeField) && Width(sizeField) == 8 && !IsReference(sizeField)
  }

  /** A row as the summary reads it from the columns. */
  function SizedRowAt(batch: Batch, sizeField: nat, i: nat): Summaries.SizedRow
    requires CanSummarize(batch, sizeField) && i < batch.count
  {
    Summaries.SizedRow(if Bit(batch.validity[TYPE], i) then Some(CellOf(batch, TYPE, i)[0]) else None,
                       if Bit(batch.validity[sizeField], i)
                       then Some(Entries.Signed64(Entries.ReadU64(CellOf(batch, sizeField, i), 0))) else None)
  }

  function SizedRows(batch: Batch, sizeField: nat): (rows: seq<Summaries.SizedRow>)
    requires CanSummarize(batch, sizeField)
    ensures |rows| == batch.count
  {
    seq(batch.count, i requires 0 <= i < batch.count => SizedRowAt(batch, sizeField, i))
  }

  predicate AllSummarized(batches: seq<Batch>, sizeField: nat) {
    forall k :: 0 <= k < |batches| ==> CanSummarize(batches[k], sizeField)
  }

  /** The sized rows of all batches, one after the other. */
  function ScannedSizes(batches: seq<Batch>, sizeField: nat): (rows: seq<Summaries.SizedRow>)
    requires AllSummarized(batches, sizeField)
    ensures |rows| == Blocks.Rows(batches)
  {
    if batches == [] then [] else ScannedSizes(Init(batches), sizeField) + SizedRows(Last(batches), sizeField)
  }

  function SizeIn(reading: Reading): Option<int> {
    if reading.Present? && |reading.bytes| == 8 then Some(Entries.Signed64(Entries.ReadU64(reading.bytes, 0))) else None
  }

  lemma SizedRowFromValues(batch: Batch, sizeField: nat, i: nat)
    requires CanSummarize(batch, sizeField) && i < batch.count
    ensures SizedRowAt(batch, sizeField, i)
            == Summaries.SizedRow(KindIn(Value(batch, TYPE, i)), SizeIn(Value(batch, sizeField, i)))
  {
  }

  ghost predicate SizeScanned(batches: seq<Batch>, sizeField: nat, k: nat, i: nat)
    requires AllSummarized(batches, sizeField) && k < |batches| && i < batches[k].count
  {
    var row := BlockRow(batches, k, i);
    row < Blocks.Rows(batches) && ScannedSizes(batches, sizeField)[row] == SizedRowAt(batches[k], sizeField, i)
  }

  lemma LastSizeScanned(batches: seq<Batch>, sizeField: nat, i: nat)
    requires batches != [] && AllSummarized(batches, sizeField) && i < Last(batches).count
    ensures SizeScanned(batches, sizeField, |batches| - 1, i)
  {
    assert batches[..|batches| - 1] == Init(batches);
  }

  lemma EarlierSizeScanned(batches: seq<Batch>, sizeField: nat, k: nat, i: nat)
    requires AllSummarized(batches, sizeField) && k < |batches| - 1 && i < batches[k].count
    requires SizeScanned(Init(batches), sizeField, k, i)
    ensures SizeScanned(batches, sizeField, k, i)
  {
    InFrontOfLast(batches, k, i);
  }

  lemma {:induction false} ScannedSizeAt(batches: seq<Batch>, sizeField: nat, k: nat, i: nat)
    requires AllSummarized(batches, sizeField) && k < |batches| && i < batches[k].count
    ensures SizeScanned(batches, sizeField, k, i)
  {
    if k == |batches| - 1 {
      LastSizeScanned(batches, sizeField, i);
    } else {
      ScannedSizeAt(Init(batches), sizeField, k, i);
      EarlierSizeScanned(batches, sizeField, k, i);
    }
  }

  lemma StoredSizeAt(batches: seq<Batch>, fields: seq<nat>, children: seq<nat>, sizeField: nat, row: nat)
    requires Buildable(batches, fields, children) && TYPE in fields && sizeField in fields && AllSummarized(batches, sizeField)
    requires Width(sizeField) == 8 && !IsReference(sizeField) && row < Blocks.Rows(batches)
    ensures var block := Consolidated(batches, fields, children);
            && FitsLayout(block, fields) && CanSummarize(StoredBatch(block, fields), sizeField)
            && SizedRowAt(StoredBatch(block, fields), sizeField, row) == ScannedSizes(batches, sizeField)[row]
  {
    EveryRowIsFromABatch(batches, row);
    var k, i :| 0 <= k < |batches| && 0 <= i < batches[k].count && BlockRow(batches, k, i) == row;
    ConsolidatedIsLaidOut(batches, fields, children);
    ConsolidationPreservesMeaning(batches, fields, children, TYPE, k, i);
    ConsolidationPreservesMeaning(batches, fields, children, sizeField, k, i);
    SizedRowFromValues(StoredBatch(Consolidated(batches, fields, children), fields), sizeField, row);
    SizedRowFromValues(batches[k], sizeField, i);
    ScannedSizeAt(batches, sizeField, k, i);
  }

  /** A summary of the stored block reads the sizes that were scanned. */
  lemma StoredSizesAreScanned(batches: seq<Batch>, fields: seq<nat>, children: seq<nat>, sizeField: nat)
    requires Buildable(batches, fields, children) && TYPE in fields && sizeField in fields && AllSummarized(batches, sizeField)
    requires Width(sizeField) == 8 && !IsReference(sizeField)
    ensures var block := Consolidated(batches, fields, children);
            && FitsLayout(block, fields) && CanSummarize(StoredBatch(block, fields), sizeField)
            && SizedRows(StoredBatch(block, fields), sizeField) == ScannedSizes(batches, sizeField)
  {
    ConsolidatedIsLaidOut(batches, fields, children);
    var stored := StoredBatch(Consolidated(batches, fields, children), fields);
    assert CanSummarize(stored, sizeField);
    forall row: nat | row < stored.count ensures SizedRows(stored, sizeField)[row] == ScannedSizes(batches, sizeField)[row] {
      StoredSizeAt(batches, fields, children, sizeField, row);
    }
  }

  // -- Report and window count the same files -----------------------------------------------------------

  ghost predicate SameKinds(rows: seq<Scan.Row>, sized: seq<Summaries.SizedRow>) {
    |rows| == |sized| && forall i :: 0 <= i < |rows| ==> rows[i].kind == sized[i].kind
  }

  lemma {:induction false} RegularCountAppends(rows: seq<Summaries.SizedRow>, row: Summaries.SizedRow)
    ensures Summaries.RegularCount(rows + [row]) == Summaries.RegularCount(rows) + if Summaries.IsRegular(row) then 1 else 0
  {
    if rows == [] {
      assert [] + [row] == [row];
    } else {
      assert (rows + [row])[1..] == rows[1..] + [row];
      RegularCountAppends(rows[1..], row);
    }
  }

  lemma {:induction false} RegularsAgree(rows: seq<Scan.Row>, sized: seq<Summaries.SizedRow>, policy: Scan.MountPolicy)
    requires SameKinds(rows, sized)
    ensures Scan.CountRows(rows, policy).regularFiles == Summaries.RegularCount(sized)
  {
    if rows != [] {
      var n := |rows| - 1;
      RegularsAgree(rows[..n], sized[..n], policy);
      assert sized == sized[..n] + [sized[n]];
      RegularCountAppends(sized[..n], sized[n]);
    }
  }

  /** The regular files that a directory's report counts are those in the bins of its summary. */
  lemma ReportAndSummaryAgree(block: Block, listing: seq<Entry>, fields: seq<nat>, policy: Scan.MountPolicy, sizeField: nat,
                              id: nat, limit: nat)
    requires Shows(block, listing, fields, policy) && CanSummarize(StoredBatch(block, fields), sizeField)
    ensures var rows := SizedRows(StoredBatch(block, fields), sizeField);
            var s := Summaries.Summarize(rows, Summaries.File(id, 0), limit, Summaries.NO_SUMMARY);
            Scan.CountRows(Coordinators.Rows(listing), policy).regularFiles == Counts.Total(Summaries.BinCounts(s.histogram))
  {
    var stored := StoredBatch(block, fields);
    RecordWalks.RowsAreOf(stored, policy, stored.count);
    RegularsAgree(Coordinators.Rows(listing), SizedRows(stored, sizeField), policy);
    Summaries.SummaryIsExact(SizedRows(stored, sizeField), id, limit);
  }
}
