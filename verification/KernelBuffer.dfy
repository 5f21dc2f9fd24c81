/** Buffers as the kernel fills them, and which scans succeed. */
module KernelBuffers {
  import opened Blocks
  import opened Bytes
  import opened Entries
  import opened FusedScans
  import opened Options
  import opened RecordLayouts
  import opened RecordWalks
  import opened StoreModel

  // -- Records in a buffer ----------------------------------------------------------------------------

  /** Each record says its own size in its first word. */
  predicate SaysItsSize(record: Buffer) {
    |record| >= 4 && Word(record, 0) == |record|
  }

  /** Records, one behind the other. */
  function Joined(records: seq<Buffer>): Buffer {
    if records == [] then [] else Joined(records[..|records| - 1]) + records[|records| - 1]
  }

  lemma {:induction false} PrefixJoins(records: seq<Buffer>, n: nat)
    requires n <= |records|
    ensures |Joined(records[..n])| <= |Joined(records)| && Joined(records)[..|Joined(records[..n])|] == Joined(records[..n])
  {
    if n == |records| {
      assert records[..n] == records;
    } else {
      var front := records[..|records| - 1];
      PrefixJoins(front, n);
      assert front[..n] == records[..n];
    }
  }

  lemma RecordStands(records: seq<Buffer>, rest: Buffer, i: nat)
    requires i < |records|
    ensures var buffer, at := Joined(records) + rest, |Joined(records[..i])|;
            at + |records[i]| <= |buffer| && buffer[at..at + |records[i]|] == records[i]
            && at + |records[i]| == |Joined(records[..i + 1])|
  {
    var next := records[..i + 1];
    assert next[..i] == records[..i] && next[i] == records[i];
    PrefixJoins(records, i + 1);
    var all := Joined(records);
    assert all[..|Joined(next)|] == Joined(records[..i]) + records[i];
    assert all[|Joined(records[..i])|..|Joined(next)|] == records[i];
  }

  lemma WordOfSlice(buffer: Buffer, at: nat, record: Buffer)
    requires at + |record| <= |buffer| && buffer[at..at + |record|] == record && |record| >= 4
    ensures ReadU32(buffer, at) == Word(record, 0)
  {
    assert record[0] == buffer[at] && record[1] == buffer[at + 1] && record[2] == buffer[at + 2] && record[3] == buffer[at + 3];
  }

  /** The walk finds each record of a buffer where it lies, whatever is behind the last. */
  lemma {:induction false} RecordsAreFound(records: seq<Buffer>, rest: Buffer, i: nat)
    requires i < |records| && forall k :: 0 <= k <= i ==> SaysItsSize(records[k])
    ensures RecordAt(Joined(records) + rest, i) == Some(Slice(|Joined(records[..i])|, |records[i]|))
    ensures BytesOf(Joined(records) + rest, RecordAt(Joined(records) + rest, i).value) == records[i]
  {
    var buffer := Joined(records) + rest;
    if i > 0 {
      RecordsAreFound(records, rest, i - 1);
      RecordStands(records, rest, i - 1);
      assert records[..i - 1 + 1] == records[..i];
    }
    RecordStands(records, rest, i);
    RecordFollows(buffer, i, |Joined(records[..i])|, records[i]);
  }

  /** Where the record before ends, the next is found by its size. */
  lemma RecordFollows(buffer: Buffer, i: nat, at: nat, record: Buffer)
    requires at + |record| <= |buffer| && buffer[at..at + |record|] == record && SaysItsSize(record)
    requires if i == 0 then at == 0 else EndOf(RecordAt(buffer, i - 1)) == Some(at)
    ensures RecordAt(buffer, i) == Some(Slice(at, |record|)) && BytesOf(buffer, RecordAt(buffer, i).value) == record
  {
    WordOfSlice(buffer, at, record);
  }

  /** So each entry is that of its record. */
  lemma EntriesAreTheRecords(cursor: Cursor, records: seq<Buffer>, rest: Buffer, i: nat)
    requires i < |records| && forall k :: 0 <= k <= i ==> SaysItsSize(records[k])
    ensures EntryAt(cursor, Joined(records) + rest, i) == DirectEntry(cursor, records[i])
  {
    RecordsAreFound(records, rest, i);
  }

  // -- Scans that succeed -----------------------------------------------------------------------------

  /** A fill that can be added: no more records than fit, memory for all, and every record is accepted. */
  predicate CanBeAdded(cursor: Cursor, fill: Fill) {
    && fill.Records? && fill.count > 0 && 36 * fill.count <= |fill.buffer| && fill.columnMemory && fill.copyMemory
    && forall i :: 0 <= i < fill.count ==> EntryAt(cursor, fill.buffer, i).Some?
  }

  function CountOf(fill: Fill): nat {
    if fill.Records? then fill.count else 0
  }

  /** The records of the fills from one up to another. */
  function Counted(fills: seq<Fill>, from: nat, to: nat): nat
    requires from <= to <= |fills|
    decreases |fills| - from
  {
    if from == to then 0 else CountOf(fills[from]) + Counted(fills, from + 1, to)
  }

  predicate IsEmpty(fill: Fill) {
    fill.Records? && fill.count == 0
  }

  /** The scan ends before fill `end`, behind fills that can all be added, with a 32-bit number of entries. */
  predicate EndsWell(cursor: Cursor, fills: seq<Fill>, from: nat, entries: nat, end: nat) {
    && from <= end <= |fills| && (end == |fills| || IsEmpty(fills[end]))
    && (forall k :: from <= k < end ==> CanBeAdded(cursor, fills[k]))
    && (from == end || entries + Counted(fills, from, end) <= 0xFFFF_FFFF)
  }

  lemma FillScansIfAdded(cursor: Cursor, fill: Fill, entries: nat)
    requires fill.Records? && fill.count > 0
    ensures FillStatus(cursor, fill, entries) == Scanned <==> CanBeAdded(cursor, fill) && entries + fill.count <= 0xFFFF_FFFF
  {
  }

  lemma {:induction false} CountedGrows(fills: seq<Fill>, from: nat, to: nat)
    requires from < to <= |fills|
    ensures Counted(fills, from, to) >= CountOf(fills[from])
  {
  }

  /** A scan succeeds exactly if it ends well somewhere. */
  lemma {:induction false} ScansExactly(cursor: Cursor, fills: seq<Fill>, from: nat, entries: nat)
    requires from <= |fills|
    ensures StatusFrom(cursor, fills, from, entries) == Scanned <==> exists end: nat :: EndsWell(cursor, fills, from, entries, end)
    decreases |fills| - from
  {
    if EndsScan(fills, from) {
      assert EndsWell(cursor, fills, from, entries, from);
    } else if fills[from].Records? {
      FillScansIfAdded(cursor, fills[from], entries);
      var next, sum := from + 1, entries + fills[from].count;
      ScansExactly(cursor, fills, next, sum);
      if end: nat :| EndsWell(cursor, fills, from, entries, end) {
        assert from < end;
        CountedGrows(fills, from, end);
        assert EndsWell(cursor, fills, next, sum, end);
      }
      if CanBeAdded(cursor, fills[from]) && sum <= 0xFFFF_FFFF {
        if end: nat :| EndsWell(cursor, fills, next, sum, end) { assert EndsWell(cursor, fills, from, entries, end); }
      }
    }
  }
}
