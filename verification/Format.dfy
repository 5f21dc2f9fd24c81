/** The packed block byte by byte: where each value lies, how it is read, and what a valid block is. */
module Formats {
  import opened Blocks
  import opened Bytes
  import opened StoreModel
  import opened Words
  import RecordLayouts

  // -- Bits -------------------------------------------------------------------------------------------

  function BitSum(number: nat, n: nat): nat {
    if n == 0 then 0 else BitSum(number, n - 1) + if BitOf(number, n - 1) then PowerOf2(n - 1) else 0
  }

  lemma {:induction false} BitSumFromBelow(number: nat, n: nat)
    requires n > 0
    ensures BitSum(number, n) == (if number % 2 == 1 then 1 else 0) + 2 * BitSum(number / 2, n - 1)
  {
    if n > 1 { BitSumFromBelow(number, n - 1); }
  }

  /** Bit `k` stands for 2^k: a number is the sum of its bits. */
  lemma {:induction false} BitsMakeTheNumber(number: nat, n: nat)
    requires number < PowerOf2(n)
    ensures BitSum(number, n) == number
  {
    if n > 0 {
      BitSumFromBelow(number, n);
      BitsMakeTheNumber(number / 2, n - 1);
    }
  }

  // -- Widths -----------------------------------------------------------------------------------------

  /** Bytes of a cell, by field number; any other field has no packed form. */
  lemma WidthsAreThese(field: nat)
    ensures Width(field)
            == if field == 2 then 1
               else if field in {3, 4, 15, 16, 17, 18, 19, 24, 25, 26, 27, 30, 31, 37, 38, 47} then 4
               else if field in {1, 5, 6, 7, 8, 23, 28, 29, 33, 34, 35, 36, 39, 40, 41, 42, 43, 44, 45, 46} then 8
               else if field in {9, 10, 11, 12, 13, 14, 21, 22, 48} then 16
               else if field == 20 then 32 else 0
  {
  }

  // -- Places in a block ------------------------------------------------------------------------------

  /** The bytes of the columns of the first `n` fields; a span is width times count. */
  function ColumnsBefore(fields: seq<nat>, n: nat, count: nat): nat
    requires n <= |fields|
  {
    if n == 0 then 0 else ColumnsBefore(fields, n - 1, count) + Span(Width(fields[n - 1]), count)
  }

  predicate Distinct(fields: seq<nat>) {
    forall i, j :: 0 <= i < j < |fields| ==> fields[i] != fields[j]
  }

  lemma {:induction false} ColumnsFromFront(fields: seq<nat>, n: nat, count: nat)
    requires 0 < n <= |fields|
    ensures ColumnsBefore(fields, n, count) == Span(Width(fields[0]), count) + ColumnsBefore(fields[1..], n - 1, count)
  {
    if n > 1 { ColumnsFromFront(fields, n - 1, count); }
  }

  lemma SpanFromFront(size: nat, n: nat)
    requires n > 0
    ensures Span(size, n) == size + Span(size, n - 1)
  {
  }

  lemma {:induction false} ColumnStartsAt(fields: seq<nat>, count: nat, j: nat)
    requires Distinct(fields) && j < |fields|
    ensures ColumnStart(fields, count, fields[j]) == ColumnsBefore(fields, j, count)
  {
    if j > 0 {
      assert fields[0] != fields[j] && fields[1..][j - 1] == fields[j];
      ColumnStartsAt(fields[1..], count, j - 1);
      ColumnsFromFront(fields, j, count);
    }
  }

  lemma {:induction false} BitmapStartsAt(fields: seq<nat>, size: nat, j: nat)
    requires Distinct(fields) && j < |fields|
    ensures ValidityStart(fields, size, fields[j]) == Span(size, j)
  {
    if j > 0 {
      assert fields[0] != fields[j] && fields[1..][j - 1] == fields[j];
      BitmapStartsAt(fields[1..], size, j - 1);
      SpanFromFront(size, j);
    }
  }

  lemma {:induction false} ColumnsTake(fields: seq<nat>, count: nat)
    ensures ColumnsSize(fields, count) == ColumnsBefore(fields, |fields|, count)
  {
    if fields != [] {
      ColumnsTake(fields[1..], count);
      ColumnsFromFront(fields, |fields|, count);
    }
  }

  /** The storage is followed by the columns, and these by the validity bitmaps and the child rows. */
  function CellPlace(block: Block, fields: seq<nat>, j: nat, row: nat): nat
    requires j < |fields|
  {
    block.storageSize + ColumnsBefore(fields, j, block.count) + Span(Width(fields[j]), row)
  }

  function BitmapPlace(block: Block, fields: seq<nat>, j: nat): nat {
    block.storageSize + ColumnsBefore(fields, |fields|, block.count) + Span((block.count + 7) / 8, j)
  }

  lemma SliceOfSlice(data: Buffer, start: nat, end: nat, from: nat, to: nat)
    requires start <= end <= |data| && from <= to <= end - start
    ensures data[start..end][from..to] == data[start + from..start + to]
  {
    var part, whole := data[start..end][from..to], data[start + from..start + to];
    forall i | 0 <= i < |part| ensures part[i] == whole[i] {
    }
  }

  lemma CellIsOfColumn(block: Block, fields: seq<nat>, field: nat, row: nat)
    requires FitsLayout(block, fields) && field in fields && row < block.count
    ensures Span(Width(field), row) + Width(field) <= Span(Width(field), block.count)
    ensures CellOf(StoredBatch(block, fields), field, row) == Cell(BlockColumn(block, fields, field), Width(field), row)
  {
    CellFits(Width(field), row, block.count);
  }

  /** `part` is what lies in the data at a place. */
  ghost predicate LiesAt(data: Buffer, at: nat, part: Buffer) {
    at + |part| <= |data| && part == data[at..at + |part|]
  }

  lemma CellLiesAt(data: Buffer, start: nat, column: Buffer, width: nat, row: nat)
    requires LiesAt(data, start, column) && Span(width, row) + width <= |column|
    ensures LiesAt(data, start + Span(width, row), Cell(column, width, row))
  {
    SliceOfSlice(data, start, start + |column|, Span(width, row), Span(width, row) + width);
  }

  lemma ColumnLiesAt(block: Block, fields: seq<nat>, field: nat)
    requires FitsLayout(block, fields) && field in fields
    ensures LiesAt(block.data, block.storageSize + ColumnStart(fields, block.count, field), BlockColumn(block, fields, field))
  {
    ColumnInside(fields, block.count, field);
  }

  lemma CellIsInColumn(block: Block, fields: seq<nat>, field: nat, row: nat)
    requires FitsLayout(block, fields) && field in fields && row < block.count
    ensures LiesAt(block.data, block.storageSize + ColumnStart(fields, block.count, field) + Span(Width(field), row),
                   CellOf(StoredBatch(block, fields), field, row))
  {
    CellIsOfColumn(block, fields, field, row);
    ColumnLiesAt(block, fields, field);
    CellLiesAt(block.data, block.storageSize + ColumnStart(fields, block.count, field), BlockColumn(block, fields, field),
               Width(field), row);
  }

  lemma CellIsInPlace(block: Block, fields: seq<nat>, j: nat, row: nat)
    requires FitsLayout(block, fields) && Distinct(fields) && j < |fields| && row < block.count
    ensures var at, field := CellPlace(block, fields, j, row), fields[j];
            && at + Width(field) <= |block.data|
            && CellOf(StoredBatch(block, fields), field, row) == block.data[at..at + Width(field)]
  {
    CellIsInColumn(block, fields, fields[j], row);
    CellStartsAt(block, fields, j, row);
  }

  lemma CellStartsAt(block: Block, fields: seq<nat>, j: nat, row: nat)
    requires Distinct(fields) && j < |fields|
    ensures CellPlace(block, fields, j, row)
            == block.storageSize + ColumnStart(fields, block.count, fields[j]) + Span(Width(fields[j]), row)
  {
    ColumnStartsAt(fields, block.count, j);
  }

  lemma BitIsInPlace(block: Block, fields: seq<nat>, j: nat, row: nat)
    requires FitsLayout(block, fields) && Distinct(fields) && j < |fields| && row < block.count
    ensures BitmapPlace(block, fields, j) + row / 8 < |block.data|
    ensures StoredBatch(block, fields).validity[fields[j]][row / 8] == block.data[BitmapPlace(block, fields, j) + row / 8]
  {
    var field, size := fields[j], (block.count + 7) / 8;
    BitmapStartsAt(fields, size, j);
    ColumnsTake(fields, block.count);
    ValidityInside(fields, size, field);
    assert BlockValidity(block, fields, field)[row / 8] == block.data[BitmapPlace(block, fields, j) + row / 8];
  }

  /** What a cell says: nothing if it is not valid; else its bytes, or for a name or access control list those it refers to. */
  function Said(data: Buffer, storageSize: nat, field: nat, valid: bool, at: nat): Reading
    requires at + Width(field) <= |data| && storageSize <= |data|
  {
    if !valid then Absent
    else if field != 1 && field != 23 then Present(data[at..at + Width(field)])
    else
      var start, size := RecordLayouts.Word(data, at), RecordLayouts.Word(data, at + 4);
      if start + size <= storageSize then Present(data[start..start + size]) else OutOfBounds
  }

  /** The value of a field in a row, from the bytes of the block: bit `row` of the field's bitmap says whether there is one. */
  lemma ValueIsInTheBytes(block: Block, fields: seq<nat>, j: nat, row: nat)
    requires FitsLayout(block, fields) && Distinct(fields) && j < |fields| && row < block.count
    ensures var at, bits := CellPlace(block, fields, j, row), BitmapPlace(block, fields, j) + row / 8;
            && at + Width(fields[j]) <= |block.data| && bits < |block.data| && block.storageSize <= |block.data|
            && Value(StoredBatch(block, fields), fields[j], row)
               == Said(block.data, block.storageSize, fields[j], BitOf(block.data[bits], row % 8), at)
  {
    CellIsInPlace(block, fields, j, row);
    BitIsInPlace(block, fields, j, row);
    var batch, at, bits := StoredBatch(block, fields), CellPlace(block, fields, j, row), BitmapPlace(block, fields, j) + row / 8;
    CellSays(block.data, block.storageSize, fields[j], BitOf(block.data[bits], row % 8), at, CellOf(batch, fields[j], row),
             batch.storage);
  }

  lemma CellSays(data: Buffer, storageSize: nat, field: nat, valid: bool, at: nat, cell: Buffer, storage: Buffer)
    requires at + Width(field) <= |data| && storageSize <= |data| && |cell| == Width(field)
    requires cell == data[at..at + Width(field)] && storage == data[..storageSize]
    ensures Decode(field, valid, cell, storage) == Said(data, storageSize, field, valid, at)
  {
    if IsReference(field) { ReadIsInTheBytes(data, storageSize, at); }
  }

  lemma ReadIsInTheBytes(data: Buffer, storageSize: nat, at: nat)
    requires at + 8 <= |data| && storageSize <= |data|
    ensures var start, size := RecordLayouts.Word(data, at), RecordLayouts.Word(data, at + 4);
            Read(data[at..at + 8], data[..storageSize])
            == if start + size <= storageSize then Present(data[start..start + size]) else OutOfBounds
  {
    var cell := data[at..at + 8];
    RecordLayouts.WordIsRead(data, at);
    RecordLayouts.WordIsRead(data, at + 4);
    assert ReadU32(cell, 0) == ReadU32(data, at) && ReadU32(cell, 4) == ReadU32(data, at + 4);
    var start, size := ReadU32(cell, 0), ReadU32(cell, 4);
    if start + size <= storageSize { assert data[..storageSize][start..start + size] == data[start..start + size]; }
  }

  // -- Valid blocks -----------------------------------------------------------------------------------

  /** A row may be a child directory: it has a name and no error, and is of the directory type if types are kept. */
  predicate MayBeChild(batch: Batch, fields: seq<nat>, row: nat)
    requires HasFields(batch, fields)
  {
    && row < batch.count && Value(batch, 1, row) != Absent && Value(batch, 4, row) == Absent
    && (2 in fields ==> Value(batch, 2, row) == Present([2]))
  }

  predicate IsComponentOrNothing(reading: Reading) {
    match reading
    case Absent => true
    case Present(name) => name != [] && 0x2F !in name && 0 !in name && name != [0x2E] && name != [0x2E, 0x2E]
    case OutOfBounds => false
  }

  predicate MayBeChildren(batch: Batch, fields: seq<nat>, rows: seq<nat>)
    requires HasFields(batch, fields)
  {
    && (forall i :: 0 <= i < |rows| ==> MayBeChild(batch, fields, rows[i]))
    && (forall i, j :: 0 <= i < j < |rows| ==> rows[i] != rows[j])
  }

  predicate AreComponents(batch: Batch)
    requires HasColumn(batch, NAME)
  {
    forall row :: 0 <= row < batch.count ==> IsComponentOrNothing(Value(batch, 1, row))
  }

  lemma ChildrenMayBe(batch: Batch, fields: seq<nat>, rows: seq<nat>)
    requires HasFields(batch, fields)
    ensures ValidChildren(batch, fields, rows) <==> MayBeChildren(batch, fields, rows)
  {
    forall row: nat ensures MayBeChild(batch, fields, row) <==> NamesADirectory(batch, fields, row) {
      MayBeNamed(batch, fields, row);
    }
  }

  lemma MayBeNamed(batch: Batch, fields: seq<nat>, row: nat)
    requires HasFields(batch, fields)
    ensures MayBeChild(batch, fields, row) <==> NamesADirectory(batch, fields, row)
  {
  }

  lemma NamesAreComponents(batch: Batch)
    requires HasColumn(batch, NAME)
    ensures ValidNames(batch, batch.count) <==> AreComponents(batch)
  {
    forall row: nat | row < batch.count ensures IsComponentOrNothing(Value(batch, 1, row)) <==> ValidName(batch, row) {
      NameIsComponent(batch, row);
    }
  }

  lemma NameIsComponent(batch: Batch, row: nat)
    requires HasColumn(batch, NAME) && row < batch.count
    ensures IsComponentOrNothing(Value(batch, 1, row)) <==> ValidName(batch, row)
  {
  }

  /** A block is valid exactly if its child rows differ and may be children, and every name there is is a component. */
  lemma ValidExactly(block: Block, fields: seq<nat>)
    requires FitsLayout(block, fields) && ValidFields(fields)
    ensures var batch, rows := StoredBatch(block, fields), ChildRows(block, fields, block.childCount);
            ValidBlock(block, fields) <==> MayBeChildren(batch, fields, rows) && AreComponents(batch)
  {
    ChildrenMayBe(StoredBatch(block, fields), fields, ChildRows(block, fields, block.childCount));
    NamesAreComponents(StoredBatch(block, fields));
  }

  /** The child rows are the last words of the block. */
  lemma ChildRowsAreWords(block: Block, fields: seq<nat>, i: nat)
    requires FitsLayout(block, fields) && i < block.childCount
    ensures var at := BitmapPlace(block, fields, |fields|) + 4 * i;
            at + 4 <= |block.data| && ChildRow(block, fields, i) == RecordLayouts.Word(block.data, at)
  {
    ChildRowsStartAt(block, fields);
    ChildRowIsAWord(block, fields, i);
  }

  lemma ChildRowsStartAt(block: Block, fields: seq<nat>)
    requires FitsLayout(block, fields)
    ensures |block.data| == BitmapPlace(block, fields, |fields|) + 4 * block.childCount
  {
    ColumnsTake(fields, block.count);
  }

  lemma ChildRowIsAWord(block: Block, fields: seq<nat>, i: nat)
    requires FitsLayout(block, fields) && i < block.childCount
    ensures var at := |block.data| - 4 * block.childCount + 4 * i;
            at >= 0 && at + 4 <= |block.data| && ChildRow(block, fields, i) == RecordLayouts.Word(block.data, at)
  {
    RecordLayouts.WordIsRead(block.data, |block.data| - 4 * block.childCount + 4 * i);
  }
}
