/** The packed decoder in place: columns filled row by row while walking a buffer of bulk attribute records. */
module RecordWalks {
  import opened Bytes
  import opened Blocks
  import opened Entries
  import opened Options
  import opened StoreModel
  import opened Words
  import DirectoryScans
  import Scan

  // -- Rows of a batch --------------------------------------------------------------------------------

  ghost predicate HasColumns(batch: Batch, cursor: Cursor) {
    forall field :: field in cursor.requested ==> HasColumn(batch, field) && Width(field) > 0
  }

  ghost predicate CellIs(batch: Batch, field: nat, i: nat, cells: Cells)
    requires HasColumn(batch, field) && i < batch.count
  {
    && (Bit(batch.validity[field], i) <==> field in cells)
    && (field in cells ==> CellOf(batch, field, i) == cells[field])
  }

  /** A row holds exactly these cells. */
  ghost predicate RowIs(batch: Batch, cursor: Cursor, i: nat, cells: Cells)
    requires HasColumns(batch, cursor) && i < batch.count
  {
    forall field :: field in cursor.requested ==> CellIs(batch, field, i, cells)
  }

  ghost predicate CellKept(before: Batch, after: Batch, field: nat, i: nat)
    requires HasColumn(before, field) && HasColumn(after, field) && i < before.count && i < after.count
  {
    && (Bit(before.validity[field], i) <==> Bit(after.validity[field], i))
    && CellOf(before, field, i) == CellOf(after, field, i)
  }

  /** No other row than `except` has changed. */
  ghost predicate OthersKept(before: Batch, after: Batch, cursor: Cursor, except: nat)
    requires HasColumns(before, cursor) && HasColumns(after, cursor) && before.count == after.count
  {
    forall field, i: nat :: field in cursor.requested && i < before.count && i != except ==> CellKept(before, after, field, i)
  }

  /** A column with one cell written. */
  function WithCell(column: Buffer, width: nat, i: nat, cell: Buffer): (after: Buffer)
    requires Span(width, i) + width <= |column| && |cell| == width
    ensures |after| == |column|
  {
    column[..Span(width, i)] + cell + column[Span(width, i) + width..]
  }

  function WithValidity(bitmap: Buffer, i: nat): (after: Buffer)
    requires i / 8 < |bitmap|
    ensures |after| == |bitmap|
  {
    bitmap[i / 8 := SetBit(bitmap[i / 8], i % 8)]
  }

  lemma {:induction false} SpanGrows(width: nat, i: nat, j: nat)
    requires i < j
    ensures Span(width, i) + width <= Span(width, j)
    decreases j
  {
    if i < j - 1 { SpanGrows(width, i, j - 1); }
  }

  /** Three parts laid end to end: what starts before, in, or behind the middle one. */
  lemma PartOfThree(column: Buffer, start: nat, cell: Buffer, at: nat)
    requires start + |cell| <= |column| && at + |cell| <= |column|
    requires at == start || at + |cell| <= start || start + |cell| <= at
    ensures var after := column[..start] + cell + column[start + |cell|..];
            after[at..at + |cell|] == if at == start then cell else column[at..at + |cell|]
  {
    var after := column[..start] + cell + column[start + |cell|..];
    forall k | at <= k < at + |cell|
      ensures after[k] == if start <= k < start + |cell| then cell[k - start] else column[k]
    {
    }
    if at == start {
      assert after[at..at + |cell|] == cell;
    } else {
      assert after[at..at + |cell|] == column[at..at + |cell|];
    }
  }

  lemma WithCellCells(column: Buffer, width: nat, i: nat, cell: Buffer, j: nat)
    requires Span(width, i) + width <= |column| && Span(width, j) + width <= |column| && |cell| == width
    ensures Cell(WithCell(column, width, i, cell), width, j) == if i == j then cell else Cell(column, width, j)
  {
    if i < j { SpanGrows(width, i, j); } else if j < i { SpanGrows(width, j, i); }
    PartOfThree(column, Span(width, i), cell, Span(width, j));
    if width == 0 { assert Cell(column, width, j) == [] == cell; }
  }

  lemma WithValidityBits(bitmap: Buffer, i: nat, j: nat)
    requires i / 8 < |bitmap| && j / 8 < |bitmap|
    ensures Bit(WithValidity(bitmap, i), j) <==> i == j || Bit(bitmap, j)
  {
    if i / 8 == j / 8 { WithBitSetsOne(bitmap[i / 8], i % 8, j % 8); }
  }

  function Stored(batch: Batch, field: nat, i: nat, cell: Buffer): (after: Batch)
    requires HasColumn(batch, field) && i < batch.count && |cell| == Width(field)
    ensures HasColumn(after, field)
  {
    CellFits(Width(field), i, batch.count);
    batch.(columns := batch.columns[field := WithCell(batch.columns[field], Width(field), i, cell)],
           validity := batch.validity[field := WithValidity(batch.validity[field], i)])
  }

  lemma StoredCells(batch: Batch, field: nat, i: nat, cell: Buffer, other: nat, j: nat)
    requires HasColumn(batch, field) && HasColumn(batch, other) && i < batch.count && j < batch.count && |cell| == Width(field)
    ensures var after := Stored(batch, field, i, cell);
            && HasColumn(after, other)
            && (Bit(after.validity[other], j) <==> (field == other && i == j) || Bit(batch.validity[other], j))
            && CellOf(after, other, j) == if field == other && i == j then cell else CellOf(batch, other, j)
  {
    if field == other {
      CellFits(Width(field), i, batch.count);
      CellFits(Width(field), j, batch.count);
      WithCellCells(batch.columns[field], Width(field), i, cell, j);
      WithValidityBits(batch.validity[field], i, j);
    }
  }

  /** Storing a cell adds it to its row and touches no other row. */
  lemma StoredRow(batch: Batch, cursor: Cursor, field: nat, i: nat, cell: Buffer, cells: Cells)
    requires HasColumns(batch, cursor) && i < batch.count && field in cursor.requested && |cell| == Width(field)
    requires RowIs(batch, cursor, i, cells)
    ensures var after := Stored(batch, field, i, cell);
            HasColumns(after, cursor) && RowIs(after, cursor, i, cells[field := cell]) && OthersKept(batch, after, cursor, i)
  {
    var after := Stored(batch, field, i, cell);
    forall other | other in cursor.requested ensures HasColumn(after, other) {
      StoredCells(batch, field, i, cell, other, i);
    }
    forall other | other in cursor.requested ensures CellIs(after, other, i, cells[field := cell]) {
      assert CellIs(batch, other, i, cells);
      StoredCells(batch, field, i, cell, other, i);
    }
    forall other, j: nat | other in cursor.requested && j < batch.count && j != i ensures CellKept(batch, after, other, j) {
      StoredCells(batch, field, i, cell, other, j);
    }
  }

  lemma KeptTwice(first: Batch, second: Batch, third: Batch, cursor: Cursor, except: nat)
    requires HasColumns(first, cursor) && HasColumns(second, cursor) && HasColumns(third, cursor)
    requires first.count == second.count == third.count
    requires OthersKept(first, second, cursor, except) && OthersKept(second, third, cursor, except)
    ensures OthersKept(first, third, cursor, except)
  {
    forall field, i: nat | field in cursor.requested && i < first.count && i != except
      ensures CellKept(first, third, field, i)
    {
      assert CellKept(first, second, field, i) && CellKept(second, third, field, i);
    }
  }

  lemma {:induction false} RejectionStays(
    cursor: Cursor, record: Buffer, base: nat, group: Group, fields: seq<nat>, k: nat, so: Progress<Cells>
  )
    requires |record| >= 24 && k <= |fields| && PackedFields(cursor, record, base, group, fields[..k], so).Rejected?
    ensures PackedFields(cursor, record, base, group, fields, so).Rejected?
  {
    if k == |fields| {
      assert fields[..k] == fields;
    } else {
      var init := fields[..|fields| - 1];
      assert init[..k] == fields[..k];
      RejectionStays(cursor, record, base, group, init, k, so);
    }
  }

  // -- The columns of one batch -----------------------------------------------------------------------

  class Columns {
    const cursor: Cursor
    const count: nat
    var columns: map<nat, Buffer>
    var validity: map<nat, Buffer>

    /** The rows so far; the records they came from are their storage, copied when the walk ends. */
    ghost function Rows(): Batch
      reads this
    {
      Batch(count, [], columns, validity)
    }

    ghost predicate Valid()
      reads this
    {
      HasColumns(Rows(), cursor)
    }

    /** Row `index` holds these cells. */
    ghost predicate Row(index: nat, cells: Cells)
      requires Valid()
      reads this
    {
      index < count && RowIs(Rows(), cursor, index, cells)
    }

    twostate predicate OnlyRow(index: nat)
      reads this
    {
      old(Valid()) && Valid() && OthersKept(old(Rows()), Rows(), cursor, index)
    }

    /** Writes a cell and sets its validity bit, if the field has a column of that width. */
    method Store(field: nat, index: nat, cell: Buffer, ghost cells: Cells)
      requires Valid() && Row(index, cells)
      modifies this`columns, this`validity
      ensures OnlyRow(index) && Row(index, Put(cursor, cells, field, cell))
    {
      if field !in cursor.requested || |cell| != Width(field) { return; }
      StoredRow(Rows(), cursor, field, index, cell, cells);
      CellFits(Width(field), index, count);
      columns := columns[field := WithCell(columns[field], Width(field), index, cell)];
      validity := validity[field := WithValidity(validity[field], index)];
    }

    method StoreReference(field: nat, index: nat, base: nat, slice: Slice, ghost cells: Cells) returns (ok: bool)
      requires Valid() && Row(index, cells)
      modifies this`columns, this`validity
      ensures OnlyRow(index) && ok == ReferenceCell(base, slice).Some?
      ensures ok ==> Row(index, Put(cursor, cells, field, ReferenceCell(base, slice).value))
    {
      if base + slice.start >= UINT32 || slice.size >= UINT32 { return false; }
      Store(field, index, U32Bytes(base + slice.start) + U32Bytes(slice.size), cells);
      ok := true;
    }

    /** One attribute: its place in the record is read if it was asked for, and stored if it was returned. */
    method ReadField(record: Buffer, base: nat, group: Group, field: nat, index: nat, at: nat, ghost cells: Cells)
      returns (ok: bool, next: nat, ghost after: Cells)
      requires |record| >= 24 && Valid() && Row(index, cells)
      modifies this`columns, this`validity
      ensures OnlyRow(index) && (ok ==> Row(index, after))
      ensures PackedField(cursor, record, base, group, field, At(at, cells)) == if ok then At(next, after) else Rejected
    {
      next, after := at, cells;
      if Attribute(group, field) !in cursor.attributes { return true, next, after; }
      if at + RecordSize(field) > |record| { return false, next, after; }
      next := at + RecordSize(field);
      if !WasReturned(cursor, record, Attribute(group, field)) { return true, next, after; }
      if field == ACL {
        var slice := Referenced(record, at, false);
        if slice.None? { return false, next, after; }
        ok := StoreReference(field, index, base, slice.value, cells);
        if ok { after := Put(cursor, cells, field, ReferenceCell(base, slice.value).value); }
      } else {
        Store(field, index, FixedCell(field, record[at..next]), cells);
        ok, after := true, Put(cursor, cells, field, FixedCell(field, record[at..next]));
      }
    }

    method ReadFields(record: Buffer, base: nat, group: Group, fields: seq<nat>, index: nat, at: nat, ghost cells: Cells)
      returns (ok: bool, next: nat, ghost after: Cells)
      requires |record| >= 24 && Valid() && Row(index, cells)
      modifies this`columns, this`validity
      ensures OnlyRow(index) && (ok ==> Row(index, after))
      ensures PackedFields(cursor, record, base, group, fields, At(at, cells)) == if ok then At(next, after) else Rejected
    {
      ok, next, after := true, at, cells;
      var k := 0;
      while k < |fields|
        invariant k <= |fields| && ok
        invariant OnlyRow(index) && Row(index, after)
        invariant PackedFields(cursor, record, base, group, fields[..k], At(at, cells)) == At(next, after)
      {
        ghost var before := Rows();
        assert fields[..k + 1][..k] == fields[..k];
        ok, next, after := ReadField(record, base, group, fields[k], index, next, after);
        KeptTwice(old(Rows()), before, Rows(), cursor, index);
        k := k + 1;
        if !ok {
          RejectionStays(cursor, record, base, group, fields, k, At(at, cells));
          return;
        }
      }
      assert fields[..k] == fields;
    }

    /** The attributes behind the header, in record order; the object type decides between directory and file attributes. */
    method ReadBody(record: Buffer, base: nat, index: nat, ghost cells: Cells) returns (ok: bool, ghost after: Cells)
      requires |record| >= 36 && Valid() && Row(index, cells)
      modifies this`columns, this`validity
      ensures OnlyRow(index) && (ok ==> Row(index, after))
      ensures var body := PackedBody(cursor, record, base, At(36, cells));
              body.At? == ok && (ok ==> body.values == after)
    {
      var at: nat, next: nat;
      ok, at, after := ReadFields(record, base, Common, BEFORE_TYPE, index, 36, cells);
      if !ok { return; }
      ghost var before := Rows();
      ok, next, after := ReadField(record, base, Common, TYPE, index, at, after);
      KeptTwice(old(Rows()), before, Rows(), cursor, index);
      if !ok { return; }
      if TypeMissing(cursor, record) { return false, after; }
      var isDirectory := ObjectType(cursor, record, at) == VDIR;
      before := Rows();
      ok, after := ReadTail(record, base, index, isDirectory, next, after);
      KeptTwice(old(Rows()), before, Rows(), cursor, index);
    }

    method ReadTail(record: Buffer, base: nat, index: nat, isDirectory: bool, at: nat, ghost cells: Cells)
      returns (ok: bool, ghost after: Cells)
      requires |record| >= 36 && Valid() && Row(index, cells)
      modifies this`columns, this`validity
      ensures OnlyRow(index) && (ok ==> Row(index, after))
      ensures var tail := PackedTail(cursor, record, base, isDirectory, At(at, cells));
              tail.At? == ok && (ok ==> tail.values == after)
    {
      var next: nat;
      ghost var group, fields := if isDirectory then Directories else Files, if isDirectory then OF_DIRECTORIES else OF_FILES;
      RejectionStays(cursor, record, base, group, fields, 0, Rejected);
      RejectionStays(cursor, record, base, Forks, OF_FORKS, 0, Rejected);
      ok, next, after := ReadFields(record, base, Common, AFTER_TYPE, index, at, cells);
      if !ok { return; }
      ghost var before := Rows();
      if isDirectory {
        ok, next, after := ReadFields(record, base, Directories, OF_DIRECTORIES, index, next, after);
      } else {
        ok, next, after := ReadFields(record, base, Files, OF_FILES, index, next, after);
      }
      KeptTwice(old(Rows()), before, Rows(), cursor, index);
      if !ok { return; }
      before := Rows();
      ok, next, after := ReadFields(record, base, Forks, OF_FORKS, index, next, after);
      KeptTwice(old(Rows()), before, Rows(), cursor, index);
    }

    /** Returned attributes, error and name. */
    method ReadHeader(record: Buffer, base: nat, index: nat) returns (ok: bool, ghost cells: Cells)
      requires Valid() && Row(index, map[]) && Consistent(cursor)
      modifies this`columns, this`validity
      ensures OnlyRow(index) && (ok ==> Row(index, cells))
      ensures ok == (HeaderHolds(cursor, record) && PackedHeader(cursor, record, base).Some?)
      ensures ok ==> cells == PackedHeader(cursor, record, base).value
    {
      cells := map[];
      if |record| < 24 || !ValidReturned(cursor, record) { return false, cells; }
      Store(RETURNED_ATTRIBUTES, index, ReturnedSet(record), cells);
      cells := Put(cursor, cells, RETURNED_ATTRIBUTES, ReturnedSet(record));
      if |record| < 28 { return false, cells; }
      var error := ReadU32(record, 24);
      ghost var before := Rows();
      if error != 0 {
        Store(ERROR, index, U32Bytes(error), cells);
        KeptTwice(old(Rows()), before, Rows(), cursor, index);
        cells := Put(cursor, cells, ERROR, U32Bytes(error));
      }
      if |record| < 36 { return false, cells; }
      if WasReturned(cursor, record, Attribute(Common, NAME)) {
        var name := Referenced(record, 28, true);
        if name.None? { return false, cells; }
        before := Rows();
        ok := StoreReference(NAME, index, base, name.value, cells);
        KeptTwice(old(Rows()), before, Rows(), cursor, index);
        if !ok { return; }
        cells := Put(cursor, cells, NAME, ReferenceCell(base, name.value).value);
      }
      ok := error != 0 || WasReturned(cursor, record, Attribute(Common, NAME));
    }

    /** One record into one row, which no earlier record has touched. */
    method ParseEntry(record: Buffer, base: nat, index: nat) returns (ok: bool)
      requires Valid() && Row(index, map[]) && Consistent(cursor)
      modifies this`columns, this`validity
      ensures OnlyRow(index) && ok == PackedEntry(cursor, record, base).Some?
      ensures ok ==> Row(index, PackedEntry(cursor, record, base).value)
    {
      ghost var cells;
      ok, cells := ReadHeader(record, base, index);
      if !ok || ReadU32(record, 24) != 0 { return; }
      ghost var before := Rows();
      ok, cells := ReadBody(record, base, index, cells);
      KeptTwice(old(Rows()), before, Rows(), cursor, index);
    }

    /** Zeroed columns and bitmaps for the requested fields. */
    constructor (cursor: Cursor, count: nat)
      requires Consistent(cursor)
      ensures Valid() && this.cursor == cursor && this.count == count
      ensures forall i: nat :: i < count ==> Row(i, map[])
    {
      this.cursor, this.count := cursor, count;
      columns := map field | field in cursor.requested :: Zeros(Span(Width(field), count));
      validity := map field | field in cursor.requested :: Zeros(BitmapSize(count));
      new;
      forall i: nat | i < count ensures Row(i, map[]) {
        forall field | field in cursor.requested ensures CellIs(Rows(), field, i, map[]) { NoBitIsSet(i % 8); }
      }
    }
  }

  function Zeros(size: nat): (zeros: Buffer)
    ensures |zeros| == size && forall i :: 0 <= i < size ==> zeros[i] == 0
  {
    seq(size, _ => 0)
  }

  // -- The walk ---------------------------------------------------------------------------------------

  /** A record takes at least its size, the returned attributes, its error and its name's reference. */
  const MINIMUM_RECORD: nat := 36

  /** Each record starts with its own size, and the next follows it. */
  function RecordAt(buffer: Buffer, i: nat): (slice: Option<Slice>)
    ensures slice.Some? ==> slice.value.size >= 4 && slice.value.start + slice.value.size <= |buffer|
  {
    var start := if i == 0 then Some(0) else EndOf(RecordAt(buffer, i - 1));
    match start
    case None => None
    case Some(at) =>
      if |buffer| - at < 4 then None
      else
        var size := ReadU32(buffer, at);
        if size < 4 || size > |buffer| - at then None else Some(Slice(at, size))
  }

  function EndOf(slice: Option<Slice>): Option<nat> {
    match slice
    case None => None
    case Some(Slice(start, size)) => Some(start + size)
  }

  function BytesOf(buffer: Buffer, slice: Slice): Buffer
    requires slice.start + slice.size <= |buffer|
  {
    buffer[slice.start..slice.start + slice.size]
  }

  /** The entry of the `i`-th record, by the direct decoder. */
  function EntryAt(cursor: Cursor, buffer: Buffer, i: nat): Option<map<nat, Term>> {
    match RecordAt(buffer, i)
    case None => None
    case Some(slice) => DirectEntry(cursor, BytesOf(buffer, slice))
  }

  predicate AllDecode(cursor: Cursor, buffer: Buffer, count: nat) {
    forall i :: 0 <= i < count ==> EntryAt(cursor, buffer, i).Some?
  }

  /** The cells of the `i`-th record, by the packed decoder. */
  function CellsAt(cursor: Cursor, buffer: Buffer, i: nat): Option<Cells> {
    match RecordAt(buffer, i)
    case None => None
    case Some(slice) => PackedEntry(cursor, BytesOf(buffer, slice), slice.start)
  }

  lemma {:induction false} RecordsStay(buffer: Buffer, i: nat, j: nat)
    requires i <= j && RecordAt(buffer, j).Some?
    ensures RecordAt(buffer, i).Some?
    ensures RecordAt(buffer, i).value.start + RecordAt(buffer, i).value.size
            <= RecordAt(buffer, j).value.start + RecordAt(buffer, j).value.size
    decreases j
  {
    if i < j { RecordsStay(buffer, i, j - 1); }
  }

  lemma BothDecode(cursor: Cursor, buffer: Buffer, i: nat)
    requires Consistent(cursor) && |buffer| < UINT32
    ensures EntryAt(cursor, buffer, i).Some? == CellsAt(cursor, buffer, i).Some?
  {
    var slice := RecordAt(buffer, i);
    if slice.Some? { PackedRefinesDirect(cursor, buffer, slice.value.start, BytesOf(buffer, slice.value)); }
  }

  function Lookup(entry: map<nat, Term>, field: nat): Option<Term> {
    if field in entry then Some(entry[field]) else None
  }

  predicate HasSmallError(buffer: Buffer, i: nat) {
    RecordAt(buffer, i).Some? ==> SmallError(BytesOf(buffer, RecordAt(buffer, i).value))
  }

  /** The row of a batch reads as an entry, field by field, but for an error number beyond 31 bits. */
  ghost predicate RowReads(batch: Batch, cursor: Cursor, i: nat, entry: map<nat, Term>, agree: bool)
    requires HasColumns(batch, cursor) && i < batch.count
  {
    forall field :: field in cursor.requested ==>
      (RowTerm(batch, field, i) == Lookup(entry, field) <==> (agree || field != ERROR))
  }

  lemma CellReads(batch: Batch, field: nat, i: nat, entry: map<nat, Term>, cells: Cells)
    requires HasColumn(batch, field) && Width(field) > 0 && i < batch.count && CellIs(batch, field, i, cells)
    ensures Same(field, entry, cells, batch.storage) ==> RowTerm(batch, field, i) == Lookup(entry, field)
    ensures !Same(field, entry, cells, batch.storage) && !IsReference(field) ==> RowTerm(batch, field, i) != Lookup(entry, field)
  {
  }

  /** A record lies in the storage as it lay in the buffer. */
  lemma RecordInStorage(buffer: Buffer, storage: Buffer, slice: Slice)
    requires slice.start + slice.size <= |storage| <= |buffer| && storage == buffer[..|storage|]
    ensures BytesOf(buffer, slice) == storage[slice.start..slice.start + slice.size]
  {
  }

  lemma DecodedAlike(cursor: Cursor, storage: Buffer, slice: Slice, bytes: Buffer, entry: map<nat, Term>, cells: Cells)
    requires Consistent(cursor) && |storage| < UINT32
    requires slice.start + slice.size <= |storage| && bytes == storage[slice.start..slice.start + slice.size]
    requires DirectEntry(cursor, bytes) == Some(entry) && PackedEntry(cursor, bytes, slice.start) == Some(cells)
    ensures AllSameBut(entry, cells, storage, SmallError(bytes))
  {
    PackedRefinesDirect(cursor, storage, slice.start, bytes);
  }

  /** A row that holds the cells of a record reads as its entry, once the buffer up to its end is the storage. */
  lemma RowReadsEntry(batch: Batch, cursor: Cursor, buffer: Buffer, i: nat)
    requires Consistent(cursor) && |buffer| < UINT32 && HasColumns(batch, cursor) && i < batch.count
    requires EntryAt(cursor, buffer, i).Some? && CellsAt(cursor, buffer, i).Some?
    requires RowIs(batch, cursor, i, CellsAt(cursor, buffer, i).value)
    requires var slice := RecordAt(buffer, i).value;
             slice.start + slice.size <= |batch.storage| <= |buffer| && batch.storage == buffer[..|batch.storage|]
    ensures RowReads(batch, cursor, i, EntryAt(cursor, buffer, i).value, HasSmallError(buffer, i))
  {
    var slice, entry, cells := RecordAt(buffer, i).value, EntryAt(cursor, buffer, i).value, CellsAt(cursor, buffer, i).value;
    RecordInStorage(buffer, batch.storage, slice);
    DecodedAlike(cursor, batch.storage, slice, BytesOf(buffer, slice), entry, cells);
    RowReadsCells(batch, cursor, i, entry, cells, HasSmallError(buffer, i));
  }

  lemma RowReadsCells(batch: Batch, cursor: Cursor, i: nat, entry: map<nat, Term>, cells: Cells, agree: bool)
    requires HasColumns(batch, cursor) && i < batch.count && RowIs(batch, cursor, i, cells)
    requires AllSameBut(entry, cells, batch.storage, agree)
    ensures RowReads(batch, cursor, i, entry, agree)
  {
    forall field | field in cursor.requested
      ensures RowTerm(batch, field, i) == Lookup(entry, field) <==> (agree || field != ERROR)
    {
      assert CellIs(batch, field, i, cells);
      assert Same(field, entry, cells, batch.storage) <==> (agree || field != ERROR);
      CellReads(batch, field, i, entry, cells);
    }
  }

  function StartOf(buffer: Buffer, i: nat): Option<nat> {
    if i == 0 then Some(0) else EndOf(RecordAt(buffer, i - 1))
  }

  ghost predicate RowWalked(rows: Batch, cursor: Cursor, buffer: Buffer, i: nat, done: nat)
    requires HasColumns(rows, cursor) && i < rows.count
  {
    if i < done then CellsAt(cursor, buffer, i).Some? && RowIs(rows, cursor, i, CellsAt(cursor, buffer, i).value)
    else RowIs(rows, cursor, i, map[])
  }

  /** The first rows hold the cells of their records, and the others are untouched. */
  ghost predicate Walked(rows: Batch, cursor: Cursor, buffer: Buffer, done: nat)
    requires HasColumns(rows, cursor)
  {
    forall i: nat :: i < rows.count ==> RowWalked(rows, cursor, buffer, i, done)
  }

  lemma OneMoreWalked(before: Batch, after: Batch, cursor: Cursor, buffer: Buffer, index: nat)
    requires HasColumns(before, cursor) && HasColumns(after, cursor) && index < before.count == after.count
    requires Walked(before, cursor, buffer, index) && OthersKept(before, after, cursor, index)
    requires CellsAt(cursor, buffer, index).Some? && RowIs(after, cursor, index, CellsAt(cursor, buffer, index).value)
    ensures Walked(after, cursor, buffer, index + 1)
  {
    var next := index + 1;
    forall i: nat | i < after.count ensures RowWalked(after, cursor, buffer, i, next) {
      assert RowWalked(before, cursor, buffer, i, index);
      if i < index {
        RowKept(before, after, cursor, index, i, CellsAt(cursor, buffer, i).value);
      } else if i > index {
        RowKept(before, after, cursor, index, i, map[]);
      }
    }
  }

  /** One record: its size, checked against the buffer, then its attributes. */
  method WalkRecord(columns: Columns, buffer: Buffer, index: nat, at: nat) returns (ok: bool, next: nat)
    requires Consistent(columns.cursor) && |buffer| < UINT32 && columns.Valid() && index < columns.count
    requires at <= |buffer| && StartOf(buffer, index) == Some(at)
    requires Walked(columns.Rows(), columns.cursor, buffer, index)
    modifies columns
    ensures columns.Valid() && ok == EntryAt(columns.cursor, buffer, index).Some?
    ensures ok ==> next <= |buffer| && StartOf(buffer, index + 1) == Some(next)
                   && Walked(columns.Rows(), columns.cursor, buffer, index + 1)
  {
    if |buffer| - at < 4 { return false, at; }
    var size := ReadU32(buffer, at);
    if size < 4 || size > |buffer| - at { return false, at; }
    assert RecordAt(buffer, index) == Some(Slice(at, size));
    BothDecode(columns.cursor, buffer, index);
    ghost var before := columns.Rows();
    assert RowWalked(before, columns.cursor, buffer, index, index);
    ok := columns.ParseEntry(buffer[at..at + size], at, index);
    if ok { OneMoreWalked(before, columns.Rows(), columns.cursor, buffer, index); }
    next := at + size;
  }

  /**
   * A buffer of `count` records becomes a batch exactly when the direct decoder accepts each of them, and then every
   * field of every row reads as in its entry.
   */
  method Walk(cursor: Cursor, buffer: Buffer, count: nat) returns (result: Option<Batch>)
    requires Consistent(cursor) && |buffer| < UINT32
    ensures result.Some? == (count <= |buffer| / MINIMUM_RECORD && AllDecode(cursor, buffer, count))
    ensures result.Some? ==>
              result.value.count == count && HasColumns(result.value, cursor) && Walked(result.value, cursor, buffer, count)
              && forall i: nat :: i < count ==>
                   RowReads(result.value, cursor, i, EntryAt(cursor, buffer, i).value, HasSmallError(buffer, i))
  {
    if count > |buffer| / MINIMUM_RECORD { return None; }
    var columns := new Columns(cursor, count);
    var at := 0;
    ghost var start: nat := 0;
    forall i: nat | i < count ensures RowWalked(columns.Rows(), cursor, buffer, i, start) { assert columns.Row(i, map[]); }
    for index := 0 to count
      invariant fresh(columns) && columns.cursor == cursor && columns.count == count && columns.Valid()
      invariant at <= |buffer| && StartOf(buffer, index) == Some(at) && AllDecode(cursor, buffer, index)
      invariant Walked(columns.Rows(), cursor, buffer, index)
    {
      var ok, next := WalkRecord(columns, buffer, index, at);
      if !ok { return None; }
      at := next;
    }
    var batch := Batch(count, buffer[..at], columns.columns, columns.validity);
    WalkedReads(columns.Rows(), batch, cursor, buffer);
    result := Some(batch);
  }

  lemma WalkedReads(rows: Batch, batch: Batch, cursor: Cursor, buffer: Buffer)
    requires Consistent(cursor) && |buffer| < UINT32 && HasColumns(rows, cursor)
    requires Walked(rows, cursor, buffer, rows.count) && AllDecode(cursor, buffer, rows.count)
    requires batch == rows.(storage := batch.storage)
    requires StartOf(buffer, rows.count) == Some(|batch.storage|) && |batch.storage| <= |buffer|
    requires batch.storage == buffer[..|batch.storage|]
    ensures HasColumns(batch, cursor) && Walked(batch, cursor, buffer, batch.count)
    ensures forall i: nat :: i < batch.count ==>
              RowReads(batch, cursor, i, EntryAt(cursor, buffer, i).value, HasSmallError(buffer, i))
  {
    forall field | field in cursor.requested ensures HasColumn(batch, field) { assert HasColumn(rows, field); }
    forall i: nat | i < batch.count
      ensures RowWalked(batch, cursor, buffer, i, batch.count)
      ensures RowReads(batch, cursor, i, EntryAt(cursor, buffer, i).value, HasSmallError(buffer, i))
    {
      assert RowWalked(rows, cursor, buffer, i, rows.count);
      RecordsStay(buffer, i, rows.count - 1);
      RowIgnoresStorage(rows, batch, cursor, i, CellsAt(cursor, buffer, i).value);
      RowReadsEntry(batch, cursor, buffer, i);
    }
  }

  lemma RowKept(before: Batch, after: Batch, cursor: Cursor, except: nat, i: nat, cells: Cells)
    requires HasColumns(before, cursor) && HasColumns(after, cursor) && before.count == after.count
    requires OthersKept(before, after, cursor, except) && i < before.count && i != except && RowIs(before, cursor, i, cells)
    ensures RowIs(after, cursor, i, cells)
  {
    forall field | field in cursor.requested ensures CellIs(after, field, i, cells) {
      assert CellIs(before, field, i, cells) && CellKept(before, after, field, i);
    }
  }

  lemma RowIgnoresStorage(rows: Batch, batch: Batch, cursor: Cursor, i: nat, cells: Cells)
    requires HasColumns(rows, cursor) && i < rows.count && RowIs(rows, cursor, i, cells)
    requires batch == rows.(storage := batch.storage)
    ensures HasColumns(batch, cursor) && RowIs(batch, cursor, i, cells)
  {
    forall field | field in cursor.requested ensures HasColumn(batch, field) && CellIs(batch, field, i, cells) {
      assert HasColumn(rows, field) && CellIs(rows, field, i, cells);
    }
  }

  // -- What becomes of the batches --------------------------------------------------------------------

  /** A row of a published block reads as the entry of the record it came from. */
  lemma PublishedReadsEntry(
    batches: seq<Batch>, fields: seq<nat>, children: seq<nat>, cursor: Cursor, k: nat, i: nat,
    entry: map<nat, Term>, agree: bool
  )
    requires Buildable(batches, fields, children) && k < |batches| && i < batches[k].count
    requires Consistent(cursor) && cursor.requested == set field | field in fields
    requires HasColumns(batches[k], cursor) && RowReads(batches[k], cursor, i, entry, agree)
    ensures var block, row := Consolidated(batches, fields, children), BlockRow(batches, k, i);
            && FitsLayout(block, fields) && row < block.count && HasColumns(StoredBatch(block, fields), cursor)
            && RowReads(StoredBatch(block, fields), cursor, row, entry, agree)
  {
    forall field | field in cursor.requested
      ensures var block, row := Consolidated(batches, fields, children), BlockRow(batches, k, i);
              && FitsLayout(block, fields) && row < block.count && HasColumn(StoredBatch(block, fields), field)
              && Value(StoredBatch(block, fields), field, row) == Value(batches[k], field, i)
    {
      ConsolidationPreservesMeaning(batches, fields, children, field, k, i);
    }
    assert NAME in cursor.requested;
  }

  lemma {:induction false} NoErrorIsRead(cursor: Cursor, record: Buffer, base: nat, group: Group, fields: seq<nat>, so: Progress<Cells>)
    requires |record| >= 24 && IsTable(fields) && (so.At? ==> ERROR !in so.values)
    ensures var after := PackedFields(cursor, record, base, group, fields, so);
            after.At? ==> ERROR !in after.values
  {
    if fields != [] {
      assert IsTable(fields[..|fields| - 1]);
      NoErrorIsRead(cursor, record, base, group, fields[..|fields| - 1], so);
      assert fields[|fields| - 1] in fields;
    }
  }

  /** A record with an error leaves no type. */
  lemma ErrorsHaveNoType(cursor: Cursor, record: Buffer, base: nat)
    requires PackedEntry(cursor, record, base).Some? && ERROR in PackedEntry(cursor, record, base).value
    ensures TYPE !in PackedEntry(cursor, record, base).value
  {
    if ReadU32(record, 24) == 0 {
      Tables();
      var header := At(36, PackedHeader(cursor, record, base).value);
      NoErrorIsRead(cursor, record, base, Common, BEFORE_TYPE, header);
      var front := PackedFields(cursor, record, base, Common, BEFORE_TYPE, header);
      var typed := PackedField(cursor, record, base, Common, TYPE, front);
      var isDirectory := ObjectType(cursor, record, front.next) == VDIR;
      var group, fields := if isDirectory then Directories else Files, if isDirectory then OF_DIRECTORIES else OF_FILES;
      NoErrorIsRead(cursor, record, base, Common, AFTER_TYPE, typed);
      var common := PackedFields(cursor, record, base, Common, AFTER_TYPE, typed);
      NoErrorIsRead(cursor, record, base, group, fields, common);
      NoErrorIsRead(cursor, record, base, Forks, OF_FORKS, PackedFields(cursor, record, base, group, fields, common));
    }
  }

  /** What a scan's counting relies on holds of every batch that a walk produces. */
  lemma WalkedErrorsHaveNoType(batch: Batch, cursor: Cursor, buffer: Buffer, policy: Scan.MountPolicy)
    requires HasColumns(batch, cursor) && Walked(batch, cursor, buffer, batch.count)
    requires DirectoryScans.CanAnalyze(batch, policy) && {TYPE, ERROR} <= cursor.requested
    ensures Scan.ErrorsHaveNoType(DirectoryScans.RowsOf(batch, policy, batch.count))
  {
    forall i: nat | i < batch.count
      ensures var row := DirectoryScans.RowAt(batch, policy, i); row.error.Some? ==> row.kind.None?
    {
      assert RowWalked(batch, cursor, buffer, i, batch.count);
      var cells := CellsAt(cursor, buffer, i).value;
      assert CellIs(batch, ERROR, i, cells) && CellIs(batch, TYPE, i, cells);
      if ERROR in cells {
        var slice := RecordAt(buffer, i).value;
        ErrorsHaveNoType(cursor, BytesOf(buffer, slice), slice.start);
      }
    }
    RowsAreOf(batch, policy, batch.count);
  }

  lemma {:induction false} RowsAreOf(batch: Batch, policy: Scan.MountPolicy, n: nat)
    requires DirectoryScans.CanAnalyze(batch, policy) && n <= batch.count
    ensures forall i :: 0 <= i < n ==> DirectoryScans.RowsOf(batch, policy, n)[i] == DirectoryScans.RowAt(batch, policy, i)
  {
    if n > 0 { RowsAreOf(batch, policy, n - 1); }
  }
}
