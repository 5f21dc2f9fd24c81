/**
  The packed block of one directory: several column batches consolidated into one buffer, which holds the
  reference storage, then the columns, then the validity bitmaps, then the child row numbers.
 */
module Blocks {
  import opened Bytes
  import opened StoreModel
  import opened Words

  // -- Fields -----------------------------------------------------------------------------------------

  const NAME: nat := 1
  const TYPE: nat := 2
  const ERROR: nat := 4
  const ACL: nat := 23
  const RETURNED_ATTRIBUTES: nat := 48
  const FIELD_COUNT: nat := 49

  predicate IsU32(field: nat) {
    || 3 <= field <= 4 || 15 <= field <= 19 || 24 <= field <= 27
    || 30 <= field <= 31 || 37 <= field <= 38 || field == 47
  }

  /** Timestamps, UUIDs and the returned-attribute set. */
  predicate IsWide(field: nat) {
    9 <= field <= 14 || 21 <= field <= 22 || field == 48
  }

  /** Bytes of one cell; 20 is the Finder information, and the fork count, 32, has no packed form. */
  function Width(field: nat): nat {
    if field == TYPE then 1
    else if IsU32(field) then 4
    else if IsWide(field) then 16
    else if field == 20 then 32
    else if field == 0 || field == 32 || field >= FIELD_COUNT then 0
    else 8
  }

  predicate IsReference(field: nat) {
    field == NAME || field == ACL
  }

  /** The fields a store keeps, in column order; these three are always among them. */
  predicate ValidFields(fields: seq<nat>) {
    && NAME in fields && ERROR in fields && RETURNED_ATTRIBUTES in fields
    && (forall i, j :: 0 <= i < j < |fields| ==> fields[i] != fields[j])
    && (forall field :: field in fields ==> Width(field) > 0)
  }

  // -- Batches ----------------------------------------------------------------------------------------

  datatype Batch = Batch(count: nat, storage: Buffer, columns: map<nat, Buffer>, validity: map<nat, Buffer>)

  predicate HasColumn(batch: Batch, field: nat) {
    && field in batch.columns && |batch.columns[field]| == Span(Width(field), batch.count)
    && field in batch.validity && |batch.validity[field]| == BitmapSize(batch.count)
  }

  predicate IsPacked(batch: Batch, fields: seq<nat>) {
    batch.count < UINT32 && forall field :: field in fields ==> HasColumn(batch, field)
  }

  /** The bytes of `count` cells, `width * count`, counted cell by cell. */
  function Span(width: nat, count: nat): nat {
    if count == 0 then 0 else Span(width, count - 1) + width
  }

  lemma {:induction false} SpanIsProduct(width: nat, count: nat)
    ensures Span(width, count) == width * count
  {
    if count > 0 { SpanIsProduct(width, count - 1); }
  }

  lemma {:induction false} SpanAdds(width: nat, a: nat, b: nat)
    ensures Span(width, a + b) == Span(width, a) + Span(width, b)
    decreases b
  {
    if b > 0 { SpanAdds(width, a, b - 1); }
  }

  lemma {:induction false} CellFits(width: nat, i: nat, count: nat)
    requires i < count
    ensures Span(width, i) + width <= Span(width, count)
    decreases count
  {
    if i < count - 1 { CellFits(width, i, count - 1); }
  }

  /** A cell's bytes; for a reference they are an offset into storage and a length. */
  function Cell(column: Buffer, width: nat, i: nat): (cell: Buffer)
    requires Span(width, i) + width <= |column|
    ensures |cell| == width
  {
    column[Span(width, i)..Span(width, i) + width]
  }

  /** What a reader gets for a field of a row: nothing, the cell's bytes, the referenced bytes, or an exception. */
  datatype Reading = Absent | Present(bytes: Buffer) | OutOfBounds

  function CellOf(batch: Batch, field: nat, i: nat): (cell: Buffer)
    requires HasColumn(batch, field) && i < batch.count
    ensures |cell| == Width(field)
  {
    CellFits(Width(field), i, batch.count);
    Cell(batch.columns[field], Width(field), i)
  }

  function Read(cell: Buffer, storage: Buffer): Reading
    requires |cell| == 8
  {
    var start, size := ReadU32(cell, 0), ReadU32(cell, 4);
    if start + size > |storage| then OutOfBounds else Present(storage[start..start + size])
  }

  function Decode(field: nat, valid: bool, cell: Buffer, storage: Buffer): Reading
    requires |cell| == Width(field)
  {
    if !valid then Absent else if IsReference(field) then Read(cell, storage) else Present(cell)
  }

  function Value(batch: Batch, field: nat, i: nat): Reading
    requires HasColumn(batch, field) && i < batch.count
  {
    Decode(field, Bit(batch.validity[field], i), CellOf(batch, field, i), batch.storage)
  }

  // -- Consolidation ----------------------------------------------------------------------------------

  function Rows(batches: seq<Batch>): nat {
    if batches == [] then 0 else Rows(Init(batches)) + Last(batches).count
  }

  function Init<T>(s: seq<T>): seq<T>
    requires s != []
  {
    s[..|s| - 1]
  }

  function Last<T>(s: seq<T>): T
    requires s != []
  {
    s[|s| - 1]
  }

  function MergedStorage(batches: seq<Batch>): Buffer {
    if batches == [] then [] else MergedStorage(Init(batches)) + Last(batches).storage
  }

  /** A reference cell moved to where its batch's storage went. */
  function Rebase(cell: Buffer, offset: nat): (moved: Buffer)
    requires |cell| == 8
    ensures |moved| == 8
  {
    U32Bytes((ReadU32(cell, 0) + offset) % UINT32) + cell[4..]
  }

  function RebasedCell(batch: Batch, field: nat, i: nat, offset: nat): (cell: Buffer)
    requires HasColumn(batch, field) && i < batch.count
    ensures |cell| == Width(field)
  {
    if IsReference(field) then Rebase(CellOf(batch, field, i), offset) else CellOf(batch, field, i)
  }

  function RebasedColumn(batch: Batch, field: nat, n: nat, offset: nat): (column: Buffer)
    requires HasColumn(batch, field) && n <= batch.count
    ensures |column| == Span(Width(field), n)
  {
    if n == 0 then [] else RebasedColumn(batch, field, n - 1, offset) + RebasedCell(batch, field, n - 1, offset)
  }

  predicate AllHaveColumn(batches: seq<Batch>, field: nat) {
    forall k :: 0 <= k < |batches| ==> HasColumn(batches[k], field)
  }

  function MergedColumn(batches: seq<Batch>, field: nat): (column: Buffer)
    requires AllHaveColumn(batches, field)
    ensures |column| == Span(Width(field), Rows(batches))
  {
    if batches == [] then []
    else
      SpanAdds(Width(field), Rows(Init(batches)), Last(batches).count);
      MergedColumn(Init(batches), field)
         + RebasedColumn(Last(batches), field, Last(batches).count, |MergedStorage(Init(batches))|)
  }

  function MergedBits(batches: seq<Batch>, field: nat): (bits: seq<bool>)
    requires AllHaveColumn(batches, field)
    ensures |bits| == Rows(batches)
  {
    if batches == [] then []
    else MergedBits(Init(batches), field) + Unpack(Last(batches).validity[field], Last(batches).count)
  }

  function MergedValidity(batches: seq<Batch>, field: nat): Buffer
    requires AllHaveColumn(batches, field)
  {
    Pack(MergedBits(batches, field), BitmapSize(Rows(batches)))
  }

  /** The parts of a buffer one after the other, in field order. */
  function Joined(fields: seq<nat>, parts: map<nat, Buffer>): Buffer
    requires forall field :: field in fields ==> field in parts
  {
    if fields == [] then [] else parts[fields[0]] + Joined(fields[1..], parts)
  }

  function U32List(numbers: seq<nat>): (bytes: Buffer)
    requires forall i :: 0 <= i < |numbers| ==> numbers[i] < UINT32
    ensures |bytes| == 4 * |numbers|
  {
    if numbers == [] then [] else U32List(Init(numbers)) + U32Bytes(Last(numbers))
  }

  // -- The block --------------------------------------------------------------------------------------

  datatype Block = Block(count: nat, storageSize: nat, childCount: nat, data: Buffer)

  function ColumnsSize(fields: seq<nat>, count: nat): nat {
    if fields == [] then 0 else Span(Width(fields[0]), count) + ColumnsSize(fields[1..], count)
  }

  /** Where the column of a field starts after the storage: the columns before it, in field order. */
  function ColumnStart(fields: seq<nat>, count: nat, field: nat): nat
    requires field in fields
  {
    if fields[0] == field then 0 else Span(Width(fields[0]), count) + ColumnStart(fields[1..], count, field)
  }

  function ValidityStart(fields: seq<nat>, size: nat, field: nat): nat
    requires field in fields
  {
    if fields[0] == field then 0 else size + ValidityStart(fields[1..], size, field)
  }

  predicate FitsLayout(block: Block, fields: seq<nat>) {
    |block.data| == block.storageSize + ColumnsSize(fields, block.count)
                    + Span(BitmapSize(block.count), |fields|) + 4 * block.childCount
  }

  lemma {:induction false} ColumnInside(fields: seq<nat>, count: nat, field: nat)
    requires field in fields
    ensures ColumnStart(fields, count, field) + Span(Width(field), count) <= ColumnsSize(fields, count)
  {
    if fields[0] != field { ColumnInside(fields[1..], count, field); }
  }

  lemma {:induction false} ValidityInside(fields: seq<nat>, size: nat, field: nat)
    requires field in fields
    ensures ValidityStart(fields, size, field) + size <= Span(size, |fields|)
  {
    if fields[0] != field { ValidityInside(fields[1..], size, field); }
  }

  function BlockColumn(block: Block, fields: seq<nat>, field: nat): (column: Buffer)
    requires FitsLayout(block, fields) && field in fields
    ensures |column| == Span(Width(field), block.count)
  {
    ColumnInside(fields, block.count, field);
    var start := block.storageSize + ColumnStart(fields, block.count, field);
    block.data[start..start + Span(Width(field), block.count)]
  }

  function BlockValidity(block: Block, fields: seq<nat>, field: nat): (bitmap: Buffer)
    requires FitsLayout(block, fields) && field in fields
    ensures |bitmap| == BitmapSize(block.count)
  {
    var size := BitmapSize(block.count);
    ValidityInside(fields, size, field);
    var start := block.storageSize + ColumnsSize(fields, block.count) + ValidityStart(fields, size, field);
    block.data[start..start + size]
  }

  function ChildBytes(block: Block, fields: seq<nat>): (bytes: Buffer)
    requires FitsLayout(block, fields)
    ensures |bytes| == 4 * block.childCount
  {
    block.data[|block.data| - 4 * block.childCount..]
  }

  function ChildRow(block: Block, fields: seq<nat>, i: nat): nat
    requires FitsLayout(block, fields) && i < block.childCount
  {
    ReadU32(ChildBytes(block, fields), 4 * i)
  }

  /** The batch a fetch hands out: slices of the block's own buffer. */
  function StoredBatch(block: Block, fields: seq<nat>): (batch: Batch)
    requires FitsLayout(block, fields)
    ensures forall field :: field in fields ==> HasColumn(batch, field)
  {
    Batch(block.count, block.data[..block.storageSize],
          map field | field in fields :: BlockColumn(block, fields, field),
          map field | field in fields :: BlockValidity(block, fields, field))
  }

  function MergedColumns(batches: seq<Batch>, fields: seq<nat>): map<nat, Buffer>
    requires forall field :: field in fields ==> AllHaveColumn(batches, field)
  {
    map field | field in fields :: MergedColumn(batches, field)
  }

  function MergedValidities(batches: seq<Batch>, fields: seq<nat>): map<nat, Buffer>
    requires forall field :: field in fields ==> AllHaveColumn(batches, field)
  {
    map field | field in fields :: MergedValidity(batches, field)
  }

  function Consolidated(batches: seq<Batch>, fields: seq<nat>, children: seq<nat>): Block
    requires forall field :: field in fields ==> AllHaveColumn(batches, field)
    requires forall i :: 0 <= i < |children| ==> children[i] < UINT32
  {
    var storage := MergedStorage(batches);
    Block(Rows(batches), |storage|, |children|,
          storage + Joined(fields, MergedColumns(batches, fields)) + Joined(fields, MergedValidities(batches, fields))
          + U32List(children))
  }

  // -- Reading the layout back ------------------------------------------------------------------------

  lemma {:induction false} JoinedHoldsColumn(fields: seq<nat>, parts: map<nat, Buffer>, count: nat, field: nat)
    requires field in fields && forall f :: f in fields ==> f in parts && |parts[f]| == Span(Width(f), count)
    ensures Holds(Joined(fields, parts), ColumnStart(fields, count, field), parts[field])
  {
    if fields[0] != field {
      JoinedHoldsColumn(fields[1..], parts, count, field);
      HoldsBehind(parts[fields[0]], Joined(fields[1..], parts), ColumnStart(fields[1..], count, field), parts[field]);
    } else {
      HoldsBetween([], parts[field], Joined(fields[1..], parts));
    }
  }

  lemma {:induction false} JoinedColumnsSize(fields: seq<nat>, parts: map<nat, Buffer>, count: nat)
    requires forall f :: f in fields ==> f in parts && |parts[f]| == Span(Width(f), count)
    ensures |Joined(fields, parts)| == ColumnsSize(fields, count)
  {
    if fields != [] { JoinedColumnsSize(fields[1..], parts, count); }
  }

  lemma {:induction false} JoinedHoldsValidity(fields: seq<nat>, parts: map<nat, Buffer>, size: nat, field: nat)
    requires field in fields && forall f :: f in fields ==> f in parts && |parts[f]| == size
    ensures Holds(Joined(fields, parts), ValidityStart(fields, size, field), parts[field])
  {
    if fields[0] != field {
      JoinedHoldsValidity(fields[1..], parts, size, field);
      HoldsBehind(parts[fields[0]], Joined(fields[1..], parts), ValidityStart(fields[1..], size, field), parts[field]);
    } else {
      HoldsBetween([], parts[field], Joined(fields[1..], parts));
    }
  }

  lemma {:induction false} JoinedValiditiesSize(fields: seq<nat>, parts: map<nat, Buffer>, size: nat)
    requires forall f :: f in fields ==> f in parts && |parts[f]| == size
    ensures |Joined(fields, parts)| == Span(size, |fields|)
  {
    if fields != [] { JoinedValiditiesSize(fields[1..], parts, size); }
  }

  ghost predicate CanConsolidate(batches: seq<Batch>, fields: seq<nat>, children: seq<nat>) {
    && (forall field :: field in fields ==> AllHaveColumn(batches, field))
    && (forall i :: 0 <= i < |children| ==> children[i] < UINT32)
  }

  /** A part of the second of four pieces laid end to end. */
  lemma HoldsSecond(a: Buffer, b: Buffer, c: Buffer, d: Buffer, start: nat, part: Buffer)
    requires Holds(b, start, part)
    ensures Holds(a + b + c + d, |a| + start, part)
  {
    HoldsBehind(a, b, start, part);
    HoldsInFront(a + b, c, |a| + start, part);
    HoldsInFront(a + b + c, d, |a| + start, part);
  }

  lemma HoldsThird(a: Buffer, b: Buffer, c: Buffer, d: Buffer, start: nat, part: Buffer)
    requires Holds(c, start, part)
    ensures Holds(a + b + c + d, |a| + |b| + start, part)
  {
    HoldsBehind(a + b, c, start, part);
    HoldsInFront(a + b + c, d, |a| + |b| + start, part);
  }

  /** A block whose buffer is storage, columns, bitmaps and child rows, in this order. */
  predicate IsLaidOut(block: Block, fields: seq<nat>, storage: Buffer, columns: map<nat, Buffer>,
                      validities: map<nat, Buffer>, children: Buffer) {
    && |storage| == block.storageSize && |children| == 4 * block.childCount
    && (forall f :: f in fields ==> f in columns && |columns[f]| == Span(Width(f), block.count))
    && (forall f :: f in fields ==> f in validities && |validities[f]| == BitmapSize(block.count))
    && block.data == storage + Joined(fields, columns) + Joined(fields, validities) + children
  }

  lemma LayoutFits(block: Block, fields: seq<nat>, storage: Buffer, columns: map<nat, Buffer>,
                   validities: map<nat, Buffer>, children: Buffer)
    requires IsLaidOut(block, fields, storage, columns, validities, children)
    ensures FitsLayout(block, fields)
    ensures block.data[..block.storageSize] == storage && ChildBytes(block, fields) == children
  {
    JoinedColumnsSize(fields, columns, block.count);
    JoinedValiditiesSize(fields, validities, BitmapSize(block.count));
  }

  lemma LayoutColumn(block: Block, fields: seq<nat>, storage: Buffer, columns: map<nat, Buffer>,
                     validities: map<nat, Buffer>, children: Buffer, field: nat)
    requires IsLaidOut(block, fields, storage, columns, validities, children) && field in fields
    ensures FitsLayout(block, fields) && BlockColumn(block, fields, field) == columns[field]
  {
    LayoutFits(block, fields, storage, columns, validities, children);
    var start := ColumnStart(fields, block.count, field);
    JoinedHoldsColumn(fields, columns, block.count, field);
    HoldsSecond(storage, Joined(fields, columns), Joined(fields, validities), children, start, columns[field]);
    HeldSlice(block.data, block.storageSize + start, block.storageSize + start + Span(Width(field), block.count), columns[field]);
  }

  lemma LayoutValidity(block: Block, fields: seq<nat>, storage: Buffer, columns: map<nat, Buffer>,
                       validities: map<nat, Buffer>, children: Buffer, field: nat)
    requires IsLaidOut(block, fields, storage, columns, validities, children) && field in fields
    ensures FitsLayout(block, fields) && BlockValidity(block, fields, field) == validities[field]
  {
    LayoutFits(block, fields, storage, columns, validities, children);
    var size := BitmapSize(block.count);
    var start := ValidityStart(fields, size, field);
    JoinedHoldsValidity(fields, validities, size, field);
    JoinedColumnsSize(fields, columns, block.count);
    HoldsThird(storage, Joined(fields, columns), Joined(fields, validities), children, start, validities[field]);
    var at := block.storageSize + ColumnsSize(fields, block.count) + start;
    HeldSlice(block.data, at, at + size, validities[field]);
  }

  lemma ConsolidatedIsLaidOut(batches: seq<Batch>, fields: seq<nat>, children: seq<nat>)
    requires CanConsolidate(batches, fields, children)
    ensures IsLaidOut(Consolidated(batches, fields, children), fields, MergedStorage(batches),
                      MergedColumns(batches, fields), MergedValidities(batches, fields), U32List(children))
    ensures FitsLayout(Consolidated(batches, fields, children), fields)
  {
    LayoutFits(Consolidated(batches, fields, children), fields, MergedStorage(batches),
               MergedColumns(batches, fields), MergedValidities(batches, fields), U32List(children));
  }

  lemma ConsolidatedParts(batches: seq<Batch>, fields: seq<nat>, children: seq<nat>, field: nat)
    requires CanConsolidate(batches, fields, children) && field in fields
    ensures var block := Consolidated(batches, fields, children);
            && FitsLayout(block, fields)
            && BlockColumn(block, fields, field) == MergedColumn(batches, field)
            && BlockValidity(block, fields, field) == MergedValidity(batches, field)
            && StoredBatch(block, fields).storage == MergedStorage(batches)
  {
    var block, storage := Consolidated(batches, fields, children), MergedStorage(batches);
    var columns, validities := MergedColumns(batches, fields), MergedValidities(batches, fields);
    ConsolidatedIsLaidOut(batches, fields, children);
    LayoutFits(block, fields, storage, columns, validities, U32List(children));
    LayoutColumn(block, fields, storage, columns, validities, U32List(children), field);
    LayoutValidity(block, fields, storage, columns, validities, U32List(children), field);
  }

  lemma ReadHeld(data: Buffer, at: nat, n: nat)
    requires n < UINT32 && Holds(data, at, U32Bytes(n))
    ensures ReadU32(data, at) == n
  {
    HeldSlice(data, at, at + 4, U32Bytes(n));
    U32RoundTrip(n, data[..at], data[at + 4..]);
    assert data == data[..at] + data[at..at + 4] + data[at + 4..];
  }

  lemma {:induction false} U32ListAt(numbers: seq<nat>, i: nat)
    requires i < |numbers| && forall j :: 0 <= j < |numbers| ==> numbers[j] < UINT32
    ensures Holds(U32List(numbers), 4 * i, U32Bytes(numbers[i]))
  {
    if i < |numbers| - 1 {
      U32ListAt(Init(numbers), i);
      HoldsInFront(U32List(Init(numbers)), U32Bytes(Last(numbers)), 4 * i, U32Bytes(numbers[i]));
    } else {
      HoldsBetween(U32List(Init(numbers)), U32Bytes(Last(numbers)), []);
    }
  }

  /** The child row numbers read back as they were given. */
  lemma ConsolidatedChildren(batches: seq<Batch>, fields: seq<nat>, children: seq<nat>, i: nat)
    requires CanConsolidate(batches, fields, children) && i < |children|
    ensures var block := Consolidated(batches, fields, children);
            FitsLayout(block, fields) && block.childCount == |children| && ChildRow(block, fields, i) == children[i]
  {
    ConsolidatedIsLaidOut(batches, fields, children);
    LayoutFits(Consolidated(batches, fields, children), fields, MergedStorage(batches),
               MergedColumns(batches, fields), MergedValidities(batches, fields), U32List(children));
    U32ListAt(children, i);
    ReadHeld(U32List(children), 4 * i, children[i]);
    var block := Consolidated(batches, fields, children);
    assert ChildBytes(block, fields) == U32List(children);
  }

  // -- Consolidation preserves meaning ----------------------------------------------------------------

  /** Row `i` of batch `k` becomes this row of the block. */
  function BlockRow(batches: seq<Batch>, k: nat, i: nat): nat
    requires k < |batches|
  {
    Rows(batches[..k]) + i
  }

  function StorageStart(batches: seq<Batch>, k: nat): nat
    requires k < |batches|
  {
    |MergedStorage(batches[..k])|
  }

  lemma {:induction false} BlockRowFits(batches: seq<Batch>, k: nat, i: nat)
    requires k < |batches| && i < batches[k].count
    ensures BlockRow(batches, k, i) < Rows(batches)
  {
    if k == |batches| - 1 {
      assert batches[..k] == Init(batches);
    } else {
      BlockRowFits(Init(batches), k, i);
      assert Init(batches)[..k] == batches[..k];
    }
  }

  /** Batches before the last one stay where they are when the last one is left out. */
  lemma InFrontOfLast(batches: seq<Batch>, k: nat, i: nat)
    requires k < |batches| - 1
    ensures BlockRow(Init(batches), k, i) == BlockRow(batches, k, i) && StorageStart(Init(batches), k) == StorageStart(batches, k)
  {
    assert Init(batches)[..k] == batches[..k];
  }

  ghost predicate BitHeld(batches: seq<Batch>, field: nat, k: nat, i: nat)
    requires AllHaveColumn(batches, field) && k < |batches| && i < batches[k].count
  {
    var row := BlockRow(batches, k, i);
    row < Rows(batches) && MergedBits(batches, field)[row] == Bit(batches[k].validity[field], i)
  }

  lemma LastBitHeld(batches: seq<Batch>, field: nat, i: nat)
    requires batches != [] && AllHaveColumn(batches, field) && i < Last(batches).count
    ensures BitHeld(batches, field, |batches| - 1, i)
  {
    assert batches[..|batches| - 1] == Init(batches);
  }

  lemma EarlierBitHeld(batches: seq<Batch>, field: nat, k: nat, i: nat)
    requires AllHaveColumn(batches, field) && k < |batches| - 1 && i < batches[k].count && BitHeld(Init(batches), field, k, i)
    ensures BitHeld(batches, field, k, i)
  {
    InFrontOfLast(batches, k, i);
  }

  lemma {:induction false} MergedBitAt(batches: seq<Batch>, field: nat, k: nat, i: nat)
    requires AllHaveColumn(batches, field) && k < |batches| && i < batches[k].count
    ensures BitHeld(batches, field, k, i)
  {
    if k == |batches| - 1 {
      LastBitHeld(batches, field, i);
    } else {
      MergedBitAt(Init(batches), field, k, i);
      EarlierBitHeld(batches, field, k, i);
    }
  }

  lemma {:induction false} MergedStorageAt(batches: seq<Batch>, k: nat)
    requires k < |batches|
    ensures Holds(MergedStorage(batches), StorageStart(batches, k), batches[k].storage)
  {
    var front := MergedStorage(Init(batches));
    if k == |batches| - 1 {
      assert batches[..k] == Init(batches);
      HoldsBetween(front, Last(batches).storage, []);
    } else {
      MergedStorageAt(Init(batches), k);
      assert Init(batches)[..k] == batches[..k];
      HoldsInFront(front, Last(batches).storage, StorageStart(batches, k), batches[k].storage);
    }
  }

  lemma {:induction false} RebasedColumnAt(batch: Batch, field: nat, n: nat, offset: nat, i: nat)
    requires HasColumn(batch, field) && i < n <= batch.count
    ensures Holds(RebasedColumn(batch, field, n, offset), Span(Width(field), i), RebasedCell(batch, field, i, offset))
  {
    var front, last := RebasedColumn(batch, field, n - 1, offset), RebasedCell(batch, field, n - 1, offset);
    if i < n - 1 {
      RebasedColumnAt(batch, field, n - 1, offset, i);
      HoldsInFront(front, last, Span(Width(field), i), RebasedCell(batch, field, i, offset));
    } else {
      HoldsBetween(front, last, []);
    }
  }

  lemma ColumnBehind(front: Buffer, rows: nat, batch: Batch, field: nat, i: nat, offset: nat)
    requires HasColumn(batch, field) && i < batch.count && |front| == Span(Width(field), rows)
    ensures Holds(front + RebasedColumn(batch, field, batch.count, offset), Span(Width(field), rows + i),
                  RebasedCell(batch, field, i, offset))
  {
    RebasedColumnAt(batch, field, batch.count, offset, i);
    SpanAdds(Width(field), rows, i);
    HoldsBehind(front, RebasedColumn(batch, field, batch.count, offset), Span(Width(field), i), RebasedCell(batch, field, i, offset));
  }

  lemma MergedColumnLast(batches: seq<Batch>, field: nat, i: nat)
    requires AllHaveColumn(batches, field) && batches != [] && i < Last(batches).count
    ensures Holds(MergedColumn(batches, field), Span(Width(field), Rows(Init(batches)) + i),
                  RebasedCell(Last(batches), field, i, |MergedStorage(Init(batches))|))
  {
    ColumnBehind(MergedColumn(Init(batches), field), Rows(Init(batches)), Last(batches), field, i, |MergedStorage(Init(batches))|);
  }

  ghost predicate CellHeld(batches: seq<Batch>, field: nat, k: nat, i: nat)
    requires AllHaveColumn(batches, field) && k < |batches| && i < batches[k].count
  {
    Holds(MergedColumn(batches, field), Span(Width(field), BlockRow(batches, k, i)),
          RebasedCell(batches[k], field, i, StorageStart(batches, k)))
  }

  lemma LastCellHeld(batches: seq<Batch>, field: nat, i: nat)
    requires batches != [] && AllHaveColumn(batches, field) && i < Last(batches).count
    ensures CellHeld(batches, field, |batches| - 1, i)
  {
    assert batches[..|batches| - 1] == Init(batches);
    MergedColumnLast(batches, field, i);
  }

  lemma EarlierCellHeld(batches: seq<Batch>, field: nat, k: nat, i: nat)
    requires AllHaveColumn(batches, field) && k < |batches| - 1 && i < batches[k].count && CellHeld(Init(batches), field, k, i)
    ensures CellHeld(batches, field, k, i)
  {
    InFrontOfLast(batches, k, i);
    HeldByMore(batches, field, Span(Width(field), BlockRow(batches, k, i)),
               RebasedCell(batches[k], field, i, StorageStart(batches, k)));
  }

  lemma HeldByMore(batches: seq<Batch>, field: nat, at: nat, cell: Buffer)
    requires batches != [] && AllHaveColumn(batches, field) && Holds(MergedColumn(Init(batches), field), at, cell)
    ensures Holds(MergedColumn(batches, field), at, cell)
  {
    var back := RebasedColumn(Last(batches), field, Last(batches).count, |MergedStorage(Init(batches))|);
    assert MergedColumn(batches, field) == MergedColumn(Init(batches), field) + back;
    HoldsInFront(MergedColumn(Init(batches), field), back, at, cell);
  }

  lemma {:induction false} MergedColumnAt(batches: seq<Batch>, field: nat, k: nat, i: nat)
    requires AllHaveColumn(batches, field) && k < |batches| && i < batches[k].count
    ensures CellHeld(batches, field, k, i)
  {
    if k == |batches| - 1 {
      LastCellHeld(batches, field, i);
    } else {
      MergedColumnAt(Init(batches), field, k, i);
      EarlierCellHeld(batches, field, k, i);
    }
  }

  /** What the builders check of every row, valid or not, and of the total size. */
  predicate ReferencesFit(batch: Batch, field: nat)
    requires HasColumn(batch, field)
  {
    IsReference(field) ==>
      forall i :: 0 <= i < batch.count ==> ReferenceFits(CellOf(batch, field, i), |batch.storage|)
  }

  predicate ReferenceFits(cell: Buffer, storageSize: nat)
    requires |cell| == 8
  {
    ReadU32(cell, 0) + ReadU32(cell, 4) <= storageSize
  }

  ghost predicate Buildable(batches: seq<Batch>, fields: seq<nat>, children: seq<nat>) {
    && CanConsolidate(batches, fields, children)
    && |MergedStorage(batches)| < UINT32
    && (forall k, field :: 0 <= k < |batches| && field in fields ==> ReferencesFit(batches[k], field))
  }

  lemma TailReads(moved: Buffer, cell: Buffer)
    requires |moved| == |cell| == 8 && moved[4..] == cell[4..]
    ensures ReadU32(moved, 4) == ReadU32(cell, 4)
  {
    forall i | 4 <= i < 8 ensures moved[i] == cell[i] { assert moved[i] == moved[4..][i - 4] == cell[4..][i - 4]; }
  }

  lemma RebaseReads(cell: Buffer, offset: nat)
    requires |cell| == 8 && ReadU32(cell, 0) + offset < UINT32
    ensures ReadU32(Rebase(cell, offset), 0) == ReadU32(cell, 0) + offset
    ensures ReadU32(Rebase(cell, offset), 4) == ReadU32(cell, 4)
  {
    var moved, start := Rebase(cell, offset), U32Bytes(ReadU32(cell, 0) + offset);
    assert moved == [] + start + cell[4..];
    U32RoundTrip(ReadU32(cell, 0) + offset, [], cell[4..]);
    assert moved[4..] == cell[4..];
    TailReads(moved, cell);
  }

  /** A moved reference names the same bytes in the whole storage as the original does in its part. */
  lemma ReferenceMoves(storage: Buffer, offset: nat, part: Buffer, cell: Buffer)
    requires Holds(storage, offset, part) && |storage| < UINT32
    requires |cell| == 8 && ReferenceFits(cell, |part|)
    ensures Read(Rebase(cell, offset), storage) == Read(cell, part)
  {
    RebaseReads(cell, offset);
    var start, size := ReadU32(cell, 0), ReadU32(cell, 4);
    SubSlice(storage, offset, part, start, size);
  }

  lemma SubSlice(storage: Buffer, offset: nat, part: Buffer, start: nat, size: nat)
    requires Holds(storage, offset, part) && start + size <= |part|
    ensures storage[offset + start..offset + start + size] == part[start..start + size]
  {
    var a, b := storage[offset + start..offset + start + size], part[start..start + size];
    forall i | 0 <= i < size ensures a[i] == b[i] { assert ByteHeld(storage, offset, part, start + i); }
  }

  lemma RebasedDecodes(batches: seq<Batch>, field: nat, k: nat, i: nat, valid: bool)
    requires k < |batches| && HasColumn(batches[k], field) && i < batches[k].count
    requires |MergedStorage(batches)| < UINT32 && ReferencesFit(batches[k], field)
    ensures Decode(field, valid, RebasedCell(batches[k], field, i, StorageStart(batches, k)), MergedStorage(batches))
            == Decode(field, valid, CellOf(batches[k], field, i), batches[k].storage)
  {
    if IsReference(field) {
      MergedStorageAt(batches, k);
      ReferenceMoves(MergedStorage(batches), StorageStart(batches, k), batches[k].storage, CellOf(batches[k], field, i));
    }
  }

  lemma StoredCell(batches: seq<Batch>, fields: seq<nat>, children: seq<nat>, field: nat, k: nat, i: nat)
    requires CanConsolidate(batches, fields, children) && field in fields && k < |batches| && i < batches[k].count
    ensures var block, row := Consolidated(batches, fields, children), BlockRow(batches, k, i);
            && FitsLayout(block, fields) && row < block.count
            && var stored := StoredBatch(block, fields);
               && HasColumn(stored, field)
               && CellOf(stored, field, row) == RebasedCell(batches[k], field, i, StorageStart(batches, k))
  {
    ConsolidatedParts(batches, fields, children, field);
    BlockRowFits(batches, k, i);
    MergedColumnAt(batches, field, k, i);
    var block, start := Consolidated(batches, fields, children), Span(Width(field), BlockRow(batches, k, i));
    assert HasColumn(StoredBatch(block, fields), field);
    HeldSlice(MergedColumn(batches, field), start, start + Width(field),
              RebasedCell(batches[k], field, i, StorageStart(batches, k)));
  }

  lemma StoredBit(batches: seq<Batch>, fields: seq<nat>, children: seq<nat>, field: nat, k: nat, i: nat)
    requires CanConsolidate(batches, fields, children) && field in fields && k < |batches| && i < batches[k].count
    ensures var block, row := Consolidated(batches, fields, children), BlockRow(batches, k, i);
            && FitsLayout(block, fields) && row < block.count
            && Bit(BlockValidity(block, fields, field), row) == Bit(batches[k].validity[field], i)
  {
    ConsolidatedParts(batches, fields, children, field);
    MergedBitAt(batches, field, k, i);
    PackKeepsBits(MergedBits(batches, field), BitmapSize(Rows(batches)), BlockRow(batches, k, i));
  }

  /**
    Decoding any field of any row from the block gives what decoding it from its source batch gives, at the
    shifted row: bitmaps that do not end on a byte and references into moved storage included.
   */
  lemma ConsolidationPreservesMeaning(
      batches: seq<Batch>, fields: seq<nat>, children: seq<nat>, field: nat, k: nat, i: nat)
    requires Buildable(batches, fields, children) && field in fields && k < |batches| && i < batches[k].count
    ensures var block, row := Consolidated(batches, fields, children), BlockRow(batches, k, i);
            && FitsLayout(block, fields) && row < block.count
            && HasColumn(StoredBatch(block, fields), field)
            && Value(StoredBatch(block, fields), field, row) == Value(batches[k], field, i)
  {
    StoredCell(batches, fields, children, field, k, i);
    StoredBit(batches, fields, children, field, k, i);
    ConsolidatedParts(batches, fields, children, field);
    RebasedDecodes(batches, field, k, i, Bit(batches[k].validity[field], i));
  }

  /** And every row of the block is the row of some batch. */
  lemma {:induction false} EveryRowIsFromABatch(batches: seq<Batch>, row: nat)
    requires row < Rows(batches)
    ensures exists k, i :: 0 <= k < |batches| && 0 <= i < batches[k].count && BlockRow(batches, k, i) == row
  {
    if row < Rows(Init(batches)) {
      EveryRowIsFromABatch(Init(batches), row);
      var k, i :| 0 <= k < |Init(batches)| && 0 <= i < Init(batches)[k].count && BlockRow(Init(batches), k, i) == row;
      assert Init(batches)[..k] == batches[..k];
      assert BlockRow(batches, k, i) == row;
    } else {
      var k := |batches| - 1;
      assert batches[..k] == Init(batches);
      assert BlockRow(batches, k, row - Rows(Init(batches))) == row;
    }
  }

  // -- Validation -------------------------------------------------------------------------------------

  /** A name that can be one component of a path: not empty, no NUL, no slash, neither `.` nor `..`. */
  predicate ValidComponent(name: Buffer) {
    name != [] && 0 !in name && 0x2F !in name && name != [0x2E] && name != [0x2E, 0x2E]
  }

  predicate IsValid(batch: Batch, field: nat, row: nat)
    requires HasColumn(batch, field) && row < batch.count
  {
    Bit(batch.validity[field], row)
  }

  /** A batch with the columns that every store keeps. */
  predicate HasFields(batch: Batch, fields: seq<nat>) {
    ValidFields(fields) && forall field :: field in fields ==> HasColumn(batch, field)
  }

  predicate NamesADirectory(batch: Batch, fields: seq<nat>, row: nat)
    requires HasFields(batch, fields)
  {
    && row < batch.count
    && IsValid(batch, NAME, row) && !IsValid(batch, ERROR, row)
    && (TYPE in fields ==> IsValid(batch, TYPE, row) && CellOf(batch, TYPE, row) == [2])
  }

  predicate ValidName(batch: Batch, row: nat)
    requires HasColumn(batch, NAME) && row < batch.count
  {
    var name := Value(batch, NAME, row);
    name.Absent? || (name.Present? && ValidComponent(name.bytes))
  }

  predicate ValidChildren(batch: Batch, fields: seq<nat>, children: seq<nat>)
    requires HasFields(batch, fields)
  {
    && (forall i :: 0 <= i < |children| ==> NamesADirectory(batch, fields, children[i]))
    && (forall i, j :: 0 <= i < j < |children| ==> children[i] != children[j])
  }

  predicate ValidNames(batch: Batch, n: nat)
    requires HasColumn(batch, NAME) && n <= batch.count
  {
    forall row :: 0 <= row < n ==> ValidName(batch, row)
  }

  function ChildRows(block: Block, fields: seq<nat>, n: nat): (rows: seq<nat>)
    requires FitsLayout(block, fields) && n <= block.childCount
    ensures |rows| == n && forall i :: 0 <= i < n ==> rows[i] == ChildRow(block, fields, i)
  {
    if n == 0 then [] else ChildRows(block, fields, n - 1) + [ChildRow(block, fields, n - 1)]
  }

  /** Every child row is a different row with a name, no error and, if types are kept, the directory type; all names are components. */
  predicate ValidBlock(block: Block, fields: seq<nat>)
    requires FitsLayout(block, fields) && ValidFields(fields)
  {
    var batch := StoredBatch(block, fields);
    ValidChildren(batch, fields, ChildRows(block, fields, block.childCount)) && ValidNames(batch, batch.count)
  }

  lemma ValidChildHasName(batch: Batch, fields: seq<nat>, row: nat)
    requires HasFields(batch, fields) && NamesADirectory(batch, fields, row) && ValidNames(batch, batch.count)
    ensures var name := Value(batch, NAME, row); name.Present? && ValidComponent(name.bytes)
  {
    assert ValidName(batch, row);
  }

  lemma ChildrenReadBack(batches: seq<Batch>, fields: seq<nat>, children: seq<nat>)
    requires CanConsolidate(batches, fields, children)
    ensures var block := Consolidated(batches, fields, children);
            FitsLayout(block, fields) && ChildRows(block, fields, block.childCount) == children
  {
    ConsolidatedIsLaidOut(batches, fields, children);
    var rows := ChildRows(Consolidated(batches, fields, children), fields, |children|);
    forall i | 0 <= i < |children| ensures rows[i] == children[i] {
      ConsolidatedChildren(batches, fields, children, i);
    }
  }

  /** What publication relies on: distinct child rows inside the block, each with a usable name in bounds. */
  lemma ValidBlockIsPublishable(batches: seq<Batch>, fields: seq<nat>, children: seq<nat>)
    requires CanConsolidate(batches, fields, children) && ValidFields(fields)
    requires FitsLayout(Consolidated(batches, fields, children), fields)
    requires ValidBlock(Consolidated(batches, fields, children), fields)
    ensures ValidChildRows(Rows(batches), children)
    ensures var stored := StoredBatch(Consolidated(batches, fields, children), fields);
            forall i :: 0 <= i < |children| ==>
              && children[i] < stored.count
              && Value(stored, NAME, children[i]).Present? && ValidComponent(Value(stored, NAME, children[i]).bytes)
  {
    ChildrenReadBack(batches, fields, children);
    var stored := StoredBatch(Consolidated(batches, fields, children), fields);
    forall i | 0 <= i < |children|
      ensures children[i] < stored.count
      ensures var name := Value(stored, NAME, children[i]); name.Present? && ValidComponent(name.bytes)
    {
      ValidChildHasName(stored, fields, children[i]);
    }
  }
}
