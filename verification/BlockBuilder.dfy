/** The builder that writes a block's buffer in place, and the validation of what it wrote. */
module BlockBuilder {
  import opened Blocks
  import opened Bytes
  import opened StoreModel
  import opened Words

  predicate SameByte(before: Buffer, after: Buffer, i: nat)
    requires i < |before| == |after|
  {
    before[i] == after[i]
  }

  /** Nothing changes but `[start, end)`. */
  ghost predicate SameOutside(before: Buffer, after: Buffer, start: nat, end: nat) {
    && start <= end <= |before| == |after|
    && forall i :: 0 <= i < |before| && !(start <= i < end) ==> SameByte(before, after, i)
  }

  lemma HoldsOutside(before: Buffer, after: Buffer, start: nat, end: nat, at: nat, part: Buffer)
    requires SameOutside(before, after, start, end) && Holds(before, at, part)
    requires at + |part| <= start || end <= at
    ensures Holds(after, at, part)
  {
    forall i | 0 <= i < |part| ensures ByteHeld(after, at, part, i) {
      assert ByteHeld(before, at, part, i) && SameByte(before, after, at + i);
    }
  }

  lemma HoldsAppended(data: Buffer, at: nat, part: Buffer, more: Buffer)
    requires Holds(data, at, part) && Holds(data, at + |part|, more)
    ensures Holds(data, at, part + more)
  {
    forall i | 0 <= i < |part + more| ensures ByteHeld(data, at, part + more, i) {
      if i < |part| { assert ByteHeld(data, at, part, i); } else { assert ByteHeld(data, at + |part|, more, i - |part|); }
    }
  }

  /** memcpy. */
  method Write(data: array<Byte>, at: nat, source: Buffer)
    requires at + |source| <= data.Length
    modifies data
    ensures Holds(data[..], at, source) && SameOutside(old(data[..]), data[..], at, at + |source|)
  {
    forall i | 0 <= i < |source| { data[at + i] := source[i]; }
    assert forall i :: 0 <= i < |source| ==> ByteHeld(data[..], at, source, i);
  }

  lemma CellFitsNext(width: nat, i: nat, count: nat)
    requires i < count
    ensures Span(width, i + 1) == Span(width, i) + width && Span(width, i + 1) <= Span(width, count)
  {
    CellFits(width, i, count);
  }

  /** Writes `more` right behind `part`, which starts at `at`. */
  method Append(data: array<Byte>, at: nat, ghost part: Buffer, end: nat, more: Buffer)
    requires end == at + |part| && end + |more| <= data.Length && Holds(data[..], at, part)
    modifies data
    ensures Holds(data[..], at, part + more) && SameOutside(old(data[..]), data[..], end, end + |more|)
  {
    Write(data, end, more);
    HoldsOutside(old(data[..]), data[..], end, end + |more|, at, part);
    HoldsAppended(data[..], at, part, more);
  }

  /** Checks and copies one reference, moved to where its batch's storage went. */
  method AppendReference(data: array<Byte>, at: nat, ghost part: Buffer, end: nat, cell: Buffer, storageSize: nat, offset: nat)
    returns (ok: bool)
    requires |cell| == 8 && offset + storageSize < UINT32
    requires end == at + |part| && end + 8 <= data.Length && Holds(data[..], at, part)
    modifies data
    ensures SameOutside(old(data[..]), data[..], end, end + 8)
    ensures ok == ReferenceFits(cell, storageSize)
    ensures ok ==> Holds(data[..], at, part + Rebase(cell, offset))
  {
    if ReadU32(cell, 0) + ReadU32(cell, 4) > storageSize || ReadU32(cell, 0) + offset >= UINT32 { return false; }
    Append(data, at, part, end, Rebase(cell, offset));
    ok := true;
  }

  predicate IsReferenceColumn(column: Buffer, count: nat) {
    |column| == Span(8, count)
  }

  function Reference(column: Buffer, count: nat, i: nat): (cell: Buffer)
    requires IsReferenceColumn(column, count) && i < count
    ensures |cell| == 8
  {
    CellFits(8, i, count);
    Cell(column, 8, i)
  }

  /** The first `n` references of a column, moved. */
  function Moved(column: Buffer, count: nat, n: nat, offset: nat): (moved: Buffer)
    requires IsReferenceColumn(column, count) && n <= count
    ensures |moved| == Span(8, n)
  {
    if n == 0 then [] else Moved(column, count, n - 1, offset) + Rebase(Reference(column, count, n - 1), offset)
  }

  predicate FitsUpTo(column: Buffer, count: nat, storageSize: nat, n: nat)
    requires IsReferenceColumn(column, count) && n <= count
  {
    forall i :: 0 <= i < n ==> ReferenceFits(Reference(column, count, i), storageSize)
  }

  /** Copies a column of references, each checked and moved; stops at the first that does not fit. */
  method WriteReferences(data: array<Byte>, at: nat, column: Buffer, count: nat, storageSize: nat, offset: nat)
    returns (ok: bool)
    requires IsReferenceColumn(column, count) && offset + storageSize < UINT32
    requires at + Span(8, count) <= data.Length
    modifies data
    ensures SameOutside(old(data[..]), data[..], at, at + Span(8, count))
    ensures ok == FitsUpTo(column, count, storageSize, count)
    ensures ok ==> Holds(data[..], at, Moved(column, count, count, offset))
  {
    ghost var before, last := data[..], at + Span(8, count);
    for i := 0 to count
      invariant SameOutside(before, data[..], at, last)
      invariant FitsUpTo(column, count, storageSize, i)
      invariant Holds(data[..], at, Moved(column, count, i, offset))
    {
      CellFitsNext(8, i, count);
      ghost var previous := data[..];
      ok := AppendReference(data, at, Moved(column, count, i, offset), at + Span(8, i),
                            Reference(column, count, i), storageSize, offset);
      OutsideWithin(before, previous, data[..], at, last, at + Span(8, i), at + Span(8, i) + 8);
      if !ok { return; }
    }
    ok := true;
  }

  lemma {:induction false} MovedIsRebased(batch: Batch, field: nat, n: nat, offset: nat)
    requires HasColumn(batch, field) && IsReference(field) && n <= batch.count
    ensures IsReferenceColumn(batch.columns[field], batch.count)
    ensures Moved(batch.columns[field], batch.count, n, offset) == RebasedColumn(batch, field, n, offset)
  {
    if n > 0 { MovedIsRebased(batch, field, n - 1, offset); }
  }

  lemma FitsIsReferencesFit(batch: Batch, field: nat)
    requires HasColumn(batch, field) && IsReference(field)
    ensures IsReferenceColumn(batch.columns[field], batch.count)
    ensures FitsUpTo(batch.columns[field], batch.count, |batch.storage|, batch.count) == ReferencesFit(batch, field)
  {
    assert forall i :: 0 <= i < batch.count ==> CellOf(batch, field, i) == Reference(batch.columns[field], batch.count, i);
  }

  /** Cells that hold their own value are copied as they are. */
  lemma {:induction false} PlainColumnIsCopied(batch: Batch, field: nat, n: nat, offset: nat)
    requires HasColumn(batch, field) && !IsReference(field) && n <= batch.count
    ensures Span(Width(field), n) <= |batch.columns[field]|
    ensures RebasedColumn(batch, field, n, offset) == batch.columns[field][..Span(Width(field), n)]
  {
    if n > 0 {
      PlainColumnIsCopied(batch, field, n - 1, offset);
      CellFitsNext(Width(field), n - 1, batch.count);
    }
  }

  lemma OutsideWithin(a: Buffer, b: Buffer, c: Buffer, start: nat, end: nat, from: nat, to: nat)
    requires SameOutside(a, b, start, end) && SameOutside(b, c, from, to) && start <= from && to <= end
    ensures SameOutside(a, c, start, end)
  {
    forall i | 0 <= i < |a| && !(start <= i < end) ensures SameByte(a, c, i) {
      assert SameByte(a, b, i) && SameByte(b, c, i);
    }
  }

  /** `destination[row / 8] |= 1 << (row % 8)`, if the row is valid. */
  method OrBit(data: array<Byte>, at: nat, size: nat, ghost bits: seq<bool>, row: nat, bit: bool)
    requires row == |bits| < 8 * size && at + size <= data.Length && Holds(data[..], at, Pack(bits, size))
    modifies data
    ensures Holds(data[..], at, Pack(bits + [bit], size)) && SameOutside(old(data[..]), data[..], at, at + size)
  {
    PackOneMore(bits, bit, size);
    if bit {
      ghost var before, packed := data[..], Pack(bits, size);
      assert ByteHeld(before, at, packed, row / 8);
      data[at + row / 8] := SetBit(data[at + row / 8], row % 8);
      forall i | 0 <= i < size ensures ByteHeld(data[..], at, Pack(bits + [bit], size), i) {
        assert ByteHeld(before, at, packed, i);
      }
    }
  }

  /** Sets the bit of every row that is valid in the source bitmap, from row `rowOffset` on. */
  method OrBits(data: array<Byte>, at: nat, size: nat, ghost bits: seq<bool>, rowOffset: nat, source: Buffer, count: nat)
    requires rowOffset == |bits| && BitmapSize(count) <= |source| && BitmapSize(rowOffset + count) <= size
    requires at + size <= data.Length && Holds(data[..], at, Pack(bits, size))
    modifies data
    ensures Holds(data[..], at, Pack(bits + Unpack(source, count), size))
    ensures SameOutside(old(data[..]), data[..], at, at + size)
  {
    ghost var before, added := data[..], Unpack(source, count);
    assert bits + added[..0] == bits;
    for i := 0 to count
      invariant Holds(data[..], at, Pack(bits + added[..i], size))
      invariant SameOutside(before, data[..], at, at + size)
    {
      ghost var previous := data[..];
      OrBit(data, at, size, bits + added[..i], rowOffset + i, Bit(source, i));
      assert bits + added[..i] + [added[i]] == bits + added[..i + 1];
      OutsideWithin(before, previous, data[..], at, at + size, at, at + size);
    }
    assert added[..count] == added;
  }

  // -- One field --------------------------------------------------------------------------------------

  /** Nothing changes but `[start, middle)` and `[from, end)`. */
  ghost predicate SameOutsideBoth(before: Buffer, after: Buffer, start: nat, middle: nat, from: nat, end: nat) {
    && start <= middle <= from <= end <= |before| == |after|
    && forall i :: 0 <= i < |before| && !(start <= i < middle) && !(from <= i < end) ==> SameByte(before, after, i)
  }

  lemma BothFromTwo(a: Buffer, b: Buffer, c: Buffer, start: nat, middle: nat, from: nat, end: nat)
    requires SameOutside(a, b, start, middle) && SameOutside(b, c, from, end) && middle <= from
    ensures SameOutsideBoth(a, c, start, middle, from, end)
  {
    forall i | 0 <= i < |a| && !(start <= i < middle) && !(from <= i < end) ensures SameByte(a, c, i) {
      assert SameByte(a, b, i) && SameByte(b, c, i);
    }
  }

  lemma BothChains(a: Buffer, b: Buffer, c: Buffer, start: nat, middle: nat, from: nat, end: nat)
    requires SameOutsideBoth(a, b, start, middle, from, end) && SameOutsideBoth(b, c, start, middle, from, end)
    ensures SameOutsideBoth(a, c, start, middle, from, end)
  {
    forall i | 0 <= i < |a| && !(start <= i < middle) && !(from <= i < end) ensures SameByte(a, c, i) {
      assert SameByte(a, b, i) && SameByte(b, c, i);
    }
  }

  lemma HoldsOutsideBoth(a: Buffer, b: Buffer, start: nat, middle: nat, from: nat, end: nat, at: nat, part: Buffer)
    requires SameOutsideBoth(a, b, start, middle, from, end) && Holds(a, at, part)
    requires at + |part| <= start || (middle <= at && at + |part| <= from) || end <= at
    ensures Holds(b, at, part)
  {
    forall i | 0 <= i < |part| ensures ByteHeld(b, at, part, i) {
      assert ByteHeld(a, at, part, i) && SameByte(a, b, at + i);
    }
  }

  method WriteColumn(data: array<Byte>, at: nat, batch: Batch, field: nat, offset: nat) returns (ok: bool)
    requires HasColumn(batch, field) && offset + |batch.storage| < UINT32
    requires at + Span(Width(field), batch.count) <= data.Length
    modifies data
    ensures SameOutside(old(data[..]), data[..], at, at + Span(Width(field), batch.count))
    ensures ok == ReferencesFit(batch, field)
    ensures ok ==> Holds(data[..], at, RebasedColumn(batch, field, batch.count, offset))
  {
    if IsReference(field) {
      MovedIsRebased(batch, field, batch.count, offset);
      FitsIsReferencesFit(batch, field);
      ok := WriteReferences(data, at, batch.columns[field], batch.count, |batch.storage|, offset);
    } else {
      PlainColumnIsCopied(batch, field, batch.count, offset);
      assert batch.columns[field][..Span(Width(field), batch.count)] == batch.columns[field];
      Write(data, at, batch.columns[field]);
      ok := true;
    }
  }

  /** What the buffer holds of one field when the batches `done` have been copied. */
  ghost predicate Filled(data: Buffer, columnAt: nat, bitmapAt: nat, size: nat, done: seq<Batch>, field: nat)
    requires AllHaveColumn(done, field)
  {
    && Holds(data, columnAt, MergedColumn(done, field))
    && Holds(data, bitmapAt, Pack(MergedBits(done, field), size))
  }

  lemma MergedOneMore(done: seq<Batch>, batch: Batch, field: nat)
    requires AllHaveColumn(done, field) && HasColumn(batch, field)
    ensures AllHaveColumn(done + [batch], field)
    ensures Rows(done + [batch]) == Rows(done) + batch.count
    ensures MergedStorage(done + [batch]) == MergedStorage(done) + batch.storage
    ensures MergedColumn(done + [batch], field)
            == MergedColumn(done, field) + RebasedColumn(batch, field, batch.count, |MergedStorage(done)|)
    ensures MergedBits(done + [batch], field) == MergedBits(done, field) + Unpack(batch.validity[field], batch.count)
    ensures Span(Width(field), Rows(done + [batch])) == Span(Width(field), Rows(done)) + Span(Width(field), batch.count)
  {
    assert Init(done + [batch]) == done && Last(done + [batch]) == batch;
    SpanAdds(Width(field), Rows(done), batch.count);
  }

  method FillBatch(data: array<Byte>, columnAt: nat, bitmapAt: nat, size: nat, ghost done: seq<Batch>, batch: Batch,
                   field: nat, rowOffset: nat, storageOffset: nat) returns (ok: bool)
    requires AllHaveColumn(done, field) && HasColumn(batch, field)
    requires rowOffset == Rows(done) && storageOffset == |MergedStorage(done)| && storageOffset + |batch.storage| < UINT32
    requires columnAt + Span(Width(field), rowOffset) + Span(Width(field), batch.count) <= bitmapAt
    requires bitmapAt + size <= data.Length && BitmapSize(rowOffset + batch.count) <= size
    requires Filled(data[..], columnAt, bitmapAt, size, done, field)
    modifies data
    ensures ok == ReferencesFit(batch, field)
    ensures ok ==> AllHaveColumn(done + [batch], field) && Filled(data[..], columnAt, bitmapAt, size, done + [batch], field)
    ensures var start := columnAt + Span(Width(field), rowOffset);
            SameOutsideBoth(old(data[..]), data[..], start, start + Span(Width(field), batch.count), bitmapAt, bitmapAt + size)
  {
    ghost var before := data[..];
    var start := columnAt + Span(Width(field), rowOffset);
    ghost var end := start + Span(Width(field), batch.count);
    ok := WriteColumn(data, start, batch, field, storageOffset);
    ghost var written := data[..];
    if ok {
      MergedOneMore(done, batch, field);
      HoldsOutside(before, written, start, end, bitmapAt, Pack(MergedBits(done, field), size));
      HoldsGrown(before, written, columnAt, MergedColumn(done, field), start, end,
                 RebasedColumn(batch, field, batch.count, storageOffset), MergedColumn(done + [batch], field));
      OrBits(data, bitmapAt, size, MergedBits(done, field), rowOffset, batch.validity[field], batch.count);
      BitsWritten(written, data[..], columnAt, bitmapAt, size, done, batch, field);
    }
    BothFromTwo(before, written, data[..], start, end, bitmapAt, bitmapAt + size);
  }

  lemma HoldsGrown(before: Buffer, written: Buffer, at: nat, part: Buffer, start: nat, end: nat, more: Buffer, whole: Buffer)
    requires Holds(before, at, part) && start == at + |part| && SameOutside(before, written, start, end)
    requires Holds(written, start, more) && whole == part + more
    ensures Holds(written, at, whole)
  {
    HoldsOutside(before, written, start, end, at, part);
    HoldsAppended(written, at, part, more);
  }

  lemma BitsWritten(written: Buffer, after: Buffer, columnAt: nat, bitmapAt: nat, size: nat, done: seq<Batch>,
                    batch: Batch, field: nat)
    requires AllHaveColumn(done, field) && HasColumn(batch, field) && AllHaveColumn(done + [batch], field)
    requires Holds(written, columnAt, MergedColumn(done + [batch], field))
    requires columnAt + |MergedColumn(done + [batch], field)| <= bitmapAt
    requires SameOutside(written, after, bitmapAt, bitmapAt + size)
    requires Holds(after, bitmapAt, Pack(MergedBits(done, field) + Unpack(batch.validity[field], batch.count), size))
    ensures Filled(after, columnAt, bitmapAt, size, done + [batch], field)
  {
    HoldsOutside(written, after, bitmapAt, bitmapAt + size, columnAt, MergedColumn(done + [batch], field));
    MergedOneMore(done, batch, field);
  }

  lemma BothWider(a: Buffer, b: Buffer, start: nat, middle: nat, from: nat, end: nat, s: nat, m: nat)
    requires SameOutsideBoth(a, b, s, m, from, end) && start <= s && m <= middle <= from
    ensures SameOutsideBoth(a, b, start, middle, from, end)
  {
    assert forall i :: 0 <= i < |a| && !(start <= i < middle) && !(from <= i < end) ==> SameByte(a, b, i);
  }

  /** FillBatch for the next batch of a list. */
  method FillNext(data: array<Byte>, columnAt: nat, bitmapAt: nat, size: nat, batches: seq<Batch>, field: nat, k: nat,
                  rowOffset: nat, storageOffset: nat) returns (ok: bool)
    requires k < |batches| && |MergedStorage(batches)| < UINT32 && size == BitmapSize(Rows(batches))
    requires columnAt + Span(Width(field), Rows(batches)) <= bitmapAt && bitmapAt + size <= data.Length
    requires rowOffset == Rows(batches[..k]) && storageOffset == |MergedStorage(batches[..k])|
    requires HasColumn(batches[k], field) && AllHaveColumn(batches[..k], field)
    requires Filled(data[..], columnAt, bitmapAt, size, batches[..k], field)
    modifies data
    ensures ok == ReferencesFit(batches[k], field)
    ensures ok ==> AllHaveColumn(batches[..k + 1], field)
    ensures ok ==> Filled(data[..], columnAt, bitmapAt, size, batches[..k + 1], field)
    ensures SameOutsideBoth(old(data[..]), data[..], columnAt, columnAt + Span(Width(field), Rows(batches)),
                            bitmapAt, bitmapAt + size)
    ensures rowOffset + batches[k].count == Rows(batches[..k + 1])
    ensures storageOffset + |batches[k].storage| == |MergedStorage(batches[..k + 1])|
  {
    PrefixFits(batches, field, k);
    ok := FillBatch(data, columnAt, bitmapAt, size, batches[..k], batches[k], field, rowOffset, storageOffset);
    ghost var start := columnAt + Span(Width(field), rowOffset);
    BothWider(old(data[..]), data[..], columnAt, columnAt + Span(Width(field), Rows(batches)), bitmapAt, bitmapAt + size,
              start, start + Span(Width(field), batches[k].count));
  }

  ghost predicate AllFit(batches: seq<Batch>, field: nat, n: nat)
    requires AllHaveColumn(batches, field) && n <= |batches|
  {
    forall k :: 0 <= k < n ==> ReferencesFit(batches[k], field)
  }

  /** The buffer with the batches of one field copied; fails at the first batch with a reference that does not fit. */
  method FillField(data: array<Byte>, columnAt: nat, bitmapAt: nat, size: nat, batches: seq<Batch>, field: nat)
    returns (ok: bool)
    requires AllHaveColumn(batches, field) && |MergedStorage(batches)| < UINT32 && size == BitmapSize(Rows(batches))
    requires columnAt + Span(Width(field), Rows(batches)) <= bitmapAt && bitmapAt + size <= data.Length
    requires Holds(data[..], bitmapAt, Pack([], size))
    modifies data
    ensures ok == AllFit(batches, field, |batches|)
    ensures ok ==> Filled(data[..], columnAt, bitmapAt, size, batches, field)
    ensures SameOutsideBoth(old(data[..]), data[..], columnAt, columnAt + Span(Width(field), Rows(batches)),
                            bitmapAt, bitmapAt + size)
  {
    ghost var before, end := data[..], columnAt + Span(Width(field), Rows(batches));
    var rowOffset, storageOffset := 0, 0;
    for k := 0 to |batches|
      invariant rowOffset == Rows(batches[..k]) && storageOffset == |MergedStorage(batches[..k])|
      invariant AllFit(batches, field, k)
      invariant Filled(data[..], columnAt, bitmapAt, size, batches[..k], field)
      invariant SameOutsideBoth(before, data[..], columnAt, end, bitmapAt, bitmapAt + size)
    {
      ghost var previous := data[..];
      ok := FillNext(data, columnAt, bitmapAt, size, batches, field, k, rowOffset, storageOffset);
      BothChains(before, previous, data[..], columnAt, end, bitmapAt, bitmapAt + size);
      if !ok { return; }
      rowOffset := rowOffset + batches[k].count;
      storageOffset := storageOffset + |batches[k].storage|;
    }
    assert batches[..|batches|] == batches;
    ok := true;
  }

  lemma {:induction false} PrefixGrows(batches: seq<Batch>, width: nat, k: nat)
    requires k <= |batches|
    ensures Rows(batches[..k]) <= Rows(batches) && |MergedStorage(batches[..k])| <= |MergedStorage(batches)|
    ensures Span(width, Rows(batches[..k])) <= Span(width, Rows(batches))
  {
    if k < |batches| {
      PrefixGrows(Init(batches), width, k);
      assert Init(batches)[..k] == batches[..k];
      SpanAdds(width, Rows(Init(batches)), Last(batches).count);
    } else {
      assert batches[..k] == batches;
    }
  }

  /** The next batch still fits, and the batches up to it are one longer. */
  lemma PrefixFits(batches: seq<Batch>, field: nat, k: nat)
    requires k < |batches| && AllHaveColumn(batches[..k], field) && HasColumn(batches[k], field)
    ensures batches[..k] + [batches[k]] == batches[..k + 1]
    ensures Rows(batches[..k + 1]) == Rows(batches[..k]) + batches[k].count <= Rows(batches)
    ensures |MergedStorage(batches[..k + 1])| == |MergedStorage(batches[..k])| + |batches[k].storage| <= |MergedStorage(batches)|
    ensures Span(Width(field), Rows(batches[..k])) + Span(Width(field), batches[k].count) <= Span(Width(field), Rows(batches))
  {
    assert batches[..k] + [batches[k]] == batches[..k + 1];
    MergedOneMore(batches[..k], batches[k], field);
    PrefixGrows(batches, Width(field), k + 1);
  }

  // -- The whole block --------------------------------------------------------------------------------

  method WriteStorage(data: array<Byte>, batches: seq<Batch>)
    requires |MergedStorage(batches)| <= data.Length
    modifies data
    ensures Holds(data[..], 0, MergedStorage(batches))
    ensures SameOutside(old(data[..]), data[..], 0, |MergedStorage(batches)|)
  {
    ghost var before, end := data[..], |MergedStorage(batches)|;
    var offset := 0;
    for k := 0 to |batches|
      invariant offset == |MergedStorage(batches[..k])| <= end
      invariant Holds(data[..], 0, MergedStorage(batches[..k]))
      invariant SameOutside(before, data[..], 0, end)
    {
      ghost var previous := data[..];
      assert Init(batches[..k + 1]) == batches[..k];
      PrefixGrows(batches, 0, k + 1);
      Append(data, 0, MergedStorage(batches[..k]), offset, batches[k].storage);
      OutsideWithin(before, previous, data[..], 0, end, offset, offset + |batches[k].storage|);
      offset := offset + |batches[k].storage|;
    }
    assert batches[..|batches|] == batches;
  }

  method WriteChildren(data: array<Byte>, at: nat, children: seq<nat>)
    requires at + 4 * |children| <= data.Length && forall i :: 0 <= i < |children| ==> children[i] < UINT32
    modifies data
    ensures Holds(data[..], at, U32List(children))
    ensures SameOutside(old(data[..]), data[..], at, at + 4 * |children|)
  {
    ghost var before, end := data[..], at + 4 * |children|;
    for k := 0 to |children|
      invariant Holds(data[..], at, U32List(children[..k]))
      invariant SameOutside(before, data[..], at, end)
    {
      ghost var previous := data[..];
      assert Init(children[..k + 1]) == children[..k];
      Append(data, at, U32List(children[..k]), at + 4 * k, U32Bytes(children[k]));
      OutsideWithin(before, previous, data[..], at, end, at + 4 * k, at + 4 * k + 4);
    }
    assert children[..|children|] == children;
  }

  lemma {:induction false} JoinedGrows(fields: seq<nat>, parts: map<nat, Buffer>, j: nat)
    requires j < |fields| && forall f :: f in fields ==> f in parts
    ensures Joined(fields[..j + 1], parts) == Joined(fields[..j], parts) + parts[fields[j]]
    decreases j
  {
    assert fields[..j + 1][0] == fields[0];
    if j > 0 {
      JoinedGrows(fields[1..], parts, j - 1);
      assert fields[1..][..j] == fields[..j + 1][1..] && fields[1..][..j - 1] == fields[..j][1..];
    } else {
      assert fields[..1][1..] == [];
    }
  }

  /** Columns are laid out in field order, so the next one starts where those before it end. */
  lemma {:induction false} NextColumnStart(fields: seq<nat>, count: nat, j: nat)
    requires j < |fields| && forall a, b :: 0 <= a < b < |fields| ==> fields[a] != fields[b]
    ensures ColumnStart(fields, count, fields[j]) == ColumnsSize(fields[..j], count)
    ensures ValidityStart(fields, BitmapSize(count), fields[j]) == Span(BitmapSize(count), j)
    decreases j
  {
    if j > 0 {
      NextColumnStart(fields[1..], count, j - 1);
      assert fields[..j][1..] == fields[1..][..j - 1] && fields[..j][0] == fields[0];
    }
  }

  /** A buffer that is being filled: storage, the columns so far, the bitmaps so far, and zeros behind them. */
  ghost predicate Regions(data: Buffer, storage: Buffer, columns: Buffer, bitmapsAt: nat, bitmaps: Buffer) {
    && Holds(data, 0, storage) && Holds(data, |storage|, columns) && Holds(data, bitmapsAt, bitmaps)
    && |storage| + |columns| <= bitmapsAt
    && forall i :: bitmapsAt + |bitmaps| <= i < |data| ==> data[i] == 0
  }

  lemma RegionsGrow(before: Buffer, after: Buffer, storage: Buffer, columns: Buffer, bitmapsAt: nat, bitmaps: Buffer,
                    column: Buffer, bitmap: Buffer)
    requires Regions(before, storage, columns, bitmapsAt, bitmaps)
    requires var columnAt, bitmapAt := |storage| + |columns|, bitmapsAt + |bitmaps|;
             && columnAt + |column| <= bitmapsAt
             && SameOutsideBoth(before, after, columnAt, columnAt + |column|, bitmapAt, bitmapAt + |bitmap|)
             && Holds(after, columnAt, column) && Holds(after, bitmapAt, bitmap)
    ensures Regions(after, storage, columns + column, bitmapsAt, bitmaps + bitmap)
  {
    var columnAt, bitmapAt := |storage| + |columns|, bitmapsAt + |bitmaps|;
    var columnEnd, bitmapEnd := columnAt + |column|, bitmapAt + |bitmap|;
    HoldsOutsideBoth(before, after, columnAt, columnEnd, bitmapAt, bitmapEnd, 0, storage);
    HoldsOutsideBoth(before, after, columnAt, columnEnd, bitmapAt, bitmapEnd, |storage|, columns);
    HoldsOutsideBoth(before, after, columnAt, columnEnd, bitmapAt, bitmapEnd, bitmapsAt, bitmaps);
    HoldsAppended(after, |storage|, columns, column);
    HoldsAppended(after, bitmapsAt, bitmaps, bitmap);
    forall i | bitmapEnd <= i < |after| ensures after[i] == 0 { assert SameByte(before, after, i); }
  }

  ghost function BitmapsAt(batches: seq<Batch>, fields: seq<nat>): nat {
    |MergedStorage(batches)| + ColumnsSize(fields, Rows(batches))
  }

  /** Every batch has a column for each of the first `n` fields. */
  predicate Covers(batches: seq<Batch>, fields: seq<nat>, n: nat)
    requires n <= |fields|
  {
    forall j :: 0 <= j < n ==> AllHaveColumn(batches, fields[j])
  }

  ghost function ColumnsUpTo(batches: seq<Batch>, fields: seq<nat>, n: nat): (columns: Buffer)
    requires n <= |fields| && Covers(batches, fields, n)
  {
    if n == 0 then [] else ColumnsUpTo(batches, fields, n - 1) + MergedColumn(batches, fields[n - 1])
  }

  ghost function BitmapsUpTo(batches: seq<Batch>, fields: seq<nat>, n: nat): (bitmaps: Buffer)
    requires n <= |fields| && Covers(batches, fields, n)
    ensures |bitmaps| == Span(BitmapSize(Rows(batches)), n)
  {
    if n == 0 then [] else BitmapsUpTo(batches, fields, n - 1) + MergedValidity(batches, fields[n - 1])
  }

  /** The buffer when the first `n` fields have been filled. */
  ghost predicate FieldsFilled(data: Buffer, batches: seq<Batch>, fields: seq<nat>, n: nat)
    requires n <= |fields| && Covers(batches, fields, n)
  {
    Regions(data, MergedStorage(batches), ColumnsUpTo(batches, fields, n), BitmapsAt(batches, fields),
            BitmapsUpTo(batches, fields, n))
  }

  lemma {:induction false} UpToIsJoined(batches: seq<Batch>, fields: seq<nat>, n: nat)
    requires n <= |fields| && Covers(batches, fields, n)
    requires forall field :: field in fields ==> AllHaveColumn(batches, field)
    ensures ColumnsUpTo(batches, fields, n) == Joined(fields[..n], MergedColumns(batches, fields))
    ensures BitmapsUpTo(batches, fields, n) == Joined(fields[..n], MergedValidities(batches, fields))
  {
    if n > 0 {
      UpToIsJoined(batches, fields, n - 1);
      JoinedGrows(fields, MergedColumns(batches, fields), n - 1);
      JoinedGrows(fields, MergedValidities(batches, fields), n - 1);
    } else {
      assert fields[..0] == [];
    }
  }

  lemma {:induction false} SizeGrows(fields: seq<nat>, count: nat, j: nat)
    requires j < |fields|
    ensures ColumnsSize(fields[..j + 1], count) == ColumnsSize(fields[..j], count) + Span(Width(fields[j]), count)
    decreases j
  {
    assert fields[..j + 1][0] == fields[0];
    if j > 0 {
      SizeGrows(fields[1..], count, j - 1);
      assert fields[1..][..j] == fields[..j + 1][1..] && fields[1..][..j - 1] == fields[..j][1..];
    } else {
      assert fields[..1][1..] == [];
    }
  }

  lemma {:induction false} UpToSize(batches: seq<Batch>, fields: seq<nat>, n: nat)
    requires n <= |fields| && Covers(batches, fields, n)
    ensures |ColumnsUpTo(batches, fields, n)| == ColumnsSize(fields[..n], Rows(batches))
  {
    if n > 0 {
      UpToSize(batches, fields, n - 1);
      SizeGrows(fields, Rows(batches), n - 1);
    } else {
      assert fields[..0] == [];
    }
  }

  lemma ClearBitmap(data: Buffer, at: nat, size: nat)
    requires at + size <= |data| && forall i :: at <= i < |data| ==> data[i] == 0
    ensures Holds(data, at, Pack([], size))
  {
    forall i | 0 <= i < size ensures ByteHeld(data, at, Pack([], size), i) { PackedNothing(8 * i, 8); }
  }

  lemma {:induction false} PackedNothing(at: nat, n: nat)
    ensures Packed([], at, n) == 0
    decreases n
  {
    if n > 0 { PackedNothing(at + 1, n - 1); }
  }

  predicate AllPacked(batches: seq<Batch>, fields: seq<nat>) {
    forall k :: 0 <= k < |batches| ==> IsPacked(batches[k], fields)
  }

  lemma PackedHaveColumns(batches: seq<Batch>, fields: seq<nat>)
    requires AllPacked(batches, fields)
    ensures forall field :: field in fields ==> AllHaveColumn(batches, field)
    ensures Covers(batches, fields, |fields|)
  {
  }

  /** Where the next field goes: right behind the columns and the bitmaps so far. */
  lemma FieldPlace(length: nat, batches: seq<Batch>, fields: seq<nat>, j: nat)
    requires ValidFields(fields) && j < |fields| && Covers(batches, fields, j)
    requires BitmapsAt(batches, fields) + Span(BitmapSize(Rows(batches)), |fields|) <= length
    ensures var size, count := BitmapSize(Rows(batches)), Rows(batches);
            var columnAt := |MergedStorage(batches)| + ColumnStart(fields, count, fields[j]);
            var bitmapAt := BitmapsAt(batches, fields) + ValidityStart(fields, size, fields[j]);
            && columnAt == |MergedStorage(batches)| + |ColumnsUpTo(batches, fields, j)|
            && bitmapAt == BitmapsAt(batches, fields) + |BitmapsUpTo(batches, fields, j)|
            && columnAt + Span(Width(fields[j]), count) <= BitmapsAt(batches, fields) && bitmapAt + size <= length
  {
    var size, count := BitmapSize(Rows(batches)), Rows(batches);
    NextColumnStart(fields, count, j);
    ColumnInside(fields, count, fields[j]);
    ValidityInside(fields, size, fields[j]);
    UpToSize(batches, fields, j);
  }

  /** Fills the next field, right behind the columns and the bitmaps so far. */
  method FillFieldAt(data: array<Byte>, ghost storage: Buffer, ghost columns: Buffer, ghost bitmapsAt: nat, ghost bitmaps: Buffer,
                     columnAt: nat, bitmapAt: nat, size: nat, batches: seq<Batch>, field: nat) returns (ok: bool)
    requires AllHaveColumn(batches, field) && |MergedStorage(batches)| < UINT32 && size == BitmapSize(Rows(batches))
    requires Regions(data[..], storage, columns, bitmapsAt, bitmaps)
    requires columnAt == |storage| + |columns| && bitmapAt == bitmapsAt + |bitmaps|
    requires columnAt + Span(Width(field), Rows(batches)) <= bitmapsAt && bitmapAt + size <= data.Length
    modifies data
    ensures ok == AllFit(batches, field, |batches|)
    ensures ok ==> Regions(data[..], storage, columns + MergedColumn(batches, field), bitmapsAt,
                           bitmaps + MergedValidity(batches, field))
  {
    ghost var before := data[..];
    ClearBitmap(before, bitmapAt, size);
    ok := FillField(data, columnAt, bitmapAt, size, batches, field);
    if ok {
      RegionsGrow(before, data[..], storage, columns, bitmapsAt, bitmaps,
                  MergedColumn(batches, field), MergedValidity(batches, field));
    }
  }

  lemma UpToGrows(batches: seq<Batch>, fields: seq<nat>, j: nat)
    requires j < |fields| && Covers(batches, fields, j + 1)
    ensures ColumnsUpTo(batches, fields, j + 1) == ColumnsUpTo(batches, fields, j) + MergedColumn(batches, fields[j])
    ensures BitmapsUpTo(batches, fields, j + 1) == BitmapsUpTo(batches, fields, j) + MergedValidity(batches, fields[j])
  {
  }

  /** Every batch has the field, and its references stay inside the batch's storage. */
  ghost predicate FieldFits(batches: seq<Batch>, fields: seq<nat>, j: nat)
    requires j < |fields|
  {
    AllHaveColumn(batches, fields[j]) && AllFit(batches, fields[j], |batches|)
  }

  ghost predicate AllFieldsFit(batches: seq<Batch>, fields: seq<nat>, n: nat)
    requires n <= |fields|
  {
    forall j :: 0 <= j < n ==> FieldFits(batches, fields, j)
  }

  /** Fills one field after another; fails at the first with a reference that does not fit. */
  method FillFields(data: array<Byte>, batches: seq<Batch>, fields: seq<nat>, count: nat, storageSize: nat)
    returns (ok: bool)
    requires AllPacked(batches, fields) && Covers(batches, fields, |fields|) && ValidFields(fields)
    requires count == Rows(batches) && storageSize == |MergedStorage(batches)| < UINT32
    requires BitmapsAt(batches, fields) + Span(BitmapSize(count), |fields|) <= data.Length
    requires FieldsFilled(data[..], batches, fields, 0)
    modifies data
    ensures ok == AllFieldsFit(batches, fields, |fields|)
    ensures ok ==> FieldsFilled(data[..], batches, fields, |fields|)
  {
    for j := 0 to |fields|
      invariant FieldsFilled(data[..], batches, fields, j) && AllFieldsFit(batches, fields, j)
    {
      FieldPlace(data.Length, batches, fields, j);
      var columnAt := storageSize + ColumnStart(fields, count, fields[j]);
      var bitmapAt := storageSize + ColumnsSize(fields, count) + ValidityStart(fields, BitmapSize(count), fields[j]);
      ok := FillFieldAt(data, MergedStorage(batches), ColumnsUpTo(batches, fields, j), BitmapsAt(batches, fields),
                        BitmapsUpTo(batches, fields, j), columnAt, bitmapAt, BitmapSize(count), batches, fields[j]);
      UpToGrows(batches, fields, j);
      if !ok {
        assert !FieldFits(batches, fields, j);
        return;
      }
    }
    ok := true;
  }

  // -- Validation -------------------------------------------------------------------------------------

  /** `seen[row / 8] |= 1 << (row % 8)`. */
  method Mark(seen: array<Byte>, row: nat)
    requires row / 8 < seen.Length
    modifies seen
    ensures forall other :: 0 <= other && other / 8 < seen.Length ==>
              (Bit(seen[..], other) <==> other == row || Bit(old(seen[..]), other))
  {
    seen[row / 8] := SetBit(seen[row / 8], row % 8);
    forall other | 0 <= other && other / 8 < seen.Length
      ensures Bit(seen[..], other) <==> other == row || Bit(old(seen[..]), other)
    {
      WithBitSetsOne(old(seen[..])[row / 8], row % 8, other % 8);
    }
  }

  /** Checks the child rows, with a bitmap of those seen so far. */
  method ValidateChildren(batch: Batch, fields: seq<nat>, children: seq<nat>) returns (ok: bool)
    requires HasFields(batch, fields)
    ensures ok == ValidChildren(batch, fields, children)
  {
    var seen := new Byte[BitmapSize(batch.count)](_ => 0);
    forall row: nat | row < batch.count ensures !Bit(seen[..], row) { NoBitIsSet(row % 8); }
    for i := 0 to |children|
      invariant ValidChildren(batch, fields, children[..i])
      invariant forall row: nat :: row < batch.count ==> (Bit(seen[..], row) <==> row in children[..i])
    {
      var row := children[i];
      if !NamesADirectory(batch, fields, row) { return false; }
      if Bit(seen[..], row) { return false; }
      Mark(seen, row);
    }
    assert children[..|children|] == children;
    ok := true;
  }

  method ValidateBlock(block: Block, fields: seq<nat>) returns (ok: bool)
    requires FitsLayout(block, fields) && ValidFields(fields)
    ensures ok == ValidBlock(block, fields)
  {
    var batch := StoredBatch(block, fields);
    ok := ValidateChildren(batch, fields, ChildRows(block, fields, block.childCount));
    if !ok { return; }
    ok := ValidateNames(batch);
  }

  method ValidateNames(batch: Batch) returns (ok: bool)
    requires HasColumn(batch, NAME)
    ensures ok == ValidNames(batch, batch.count)
  {
    for row := 0 to batch.count
      invariant ValidNames(batch, row)
    {
      if !ValidName(batch, row) { return false; }
    }
    ok := true;
  }

  // -- The builders -----------------------------------------------------------------------------------

  datatype BuildResult = Built(block: Block) | InvalidBlock | NoMemory

  /** The totals fit 32 bits. */
  predicate Countable(batches: seq<Batch>, children: seq<nat>) {
    && Rows(batches) < UINT32 && |MergedStorage(batches)| < UINT32 && |children| < UINT32
    && forall i :: 0 <= i < |children| ==> children[i] < UINT32
  }

  /** The shape of every batch and the limits on their totals. */
  predicate Acceptable(batches: seq<Batch>, fields: seq<nat>, children: seq<nat>) {
    AllPacked(batches, fields) && Countable(batches, children)
  }

  /** The block the batches consolidate into, unless its validation finds no memory or refuses it. */
  ghost function Validated(batches: seq<Batch>, fields: seq<nat>, children: seq<nat>, seenMemory: bool): BuildResult
    requires ValidFields(fields) && CanConsolidate(batches, fields, children)
  {
    ConsolidatedIsLaidOut(batches, fields, children);
    var block := Consolidated(batches, fields, children);
    if children != [] && !seenMemory then NoMemory
    else if ValidBlock(block, fields) then Built(block)
    else InvalidBlock
  }

  /** What the builder of the term list must return: the consolidated block if it is allowed to, and why not otherwise. */
  ghost function Expected(batches: seq<Batch>, fields: seq<nat>, children: seq<nat>, memory: bool, seenMemory: bool): BuildResult
    requires ValidFields(fields)
  {
    if !Acceptable(batches, fields, children) then InvalidBlock
    else if !memory then NoMemory
    else if !AllFieldsFit(batches, fields, |fields|) then InvalidBlock
    else
      PackedHaveColumns(batches, fields);
      Validated(batches, fields, children, seenMemory)
  }

  lemma FourPieces(data: Buffer, a: Buffer, b: Buffer, c: Buffer, d: Buffer)
    requires Holds(data, 0, a) && Holds(data, |a|, b) && Holds(data, |a| + |b|, c) && Holds(data, |a| + |b| + |c|, d)
    requires |data| == |a| + |b| + |c| + |d|
    ensures data == a + b + c + d
  {
    HoldsAppended(data, 0, a, b);
    HoldsAppended(data, 0, a + b, c);
    HoldsAppended(data, 0, a + b + c, d);
    HeldSlice(data, 0, |data|, a + b + c + d);
  }

  /** The batch list is read once to check it and add up its sizes; the first total over 32 bits ends it. */
  method Measure(batches: seq<Batch>, fields: seq<nat>) returns (ok: bool, count: nat, storageSize: nat)
    ensures ok == (AllPacked(batches, fields) && Rows(batches) < UINT32 && |MergedStorage(batches)| < UINT32)
    ensures ok ==> count == Rows(batches) && storageSize == |MergedStorage(batches)|
  {
    count, storageSize := 0, 0;
    for k := 0 to |batches|
      invariant count == Rows(batches[..k]) < UINT32 && storageSize == |MergedStorage(batches[..k])| < UINT32
      invariant AllPacked(batches[..k], fields)
    {
      assert Init(batches[..k + 1]) == batches[..k];
      PrefixGrows(batches, 0, k + 1);
      if !IsPacked(batches[k], fields) { return false, 0, 0; }
      count := count + batches[k].count;
      storageSize := storageSize + |batches[k].storage|;
      if count >= UINT32 || storageSize >= UINT32 { return false, 0, 0; }
    }
    assert batches[..|batches|] == batches;
    ok := true;
  }

  /** A zeroed buffer with the storages copied to its front. */
  method Prepare(batches: seq<Batch>, length: nat) returns (data: array<Byte>)
    requires |MergedStorage(batches)| <= length
    ensures fresh(data) && data.Length == length && Holds(data[..], 0, MergedStorage(batches))
    ensures forall i :: |MergedStorage(batches)| <= i < length ==> data[i] == 0
  {
    data := new Byte[length](_ => 0);
    ghost var zeros, size := data[..], |MergedStorage(batches)|;
    WriteStorage(data, batches);
    forall i | size <= i < length ensures data[i] == 0 { assert SameByte(zeros, data[..], i); }
  }

  /** The buffer of a block, zeroed and then filled in place. */
  method Fill(batches: seq<Batch>, fields: seq<nat>, children: seq<nat>, count: nat, storageSize: nat)
    returns (ok: bool, data: array<Byte>)
    requires Acceptable(batches, fields, children) && ValidFields(fields)
    requires count == Rows(batches) && storageSize == |MergedStorage(batches)|
    ensures fresh(data)
    ensures Covers(batches, fields, |fields|) && ok == AllFieldsFit(batches, fields, |fields|)
    ensures ok ==> CanConsolidate(batches, fields, children) && data[..] == Consolidated(batches, fields, children).data
  {
    PackedHaveColumns(batches, fields);
    var end := storageSize + ColumnsSize(fields, count) + Span(BitmapSize(count), |fields|);
    data := Prepare(batches, end + 4 * |children|);
    ok := FillFields(data, batches, fields, count, storageSize);
    if ok { Finish(data, batches, fields, children, end); }
  }

  lemma FinishedIsConsolidated(before: Buffer, after: Buffer, batches: seq<Batch>, fields: seq<nat>, children: seq<nat>, end: nat)
    requires Covers(batches, fields, |fields|) && CanConsolidate(batches, fields, children)
    requires FieldsFilled(before, batches, fields, |fields|)
    requires end == BitmapsAt(batches, fields) + Span(BitmapSize(Rows(batches)), |fields|) && |after| == end + 4 * |children|
    requires Holds(after, end, U32List(children)) && SameOutside(before, after, end, |after|)
    ensures after == Consolidated(batches, fields, children).data
  {
    ConsolidatedData(batches, fields, children);
    ChildrenAppended(before, after, MergedStorage(batches), ColumnsUpTo(batches, fields, |fields|),
                     BitmapsUpTo(batches, fields, |fields|), U32List(children), BitmapsAt(batches, fields), end,
                     Consolidated(batches, fields, children).data);
  }

  method Finish(data: array<Byte>, batches: seq<Batch>, fields: seq<nat>, children: seq<nat>, end: nat)
    requires Covers(batches, fields, |fields|) && CanConsolidate(batches, fields, children)
    requires FieldsFilled(data[..], batches, fields, |fields|)
    requires end == BitmapsAt(batches, fields) + Span(BitmapSize(Rows(batches)), |fields|) && data.Length == end + 4 * |children|
    modifies data
    ensures data[..] == Consolidated(batches, fields, children).data
  {
    ghost var before := data[..];
    WriteChildren(data, end, children);
    FinishedIsConsolidated(before, data[..], batches, fields, children, end);
  }

  lemma ChildrenAppended(before: Buffer, after: Buffer, storage: Buffer, columns: Buffer, bitmaps: Buffer,
                         children: Buffer, bitmapsAt: nat, end: nat, whole: Buffer)
    requires Regions(before, storage, columns, bitmapsAt, bitmaps) && bitmapsAt == |storage| + |columns|
    requires end == bitmapsAt + |bitmaps| && |after| == end + |children|
    requires whole == storage + columns + bitmaps + children
    requires Holds(after, end, children) && SameOutside(before, after, end, |after|)
    ensures after == whole
  {
    HoldsOutside(before, after, end, |after|, 0, storage);
    HoldsOutside(before, after, end, |after|, |storage|, columns);
    HoldsOutside(before, after, end, |after|, |storage| + |columns|, bitmaps);
    FourPieces(after, storage, columns, bitmaps, children);
  }

  lemma ConsolidatedData(batches: seq<Batch>, fields: seq<nat>, children: seq<nat>)
    requires Covers(batches, fields, |fields|) && CanConsolidate(batches, fields, children)
    ensures Consolidated(batches, fields, children).data
            == MergedStorage(batches) + ColumnsUpTo(batches, fields, |fields|) + BitmapsUpTo(batches, fields, |fields|)
               + U32List(children)
    ensures |ColumnsUpTo(batches, fields, |fields|)| == ColumnsSize(fields, Rows(batches))
  {
    assert fields[..|fields|] == fields;
    UpToIsJoined(batches, fields, |fields|);
    UpToSize(batches, fields, |fields|);
  }

  /** Allocates the bitmap of the rows seen so far, if there are children, and validates the block that was written. */
  method Validate(block: Block, batches: seq<Batch>, fields: seq<nat>, children: seq<nat>, seenMemory: bool)
    returns (result: BuildResult)
    requires ValidFields(fields) && CanConsolidate(batches, fields, children)
    requires block == Consolidated(batches, fields, children)
    ensures result == Validated(batches, fields, children, seenMemory)
  {
    ConsolidatedIsLaidOut(batches, fields, children);
    if block.childCount > 0 && !seenMemory { return NoMemory; }
    var ok := ValidateBlock(block, fields);
    result := if ok then Built(block) else InvalidBlock;
  }

  /** The builder of a list of batch terms, each of which is inspected before anything is allocated. */
  method Build(batches: seq<Batch>, fields: seq<nat>, children: seq<nat>, memory: bool, seenMemory: bool)
    returns (result: BuildResult)
    requires ValidFields(fields) && forall i :: 0 <= i < |children| ==> children[i] < UINT32
    ensures result == Expected(batches, fields, children, memory, seenMemory)
  {
    var ok, count, storageSize := Measure(batches, fields);
    if !ok || |children| >= UINT32 { return InvalidBlock; }
    if !memory { return NoMemory; }
    var data;
    ok, data := Fill(batches, fields, children, count, storageSize);
    if !ok { return InvalidBlock; }
    result := Validate(Block(count, storageSize, |children|, data[..]), batches, fields, children, seenMemory);
  }

  lemma AcceptedIsBuildable(batches: seq<Batch>, fields: seq<nat>, children: seq<nat>)
    requires Acceptable(batches, fields, children) && Covers(batches, fields, |fields|) && AllFieldsFit(batches, fields, |fields|)
    ensures Buildable(batches, fields, children)
  {
    PackedHaveColumns(batches, fields);
    forall k, field | 0 <= k < |batches| && field in fields ensures ReferencesFit(batches[k], field) {
      var j :| 0 <= j < |fields| && fields[j] == field;
      assert FieldFits(batches, fields, j);
    }
  }

  lemma BuiltIsConsolidated(batches: seq<Batch>, fields: seq<nat>, children: seq<nat>, memory: bool, seenMemory: bool)
    requires ValidFields(fields) && Expected(batches, fields, children, memory, seenMemory).Built?
    ensures Buildable(batches, fields, children) && FitsLayout(Consolidated(batches, fields, children), fields)
    ensures Expected(batches, fields, children, memory, seenMemory).block == Consolidated(batches, fields, children)
    ensures ValidBlock(Consolidated(batches, fields, children), fields)
  {
    PackedHaveColumns(batches, fields);
    AcceptedIsBuildable(batches, fields, children);
    ConsolidatedIsLaidOut(batches, fields, children);
  }

  /** When a builder succeeds, every field of every row reads from the block as it does from its batch. */
  lemma BuiltPreservesMeaning(batches: seq<Batch>, fields: seq<nat>, children: seq<nat>, memory: bool, seenMemory: bool,
                              field: nat, k: nat, i: nat)
    requires ValidFields(fields) && Expected(batches, fields, children, memory, seenMemory).Built?
    requires field in fields && k < |batches| && i < batches[k].count
    ensures var block, row := Expected(batches, fields, children, memory, seenMemory).block, BlockRow(batches, k, i);
            && FitsLayout(block, fields) && row < block.count && HasColumn(batches[k], field)
            && Value(StoredBatch(block, fields), field, row) == Value(batches[k], field, i)
  {
    BuiltIsConsolidated(batches, fields, children, memory, seenMemory);
    ConsolidationPreservesMeaning(batches, fields, children, field, k, i);
  }

  /** And the block can be published: its children are distinct rows of it. */
  lemma BuiltIsPublishable(batches: seq<Batch>, fields: seq<nat>, children: seq<nat>, memory: bool, seenMemory: bool)
    requires ValidFields(fields) && Expected(batches, fields, children, memory, seenMemory).Built?
    ensures var block := Expected(batches, fields, children, memory, seenMemory).block;
            block.count == Rows(batches) && ValidChildRows(block.count, children)
  {
    BuiltIsConsolidated(batches, fields, children, memory, seenMemory);
    ValidBlockIsPublishable(batches, fields, children);
  }
}
