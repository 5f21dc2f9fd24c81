/**
  Bulk attribute records, decoded twice: directly into an entry, and into packed cells that are decoded later.
 */
module Entries {
  import opened Bytes
  import opened Blocks
  import opened Options
  import opened StoreModel
  import opened Words

  // -- Fields -----------------------------------------------------------------------------------------

  const DEVICE: nat := 5
  const FILESYSTEM_ID: nat := 6
  const FORK_COUNT: nat := 32
  const REAL_DEVICE: nat := 41
  const REAL_FILESYSTEM_ID: nat := 42

  predicate IsUnsigned64(field: nat) {
    7 <= field <= 8 || field == 40 || 43 <= field <= 46
  }

  predicate IsSigned64(field: nat) {
    28 <= field <= 29 || 33 <= field <= 36 || field == 39
  }

  /** The order of attributes in a record: before the type, behind it, and per kind of object. */
  const BEFORE_TYPE: seq<nat> := [DEVICE, FILESYSTEM_ID]
  const AFTER_TYPE: seq<nat> := [3, 9, 10, 11, 12, 13, 20, 15, 16, 17, 18, 25, 26, 19, ACL, 21, 22, 7, 8, 14, 24]
  const OF_DIRECTORIES: seq<nat> := [27, 37, 38, 29, 30, 33]
  const OF_FILES: seq<nat> := [27, 28, 29, 30, 31, FORK_COUNT, 33, 34, 35, 36]
  const OF_FORKS: seq<nat> := [39, 40, REAL_DEVICE, REAL_FILESYSTEM_ID, 43, 44, 45, 46, 47]

  /** Bytes of an attribute in a record. */
  function RecordSize(field: nat): nat {
    if field == TYPE || field == DEVICE || field == REAL_DEVICE || field == FORK_COUNT then 4 else Width(field)
  }

  // -- Requests ---------------------------------------------------------------------------------------

  datatype Group = Common | Directories | Files | Forks

  datatype Attribute = Attribute(group: Group, field: nat)

  /** What was asked for; `bit` is the platform's numbering of attributes within their group. */
  datatype Cursor = Cursor(requested: set<nat>, attributes: set<Attribute>, bit: Attribute -> nat)

  /** The attributes that a field asks the kernel for. */
  function Needed(field: nat): set<Attribute> {
    if field == NAME || field == ERROR || field == RETURNED_ATTRIBUTES then {}
    else if field == 27 || field == 29 || field == 30 || field == 33 then {Attribute(Directories, field), Attribute(Files, field)}
    else if field == 37 || field == 38 then {Attribute(Directories, field)}
    else if field == 28 || field == 31 || 34 <= field <= 36 then {Attribute(Files, field)}
    else if 39 <= field <= 47 then {Attribute(Forks, field)}
    else {Attribute(Common, field)}
  }

  function Configured(fields: seq<nat>, bit: Attribute -> nat): Option<Cursor> {
    match AddFields(fields, Cursor({NAME, ERROR, RETURNED_ATTRIBUTES}, Always(), bit))
    case None => None
    case Some(cursor) =>
      Some(if HasGroup(cursor, Directories) || HasGroup(cursor, Files)
           then cursor.(attributes := cursor.attributes + {Attribute(Common, TYPE)}) else cursor)
  }

  function Always(): set<Attribute> {
    {Attribute(Common, RETURNED_ATTRIBUTES), Attribute(Common, NAME), Attribute(Common, ERROR)}
  }

  predicate HasGroup(cursor: Cursor, group: Group) {
    exists attribute :: attribute in cursor.attributes && attribute.group == group
  }

  function AddFields(fields: seq<nat>, cursor: Cursor): Option<Cursor> {
    if fields == [] then Some(cursor)
    else if fields[0] == 0 || fields[0] == FORK_COUNT || fields[0] >= FIELD_COUNT then None
    else AddFields(fields[1..], cursor.(requested := cursor.requested + {fields[0]},
                                        attributes := cursor.attributes + Needed(fields[0])))
  }

  /** Every attribute asked for belongs to a requested field, but for the type, which tells directories from files. */
  ghost predicate Consistent(cursor: Cursor) {
    && {NAME, ERROR, RETURNED_ATTRIBUTES} <= cursor.requested
    && (forall attribute :: attribute in cursor.attributes ==>
          attribute == Attribute(Common, TYPE) || (attribute.field in cursor.requested && attribute.field != FORK_COUNT))
    && (forall field :: field in cursor.requested ==> Width(field) > 0)
  }

  lemma {:induction false} AddFieldsIsConsistent(fields: seq<nat>, cursor: Cursor)
    requires Consistent(cursor)
    ensures AddFields(fields, cursor).Some? ==> Consistent(AddFields(fields, cursor).value)
    ensures AddFields(fields, cursor).Some? ==> AddFields(fields, cursor).value.bit == cursor.bit
  {
    if fields != [] && fields[0] != 0 && fields[0] != FORK_COUNT && fields[0] < FIELD_COUNT {
      AddFieldsIsConsistent(fields[1..], cursor.(requested := cursor.requested + {fields[0]},
                                                 attributes := cursor.attributes + Needed(fields[0])));
    }
  }

  /** A configuration asks for what its fields need, never for the fork count. */
  lemma ConfiguredIsConsistent(fields: seq<nat>, bit: Attribute -> nat)
    ensures Configured(fields, bit).Some? ==> Consistent(Configured(fields, bit).value)
  {
    AddFieldsIsConsistent(fields, Cursor({NAME, ERROR, RETURNED_ATTRIBUTES}, Always(), bit));
  }

  // -- Returned attributes ----------------------------------------------------------------------------

  /** Where the bitmap of a group is in the returned set: common, volume, directory, file and fork attributes. */
  function GroupAt(group: Group): nat {
    match group
    case Common => 4
    case Directories => 12
    case Files => 16
    case Forks => 20
  }

  predicate WasReturned(cursor: Cursor, record: Buffer, attribute: Attribute)
    requires |record| >= 24
  {
    BitOf(ReadU32(record, GroupAt(attribute.group)), cursor.bit(attribute))
  }

  predicate KnownBit(cursor: Cursor, group: Group, k: nat) {
    exists attribute :: attribute in cursor.attributes && attribute.group == group && cursor.bit(attribute) == k
  }

  predicate OnlyRequested(cursor: Cursor, record: Buffer, group: Group)
    requires |record| >= 24
  {
    forall k :: 0 <= k < 32 && BitOf(ReadU32(record, GroupAt(group)), k) ==> KnownBit(cursor, group, k)
  }

  predicate ValidReturned(cursor: Cursor, record: Buffer)
    requires |record| >= 24
  {
    && ReadU32(record, 8) == 0
    && OnlyRequested(cursor, record, Common) && OnlyRequested(cursor, record, Directories)
    && OnlyRequested(cursor, record, Files) && OnlyRequested(cursor, record, Forks)
  }

  /** The bitmaps kept as a value: all but the volume attributes. */
  function ReturnedSet(record: Buffer): (bytes: Buffer)
    requires |record| >= 24
    ensures |bytes| == 16
  {
    record[4..8] + record[12..24]
  }

  // -- References -------------------------------------------------------------------------------------

  datatype Slice = Slice(start: nat, size: nat)

  /** The bytes that the reference at `at` names, within the record; names lose one trailing NUL. */
  function Referenced(record: Buffer, at: nat, trim: bool): Option<Slice>
    requires at + 8 <= |record|
    ensures Referenced(record, at, trim).Some? ==>
              Referenced(record, at, trim).value.start + Referenced(record, at, trim).value.size <= |record|
  {
    var offset, size := Signed32(ReadU32(record, at)), ReadU32(record, at + 4);
    if offset < 0 || at + offset > |record| || size > |record| - (at + offset) then None
    else if trim && size > 0 && record[at + offset + size - 1] == 0 then Some(Slice(at + offset, size - 1))
    else Some(Slice(at + offset, size))
  }

  // -- Terms ------------------------------------------------------------------------------------------

  datatype Kind = Regular | Directory | Symlink | BlockDevice | CharacterDevice | Socket | Fifo | Unknown

  datatype Term =
    | Number(value: int)
    | Pair(first: int, second: int)
    | Quad(common: nat, directory: nat, file: nat, fork: nat)
    | Binary(bytes: Buffer)
    | Type(kind: Kind)
    | Errno(number: int)


  function ReadU64(bytes: Buffer, at: nat): nat
    requires at + 8 <= |bytes|
  {
    ReadU32(bytes, at) + UINT32 * ReadU32(bytes, at + 4)
  }

  function Signed64(n: nat): int {
    if n < UINT64 / 2 then n else n - UINT64
  }

  function FourWords(bytes: Buffer): Term
    requires |bytes| == 16
  {
    Quad(ReadU32(bytes, 0), ReadU32(bytes, 4), ReadU32(bytes, 8), ReadU32(bytes, 12))
  }

  // The platform's numbering of object types.
  const VREG: nat := 1
  const VDIR: nat := 2
  const VBLK: nat := 3
  const VCHR: nat := 4
  const VLNK: nat := 5
  const VSOCK: nat := 6
  const VFIFO: nat := 7

  function KindOf(objectType: nat): Kind {
    if objectType == VREG then Regular
    else if objectType == VDIR then Directory
    else if objectType == VBLK then BlockDevice
    else if objectType == VCHR then CharacterDevice
    else if objectType == VLNK then Symlink
    else if objectType == VSOCK then Socket
    else if objectType == VFIFO then Fifo
    else Unknown
  }

  function TypeCode(objectType: nat): Byte {
    if objectType == VREG then 1
    else if objectType == VDIR then 2
    else if objectType == VLNK then 3
    else if objectType == VBLK then 4
    else if objectType == VCHR then 5
    else if objectType == VSOCK then 6
    else if objectType == VFIFO then 7
    else 0
  }

  function KindOfCode(code: Byte): Kind {
    if code == 1 then Regular
    else if code == 2 then Directory
    else if code == 3 then Symlink
    else if code == 4 then BlockDevice
    else if code == 5 then CharacterDevice
    else if code == 6 then Socket
    else if code == 7 then Fifo
    else Unknown
  }

  // -- The direct decoder -----------------------------------------------------------------------------

  /** The term of a fixed-size attribute. */
  function FixedTerm(field: nat, bytes: Buffer): Term
    requires |bytes| == RecordSize(field)
  {
    if field == TYPE then Type(KindOf(ReadU32(bytes, 0)))
    else if field == DEVICE || field == REAL_DEVICE || field == FORK_COUNT || IsU32(field) then Number(ReadU32(bytes, 0))
    else if field == FILESYSTEM_ID || field == REAL_FILESYSTEM_ID
    then Pair(Signed32(ReadU32(bytes, 0)), Signed32(ReadU32(bytes, 4)))
    else if 9 <= field <= 14 then Pair(Signed64(ReadU64(bytes, 0)), Signed64(ReadU64(bytes, 8)))
    else if IsUnsigned64(field) then Number(ReadU64(bytes, 0))
    else if IsSigned64(field) then Number(Signed64(ReadU64(bytes, 0)))
    else Binary(bytes)
  }

  datatype Progress<T> = Rejected | At(next: nat, values: T)

  /** An attribute that was asked for takes its place in the record, but has a value only if it was returned. */
  function DirectField(cursor: Cursor, record: Buffer, group: Group, field: nat, so: Progress<map<nat, Term>>)
    : Progress<map<nat, Term>>
    requires |record| >= 24
  {
    if so.Rejected? || Attribute(group, field) !in cursor.attributes then so
    else if so.next + RecordSize(field) > |record| then Rejected
    else
      var next := so.next + RecordSize(field);
      if !WasReturned(cursor, record, Attribute(group, field)) then so.(next := next)
      else if field == ACL then
        match Referenced(record, so.next, false)
        case None => Rejected
        case Some(slice) => At(next, so.values[field := Binary(record[slice.start..slice.start + slice.size])])
      else if field == TYPE && TYPE !in cursor.requested then so.(next := next)
      else At(next, so.values[field := FixedTerm(field, record[so.next..next])])
  }

  function DirectFields(cursor: Cursor, record: Buffer, group: Group, fields: seq<nat>, so: Progress<map<nat, Term>>)
    : Progress<map<nat, Term>>
    requires |record| >= 24
  {
    if fields == [] then so
    else DirectField(cursor, record, group, fields[|fields| - 1],
                     DirectFields(cursor, record, group, fields[..|fields| - 1], so))
  }

  /** The object type in the record, whether or not it was returned; 0 stands for none. */
  function ObjectType(cursor: Cursor, record: Buffer, at: nat): nat {
    if Attribute(Common, TYPE) in cursor.attributes && at + 4 <= |record| then ReadU32(record, at) else 0
  }

  /** Directory and file attributes can only be told apart by a type that was returned. */
  predicate TypeMissing(cursor: Cursor, record: Buffer)
    requires |record| >= 24
  {
    && (HasGroup(cursor, Directories) || HasGroup(cursor, Files))
    && !(Attribute(Common, TYPE) in cursor.attributes && WasReturned(cursor, record, Attribute(Common, TYPE)))
  }

  /** The header that both decoders read: returned attributes, error, and the name's reference. */
  predicate HeaderHolds(cursor: Cursor, record: Buffer) {
    |record| >= 36 && ValidReturned(cursor, record)
    && (WasReturned(cursor, record, Attribute(Common, NAME)) ==> Referenced(record, 28, true).Some?)
    && (ReadU32(record, 24) == 0 ==> WasReturned(cursor, record, Attribute(Common, NAME)))
  }

  function DirectHeader(cursor: Cursor, record: Buffer): map<nat, Term>
    requires HeaderHolds(cursor, record)
  {
    var error := ReadU32(record, 24);
    (if error != 0 then map[ERROR := Errno(Signed32(error))] else map[])
    + (if WasReturned(cursor, record, Attribute(Common, NAME))
       then var name := Referenced(record, 28, true).value;
            map[NAME := Binary(record[name.start..name.start + name.size])]
       else map[])
    + map[RETURNED_ATTRIBUTES := FourWords(ReturnedSet(record))]
  }

  function DirectBody(cursor: Cursor, record: Buffer, so: Progress<map<nat, Term>>): Progress<map<nat, Term>>
    requires |record| >= 24
  {
    var front := DirectFields(cursor, record, Common, BEFORE_TYPE, so);
    var typed := DirectField(cursor, record, Common, TYPE, front);
    if typed.Rejected? || TypeMissing(cursor, record) then Rejected
    else
      DirectTail(cursor, record, ObjectType(cursor, record, front.next) == VDIR, typed)
  }

  function DirectTail(cursor: Cursor, record: Buffer, isDirectory: bool, so: Progress<map<nat, Term>>)
    : Progress<map<nat, Term>>
    requires |record| >= 24
  {
    DirectFields(cursor, record, Forks, OF_FORKS,
      DirectFields(cursor, record, if isDirectory then Directories else Files,
                   if isDirectory then OF_DIRECTORIES else OF_FILES,
        DirectFields(cursor, record, Common, AFTER_TYPE, so)))
  }

  /** An entry from a record: absent fields are nil. A record with an error has no fields past its name. */
  function DirectEntry(cursor: Cursor, record: Buffer): Option<map<nat, Term>> {
    if !HeaderHolds(cursor, record) then None
    else if ReadU32(record, 24) != 0 then Some(DirectHeader(cursor, record))
    else match DirectBody(cursor, record, At(36, DirectHeader(cursor, record)))
      case Rejected => None
      case At(_, values) => Some(values)
  }

  // -- The packed decoder -----------------------------------------------------------------------------

  type Cells = map<nat, Buffer>

  /** The cell of a fixed-size attribute: devices are widened, types become one byte, the fork count is dropped. */
  function FixedCell(field: nat, bytes: Buffer): Buffer
    requires |bytes| == RecordSize(field)
  {
    if field == TYPE then [TypeCode(ReadU32(bytes, 0))]
    else if field == DEVICE || field == REAL_DEVICE then bytes + [0, 0, 0, 0]
    else if field == FORK_COUNT then []
    else bytes
  }

  /** Only cells of the right width go into a column, and only if the field has one. */
  function Put(cursor: Cursor, cells: Cells, field: nat, cell: Buffer): Cells {
    if field in cursor.requested && |cell| == Width(field) then cells[field := cell] else cells
  }

  /** A reference, moved from the record to the buffer that holds it at `base`; it must fit two 32-bit numbers. */
  function ReferenceCell(base: nat, slice: Slice): Option<Buffer> {
    if base + slice.start >= UINT32 || slice.size >= UINT32 then None
    else Some(U32Bytes(base + slice.start) + U32Bytes(slice.size))
  }

  function PackedField(cursor: Cursor, record: Buffer, base: nat, group: Group, field: nat, so: Progress<Cells>)
    : Progress<Cells>
    requires |record| >= 24
  {
    if so.Rejected? || Attribute(group, field) !in cursor.attributes then so
    else if so.next + RecordSize(field) > |record| then Rejected
    else
      var next := so.next + RecordSize(field);
      if !WasReturned(cursor, record, Attribute(group, field)) then so.(next := next)
      else if field == ACL then
        match Referenced(record, so.next, false)
        case None => Rejected
        case Some(slice) =>
          match ReferenceCell(base, slice)
          case None => Rejected
          case Some(cell) => At(next, Put(cursor, so.values, field, cell))
      else At(next, Put(cursor, so.values, field, FixedCell(field, record[so.next..next])))
  }

  function PackedFields(cursor: Cursor, record: Buffer, base: nat, group: Group, fields: seq<nat>, so: Progress<Cells>)
    : Progress<Cells>
    requires |record| >= 24
  {
    if fields == [] then so
    else PackedField(cursor, record, base, group, fields[|fields| - 1],
                     PackedFields(cursor, record, base, group, fields[..|fields| - 1], so))
  }

  /** The cells written for the header, or none when the name's reference does not fit. */
  function PackedHeader(cursor: Cursor, record: Buffer, base: nat): Option<Cells>
    requires HeaderHolds(cursor, record)
  {
    var error := ReadU32(record, 24);
    var cells := map[RETURNED_ATTRIBUTES := ReturnedSet(record)];
    var cells := if error != 0 then cells[ERROR := U32Bytes(error)] else cells;
    if !WasReturned(cursor, record, Attribute(Common, NAME)) then Some(cells)
    else match ReferenceCell(base, Referenced(record, 28, true).value)
      case None => None
      case Some(cell) => Some(cells[NAME := cell])
  }

  function PackedBody(cursor: Cursor, record: Buffer, base: nat, so: Progress<Cells>): Progress<Cells>
    requires |record| >= 24
  {
    var front := PackedFields(cursor, record, base, Common, BEFORE_TYPE, so);
    var typed := PackedField(cursor, record, base, Common, TYPE, front);
    if typed.Rejected? || TypeMissing(cursor, record) then Rejected
    else
      PackedTail(cursor, record, base, ObjectType(cursor, record, front.next) == VDIR, typed)
  }

  function PackedTail(cursor: Cursor, record: Buffer, base: nat, isDirectory: bool, so: Progress<Cells>): Progress<Cells>
    requires |record| >= 24
  {
    PackedFields(cursor, record, base, Forks, OF_FORKS,
      PackedFields(cursor, record, base, if isDirectory then Directories else Files,
                   if isDirectory then OF_DIRECTORIES else OF_FILES,
        PackedFields(cursor, record, base, Common, AFTER_TYPE, so)))
  }

  /** The cells that a record leaves in its row, if it is accepted. */
  function PackedEntry(cursor: Cursor, record: Buffer, base: nat): Option<Cells> {
    if !HeaderHolds(cursor, record) then None
    else match PackedHeader(cursor, record, base)
      case None => None
      case Some(cells) =>
        if ReadU32(record, 24) != 0 then Some(cells)
        else match PackedBody(cursor, record, base, At(36, cells))
          case Rejected => None
          case At(_, body) => Some(body)
  }

  // -- Reading cells ----------------------------------------------------------------------------------

  /** The term of a cell's bytes, by field. */
  function Typed(field: nat, bytes: Buffer): Term
    requires IsReference(field) || |bytes| == Width(field) > 0
  {
    if IsReference(field) then Binary(bytes)
    else if field == TYPE then Type(KindOfCode(bytes[0]))
    else if field == ERROR then Errno(ReadU32(bytes, 0))
    else if IsU32(field) then Number(ReadU32(bytes, 0))
    else if field == DEVICE || field == REAL_DEVICE || IsUnsigned64(field) then Number(ReadU64(bytes, 0))
    else if IsSigned64(field) then Number(Signed64(ReadU64(bytes, 0)))
    else if 9 <= field <= 14 then Pair(Signed64(ReadU64(bytes, 0)), Signed64(ReadU64(bytes, 8)))
    else if field == FILESYSTEM_ID || field == REAL_FILESYSTEM_ID
    then Pair(Signed32(ReadU32(bytes, 0)), Signed32(ReadU32(bytes, 4)))
    else if field == RETURNED_ATTRIBUTES then FourWords(bytes)
    else Binary(bytes)
  }

  function TermOf(field: nat, reading: Reading): Option<Term>
    requires reading.Present? ==> IsReference(field) || |reading.bytes| == Width(field) > 0
  {
    if reading.Present? then Some(Typed(field, reading.bytes)) else None
  }

  /** The value of a field in a row of a batch: absent where its validity bit is clear. */
  function RowTerm(batch: Batch, field: nat, i: nat): Option<Term>
    requires HasColumn(batch, field) && Width(field) > 0 && i < batch.count
  {
    TermOf(field, Value(batch, field, i))
  }

  // -- Refinement -------------------------------------------------------------------------------------

  /** A field is in both forms or in neither, and its cell reads as the entry's value. */
  ghost predicate Same(field: nat, values: map<nat, Term>, cells: Cells, buffer: Buffer) {
    && (field in values <==> field in cells)
    && (field in cells ==> |cells[field]| == Width(field) > 0
                           && TermOf(field, Decode(field, true, cells[field], buffer)) == Some(values[field]))
  }

  ghost predicate AllSame(values: map<nat, Term>, cells: Cells, buffer: Buffer) {
    forall field: nat :: Same(field, values, cells, buffer)
  }

  ghost predicate InStep(direct: Progress<map<nat, Term>>, packed: Progress<Cells>, buffer: Buffer) {
    direct.At? == packed.At? && (direct.At? ==> direct.next == packed.next && AllSame(direct.values, packed.values, buffer))
  }

  lemma WideningKeepsTheNumber(bytes: Buffer)
    requires |bytes| == 4
    ensures ReadU64(bytes + [0, 0, 0, 0], 0) == ReadU32(bytes, 0)
  {
    var wide := bytes + [0, 0, 0, 0];
    assert wide[4] == wide[5] == wide[6] == wide[7] == 0;
    assert ReadU32(wide, 4) == 0;
  }

  /** The cell of every attribute decodes to the entry's term; only the fork count has no cell. */
  lemma CellsDecode(field: nat, bytes: Buffer)
    requires |bytes| == RecordSize(field) && field != FORK_COUNT && !IsReference(field)
    requires field != ERROR && field != RETURNED_ATTRIBUTES && Width(field) > 0
    ensures var cell := FixedCell(field, bytes);
            |cell| == Width(field) && Typed(field, cell) == FixedTerm(field, bytes)
  {
    if field == DEVICE || field == REAL_DEVICE { WideningKeepsTheNumber(bytes); }
  }

  ghost predicate IsRecord(buffer: Buffer, base: nat, record: Buffer) {
    base + |record| <= |buffer| < UINT32 && record == buffer[base..base + |record|]
  }

  lemma PairReads(first: nat, second: nat)
    requires first < UINT32 && second < UINT32
    ensures var cell := U32Bytes(first) + U32Bytes(second);
            ReadU32(cell, 0) == first && ReadU32(cell, 4) == second
  {
    var a, b := U32Bytes(first), U32Bytes(second);
    U32RoundTrip(first, [], b);
    U32RoundTrip(second, a, []);
    assert [] + a + b == a + b && a + b + [] == a + b;
  }

  lemma SliceOfSlice(buffer: Buffer, base: nat, length: nat, start: nat, size: nat)
    requires base + length <= |buffer| && start + size <= length
    ensures buffer[base..base + length][start..start + size] == buffer[base + start..base + start + size]
  {
    var whole := buffer[base..base + length];
    var a, b := whole[start..start + size], buffer[base + start..base + start + size];
    forall i | 0 <= i < size ensures a[i] == b[i] { assert whole[start + i] == buffer[base + start + i]; }
  }

  lemma ReferenceReads(buffer: Buffer, base: nat, record: Buffer, slice: Slice)
    requires IsRecord(buffer, base, record) && slice.start + slice.size <= |record|
    ensures ReferenceCell(base, slice).Some?
    ensures var cell := ReferenceCell(base, slice).value;
            |cell| == 8 && Read(cell, buffer) == Present(record[slice.start..slice.start + slice.size])
  {
    PairReads(base + slice.start, slice.size);
    SliceOfSlice(buffer, base, |record|, slice.start, slice.size);
  }

  lemma PutKeepsSame(
    field: nat, term: Term, cell: Buffer, values: map<nat, Term>, cells: Cells, buffer: Buffer
  )
    requires AllSame(values, cells, buffer) && |cell| == Width(field) > 0
    requires TermOf(field, Decode(field, true, cell, buffer)) == Some(term)
    ensures AllSame(values[field := term], cells[field := cell], buffer)
  {
    var newValues, newCells := values[field := term], cells[field := cell];
    forall other: nat ensures Same(other, newValues, newCells, buffer) {
      assert Same(other, values, cells, buffer);
    }
  }

  lemma ReferenceInStep(
    buffer: Buffer, base: nat, record: Buffer, slice: Slice, values: map<nat, Term>, cells: Cells
  )
    requires IsRecord(buffer, base, record) && slice.start + slice.size <= |record| && AllSame(values, cells, buffer)
    ensures ReferenceCell(base, slice).Some? && |ReferenceCell(base, slice).value| == 8
    ensures AllSame(values[ACL := Binary(record[slice.start..slice.start + slice.size])],
                    cells[ACL := ReferenceCell(base, slice).value], buffer)
  {
    ReferenceReads(buffer, base, record, slice);
    PutKeepsSame(ACL, Binary(record[slice.start..slice.start + slice.size]), ReferenceCell(base, slice).value,
                 values, cells, buffer);
  }

  predicate IsBody(field: nat) {
    field != NAME && field != ERROR && field != RETURNED_ATTRIBUTES
  }

  ghost predicate IsTable(fields: seq<nat>) {
    forall field :: field in fields ==> IsBody(field) && field != TYPE
  }

  lemma Tables()
    ensures IsTable(BEFORE_TYPE) && IsTable(AFTER_TYPE)
    ensures IsTable(OF_DIRECTORIES) && IsTable(OF_FILES) && IsTable(OF_FORKS)
  {
  }

  lemma FixedInStep(cursor: Cursor, field: nat, bytes: Buffer, values: map<nat, Term>, cells: Cells, buffer: Buffer)
    requires Consistent(cursor) && field in cursor.requested && IsBody(field) && field != ACL
    requires |bytes| == RecordSize(field) && AllSame(values, cells, buffer)
    ensures AllSame(values[field := FixedTerm(field, bytes)], Put(cursor, cells, field, FixedCell(field, bytes)), buffer)
  {
    CellsDecode(field, bytes);
    PutKeepsSame(field, FixedTerm(field, bytes), FixedCell(field, bytes), values, cells, buffer);
  }

  /** The attribute is asked for, fits into the record, and was returned. */
  predicate IsThere(cursor: Cursor, record: Buffer, attribute: Attribute, at: nat)
    requires |record| >= 24
  {
    attribute in cursor.attributes && at + RecordSize(attribute.field) <= |record| && WasReturned(cursor, record, attribute)
  }

  lemma AclInStep(
    cursor: Cursor, buffer: Buffer, base: nat, record: Buffer, group: Group,
    direct: Progress<map<nat, Term>>, packed: Progress<Cells>
  )
    requires Consistent(cursor) && IsRecord(buffer, base, record) && |record| >= 24 && InStep(direct, packed, buffer)
    ensures InStep(DirectField(cursor, record, group, ACL, direct), PackedField(cursor, record, base, group, ACL, packed), buffer)
  {
    if direct.At? && IsThere(cursor, record, Attribute(group, ACL), direct.next) {
      assert Attribute(group, ACL).field in cursor.requested;
      var slice := Referenced(record, direct.next, false);
      if slice.Some? { ReferenceInStep(buffer, base, record, slice.value, direct.values, packed.values); }
    }
  }

  lemma OtherInStep(
    cursor: Cursor, buffer: Buffer, base: nat, record: Buffer, group: Group, field: nat,
    direct: Progress<map<nat, Term>>, packed: Progress<Cells>
  )
    requires Consistent(cursor) && |record| >= 24 && IsBody(field) && InStep(direct, packed, buffer)
    requires field != ACL && (field == TYPE ==> group == Common)
    ensures InStep(DirectField(cursor, record, group, field, direct), PackedField(cursor, record, base, group, field, packed), buffer)
  {
    if direct.At? && IsThere(cursor, record, Attribute(group, field), direct.next) {
      assert Attribute(group, field).field == field;
      if field in cursor.requested {
        FixedInStep(cursor, field, record[direct.next..direct.next + RecordSize(field)], direct.values, packed.values, buffer);
      }
    }
  }

  /** One attribute is accepted by both decoders or by neither, and means the same in both. */
  lemma FieldInStep(
    cursor: Cursor, buffer: Buffer, base: nat, record: Buffer, group: Group, field: nat,
    direct: Progress<map<nat, Term>>, packed: Progress<Cells>
  )
    requires Consistent(cursor) && IsRecord(buffer, base, record) && |record| >= 24 && IsBody(field) && InStep(direct, packed, buffer)
    requires field == TYPE ==> group == Common
    ensures InStep(DirectField(cursor, record, group, field, direct), PackedField(cursor, record, base, group, field, packed), buffer)
  {
    if field == ACL {
      AclInStep(cursor, buffer, base, record, group, direct, packed);
    } else {
      OtherInStep(cursor, buffer, base, record, group, field, direct, packed);
    }
  }

  lemma {:induction false} FieldsInStep(
    cursor: Cursor, buffer: Buffer, base: nat, record: Buffer, group: Group, fields: seq<nat>,
    direct: Progress<map<nat, Term>>, packed: Progress<Cells>
  )
    requires Consistent(cursor) && IsRecord(buffer, base, record) && |record| >= 24 && InStep(direct, packed, buffer)
    requires IsTable(fields)
    ensures InStep(DirectFields(cursor, record, group, fields, direct), PackedFields(cursor, record, base, group, fields, packed), buffer)
  {
    if fields != [] {
      var init := fields[..|fields| - 1];
      FieldsInStep(cursor, buffer, base, record, group, init, direct, packed);
      FieldInStep(cursor, buffer, base, record, group, fields[|fields| - 1],
                  DirectFields(cursor, record, group, init, direct),
                  PackedFields(cursor, record, base, group, init, packed));
    }
  }

  lemma BodyInStep(
    cursor: Cursor, buffer: Buffer, base: nat, record: Buffer,
    direct: Progress<map<nat, Term>>, packed: Progress<Cells>
  )
    requires Consistent(cursor) && IsRecord(buffer, base, record) && |record| >= 24 && InStep(direct, packed, buffer)
    ensures InStep(DirectBody(cursor, record, direct), PackedBody(cursor, record, base, packed), buffer)
  {
    Tables();
    FieldsInStep(cursor, buffer, base, record, Common, BEFORE_TYPE, direct, packed);
    var direct1 := DirectFields(cursor, record, Common, BEFORE_TYPE, direct);
    var packed1 := PackedFields(cursor, record, base, Common, BEFORE_TYPE, packed);
    FieldInStep(cursor, buffer, base, record, Common, TYPE, direct1, packed1);
    var direct2 := DirectField(cursor, record, Common, TYPE, direct1);
    var packed2 := PackedField(cursor, record, base, Common, TYPE, packed1);
    if direct2.At? && !TypeMissing(cursor, record) {
      TailInStep(cursor, buffer, base, record, direct2, packed2, ObjectType(cursor, record, direct1.next) == VDIR);
    }
  }

  lemma TailInStep(
    cursor: Cursor, buffer: Buffer, base: nat, record: Buffer,
    direct: Progress<map<nat, Term>>, packed: Progress<Cells>, isDirectory: bool
  )
    requires Consistent(cursor) && IsRecord(buffer, base, record) && |record| >= 24 && InStep(direct, packed, buffer)
    ensures InStep(DirectTail(cursor, record, isDirectory, direct), PackedTail(cursor, record, base, isDirectory, packed), buffer)
  {
    var group := if isDirectory then Directories else Files;
    var fields := if isDirectory then OF_DIRECTORIES else OF_FILES;
    Tables();
    FieldsInStep(cursor, buffer, base, record, Common, AFTER_TYPE, direct, packed);
    var direct1 := DirectFields(cursor, record, Common, AFTER_TYPE, direct);
    var packed1 := PackedFields(cursor, record, base, Common, AFTER_TYPE, packed);
    FieldsInStep(cursor, buffer, base, record, group, fields, direct1, packed1);
    var direct2 := DirectFields(cursor, record, group, fields, direct1);
    var packed2 := PackedFields(cursor, record, base, group, fields, packed1);
    FieldsInStep(cursor, buffer, base, record, Forks, OF_FORKS, direct2, packed2);
  }

  /** Errors are signed numbers to one decoder and unsigned ones to the other. */
  predicate SmallError(record: Buffer) {
    |record| >= 28 ==> ReadU32(record, 24) < 0x8000_0000
  }

  ghost predicate AllSameBut(values: map<nat, Term>, cells: Cells, buffer: Buffer, agree: bool) {
    forall field: nat :: Same(field, values, cells, buffer) <==> (agree || field != ERROR)
  }

  lemma ErrorReads(error: nat, buffer: Buffer)
    requires error < UINT32
    ensures TermOf(ERROR, Decode(ERROR, true, U32Bytes(error), buffer)) == Some(Errno(error))
  {
    U32RoundTrip(error, [], []);
    assert [] + U32Bytes(error) + [] == U32Bytes(error);
  }

  lemma NameInStep(cursor: Cursor, buffer: Buffer, base: nat, record: Buffer)
    requires IsRecord(buffer, base, record) && HeaderHolds(cursor, record)
    ensures PackedHeader(cursor, record, base).Some?
    ensures var values, cells := DirectHeader(cursor, record), PackedHeader(cursor, record, base).value;
            forall field: nat :: field != ERROR ==> Same(field, values, cells, buffer)
  {
    if WasReturned(cursor, record, Attribute(Common, NAME)) {
      ReferenceReads(buffer, base, record, Referenced(record, 28, true).value);
    }
  }

  lemma HeaderInStep(cursor: Cursor, buffer: Buffer, base: nat, record: Buffer)
    requires IsRecord(buffer, base, record) && HeaderHolds(cursor, record)
    ensures PackedHeader(cursor, record, base).Some?
    ensures AllSameBut(DirectHeader(cursor, record), PackedHeader(cursor, record, base).value, buffer, SmallError(record))
  {
    var error := ReadU32(record, 24);
    NameInStep(cursor, buffer, base, record);
    ErrorReads(error, buffer);
    var values, cells := DirectHeader(cursor, record), PackedHeader(cursor, record, base).value;
    assert ERROR in values <==> error != 0;
    assert error != 0 ==> values[ERROR] == Errno(Signed32(error)) && cells[ERROR] == U32Bytes(error);
  }

  /**
   * The packed decoder refines the direct one: both accept a record or neither does, and every field of the row reads as
   * that of the entry, except that an error number beyond 31 bits turns negative in the entry.
   */
  lemma PackedRefinesDirect(cursor: Cursor, buffer: Buffer, base: nat, record: Buffer)
    requires Consistent(cursor) && IsRecord(buffer, base, record)
    ensures var direct, packed := DirectEntry(cursor, record), PackedEntry(cursor, record, base);
            && direct.Some? == packed.Some?
            && (direct.Some? ==> AllSameBut(direct.value, packed.value, buffer, SmallError(record)))
  {
    if HeaderHolds(cursor, record) {
      HeaderInStep(cursor, buffer, base, record);
      if ReadU32(record, 24) == 0 {
        var values, cells := DirectHeader(cursor, record), PackedHeader(cursor, record, base).value;
        assert AllSame(values, cells, buffer);
        BodyInStep(cursor, buffer, base, record, At(36, values), At(36, cells));
      }
    }
  }

  /** A record of nothing but an error number of 32 one bits. */
  function LargeError(): Buffer {
    [36, 0, 0, 0] + seq(20, _ => 0) + [255, 255, 255, 255] + seq(8, _ => 0)
  }

  /** The two decoders do part there: the entry's error is -1, and the row's is 4294967295. */
  lemma LargeErrorTurnsNegative(cursor: Cursor)
    requires Consistent(cursor)
    ensures var direct, packed := DirectEntry(cursor, LargeError()), PackedEntry(cursor, LargeError(), 0);
            && direct.Some? && packed.Some? && ERROR in direct.value && ERROR in packed.value
            && direct.value[ERROR] == Errno(-1)
            && TermOf(ERROR, Decode(ERROR, true, packed.value[ERROR], LargeError())) == Some(Errno(0xFFFF_FFFF))
  {
    var record := LargeError();
    assert |record| == 36 && ReadU32(record, 24) == 0xFFFF_FFFF;
    assert ReadU32(record, 4) == 0 && ReadU32(record, 8) == 0 && ReadU32(record, 12) == 0;
    assert ReadU32(record, 16) == 0 && ReadU32(record, 20) == 0;
    forall k: nat ensures !BitOf(0, k) { NoBitIsSet(k); }
    assert ValidReturned(cursor, record);
    ErrorReads(0xFFFF_FFFF, record);
  }
}
