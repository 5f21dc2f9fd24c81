/**
  Where the kernel puts each attribute in a bulk record, by the platform's own numbering, and what its bytes mean: the
  decoders are held against this layout.
 */
module RecordLayouts {
  import opened Bytes
  import opened Blocks
  import opened Entries
  import opened Options
  import opened StoreModel
  import opened Words

  // -- The layout -------------------------------------------------------------------------------------

  /**
    The field of an attribute, by its bit in `<sys/attr.h>`; 0 for attributes that are never asked for, and for the
    name, the error and the returned set, which come first.
   */
  function SlotField(group: Group, bit: nat): nat {
    match group
    case Common =>
      (match bit
       case 1 => 5 case 2 => 6 case 3 => 2 case 4 => 3
       case 9 => 9 case 10 => 10 case 11 => 11 case 12 => 12 case 13 => 13 case 14 => 20
       case 15 => 15 case 16 => 16 case 17 => 17 case 18 => 18 case 19 => 25 case 20 => 26 case 21 => 19
       case 22 => 23 case 23 => 21 case 24 => 22 case 25 => 7 case 26 => 8 case 28 => 14 case 30 => 24
       case _ => 0)
    case Directories =>
      (match bit
       case 0 => 27 case 1 => 37 case 2 => 38 case 3 => 29 case 4 => 30 case 5 => 33 case _ => 0)
    case Files =>
      (match bit
       case 0 => 27 case 1 => 28 case 2 => 29 case 3 => 30 case 5 => 31 case 7 => 32 case 9 => 33 case 10 => 34
       case 12 => 35 case 13 => 36 case _ => 0)
    case Forks =>
      (match bit
       case 3 => 39 case 4 => 40 case 6 => 41 case 7 => 42 case 8 => 43 case 9 => 44 case 10 => 45 case 11 => 46
       case 12 => 47 case _ => 0)
  }

  /** Bytes of an attribute, by its C type. */
  function SlotSize(field: nat): nat {
    if field in {2, 3, 5, 15, 16, 17, 18, 19, 24, 25, 26, 27, 30, 31, 32, 37, 38, 41, 47} then 4
    else if field in {9, 10, 11, 12, 13, 14, 21, 22} then 16
    else if field == 20 then 32
    else 8
  }

  function Asked(cursor: Cursor, group: Group, bit: nat): bool {
    SlotField(group, bit) != 0 && Attribute(group, SlotField(group, bit)) in cursor.attributes
  }

  /** The bytes of all attributes of a group that were asked for and have a lower bit, returned or not. */
  function BytesBelow(cursor: Cursor, group: Group, bit: nat): nat {
    if bit == 0 then 0
    else BytesBelow(cursor, group, bit - 1) + if Asked(cursor, group, bit - 1) then SlotSize(SlotField(group, bit - 1)) else 0
  }

  /** A 32-bit number, the least significant byte first. */
  function Word(record: Buffer, at: nat): nat
    requires at + 4 <= |record|
  {
    record[at] as nat + 0x100 * record[at + 1] as nat + 0x1_0000 * record[at + 2] as nat + 0x100_0000 * record[at + 3] as nat
  }

  /** The record's object is a directory: number 2 in `<sys/vnode.h>`. */
  predicate SaysDirectory(cursor: Cursor, record: Buffer) {
    var at := 36 + BytesBelow(cursor, Common, 3);
    Asked(cursor, Common, 3) && at + 4 <= |record| && Word(record, at) == 2
  }

  /** Attributes of directories or of other files, by the type in the record. */
  function KindGroup(cursor: Cursor, record: Buffer): Group {
    if SaysDirectory(cursor, record) then Directories else Files
  }

  /** Where a group starts: common attributes behind the header, then those of the kind, then the extended ones. */
  function GroupStart(cursor: Cursor, record: Buffer, group: Group): nat {
    match group
    case Common => 36
    case Forks => 36 + BytesBelow(cursor, Common, 32) + BytesBelow(cursor, KindGroup(cursor, record), 32)
    case _ => 36 + BytesBelow(cursor, Common, 32)
  }

  predicate IsInRecord(cursor: Cursor, record: Buffer, group: Group) {
    group == Common || group == Forks || group == KindGroup(cursor, record)
  }

  /** The value at a place: an access control list is a reference, relative to its own place, and all else lies there. */
  function ValueAt(record: Buffer, field: nat, at: nat): Option<Term> {
    if at + SlotSize(field) > |record| then None
    else if field == 23 then
      var offset, size := Word(record, at), Word(record, at + 4);
      if offset < 0x8000_0000 && at + offset + size <= |record|
      then Some(Term.Binary(record[at + offset..at + offset + size])) else None
    else if |record[at..at + SlotSize(field)]| == RecordSize(field) then Some(FixedTerm(field, record[at..at + SlotSize(field)]))
    else None
  }

  /** Asked for and returned; the type may have been asked for on behalf of other fields only. */
  predicate HasValue(cursor: Cursor, record: Buffer, group: Group, bit: nat)
    requires |record| >= 24
  {
    && Asked(cursor, group, bit) && WasReturned(cursor, record, Attribute(group, SlotField(group, bit)))
    && (SlotField(group, bit) == 2 ==> 2 in cursor.requested)
  }

  // -- The tables are in that order -------------------------------------------------------------------

  /** The fields of a group from one bit up to another. */
  function FieldsBetween(group: Group, low: nat, high: nat): seq<nat>
    requires low <= high
    decreases high
  {
    if low == high then []
    else FieldsBetween(group, low, high - 1) + if SlotField(group, high - 1) != 0 then [SlotField(group, high - 1)] else []
  }

  lemma {:induction false} FieldsJoin(group: Group, low: nat, middle: nat, high: nat)
    requires low <= middle <= high
    ensures FieldsBetween(group, low, high) == FieldsBetween(group, low, middle) + FieldsBetween(group, middle, high)
    decreases high
  {
    if middle < high { FieldsJoin(group, low, middle, high - 1); }
  }

  lemma FrontTable()
    ensures FieldsBetween(Common, 0, 3) == BEFORE_TYPE && SlotField(Common, 3) == TYPE
  {
  }

  lemma TimesTable(low: nat, high: nat)
    requires low == 4 && high == 15
    ensures FieldsBetween(Common, low, high) == [3, 9, 10, 11, 12, 13, 20]
  {
    assert FieldsBetween(Common, 4, 10) == [3, 9];
    assert FieldsBetween(Common, 4, 15) == [3, 9, 10, 11, 12, 13, 20];
  }

  lemma OwnersTable(low: nat, high: nat)
    requires low == 15 && high == 23
    ensures FieldsBetween(Common, low, high) == [15, 16, 17, 18, 25, 26, 19, 23]
  {
    assert FieldsBetween(Common, 15, 19) == [15, 16, 17, 18];
    assert FieldsBetween(Common, 15, 23) == [15, 16, 17, 18, 25, 26, 19, 23];
  }

  lemma IdentitiesTable(low: nat, high: nat)
    requires low == 23 && high == 32
    ensures FieldsBetween(Common, low, high) == [21, 22, 7, 8, 14, 24]
  {
    assert FieldsBetween(Common, 23, 28) == [21, 22, 7, 8];
    assert FieldsBetween(Common, 23, 32) == [21, 22, 7, 8, 14, 24];
  }

  lemma FieldsJoinTwice(group: Group, a: nat, b: nat, c: nat, d: nat, x: seq<nat>, y: seq<nat>, z: seq<nat>)
    requires a <= b <= c <= d
    requires FieldsBetween(group, a, b) == x && FieldsBetween(group, b, c) == y && FieldsBetween(group, c, d) == z
    ensures FieldsBetween(group, a, d) == x + y + z
  {
    FieldsJoin(group, a, b, d);
    FieldsJoin(group, b, c, d);
  }

  /** The tables that both decoders follow are the fields of each group by ascending bit. */
  lemma BackTable()
    ensures FieldsBetween(Common, 4, 32) == AFTER_TYPE
  {
    var x, y, z := [3, 9, 10, 11, 12, 13, 20], [15, 16, 17, 18, 25, 26, 19, 23], [21, 22, 7, 8, 14, 24];
    assert x + y + z == AFTER_TYPE;
    assert FieldsBetween(Common, 4, 32) == x + y + z by {
      TimesTable(4, 15);
      OwnersTable(15, 23);
      IdentitiesTable(23, 32);
      FieldsJoinTwice(Common, 4, 15, 23, 32, x, y, z);
    }
  }

  lemma DirectoryTable()
    ensures FieldsBetween(Directories, 0, 32) == OF_DIRECTORIES
  {
    assert FieldsBetween(Directories, 0, 3) == [27, 37, 38];
    assert FieldsBetween(Directories, 0, 6) == [27, 37, 38, 29, 30, 33];
    assert FieldsBetween(Directories, 0, 10) == [27, 37, 38, 29, 30, 33];
    assert FieldsBetween(Directories, 0, 14) == [27, 37, 38, 29, 30, 33];
    assert FieldsBetween(Directories, 0, 18) == [27, 37, 38, 29, 30, 33];
    assert FieldsBetween(Directories, 0, 22) == [27, 37, 38, 29, 30, 33];
    assert FieldsBetween(Directories, 0, 26) == [27, 37, 38, 29, 30, 33];
    assert FieldsBetween(Directories, 0, 30) == [27, 37, 38, 29, 30, 33];
  }

  lemma FileTable()
    ensures FieldsBetween(Files, 0, 32) == OF_FILES
  {
    assert FieldsBetween(Files, 0, 3) == [27, 28, 29];
    assert FieldsBetween(Files, 0, 6) == [27, 28, 29, 30, 31];
    assert FieldsBetween(Files, 0, 10) == [27, 28, 29, 30, 31, 32, 33];
    assert FieldsBetween(Files, 0, 14) == [27, 28, 29, 30, 31, 32, 33, 34, 35, 36];
    assert FieldsBetween(Files, 0, 18) == [27, 28, 29, 30, 31, 32, 33, 34, 35, 36];
    assert FieldsBetween(Files, 0, 22) == [27, 28, 29, 30, 31, 32, 33, 34, 35, 36];
    assert FieldsBetween(Files, 0, 26) == [27, 28, 29, 30, 31, 32, 33, 34, 35, 36];
    assert FieldsBetween(Files, 0, 30) == [27, 28, 29, 30, 31, 32, 33, 34, 35, 36];
  }

  lemma ForkTable()
    ensures FieldsBetween(Forks, 0, 32) == OF_FORKS
  {
    assert FieldsBetween(Forks, 0, 6) == [39, 40];
    assert FieldsBetween(Forks, 0, 10) == [39, 40, 41, 42, 43, 44];
    assert FieldsBetween(Forks, 0, 13) == [39, 40, 41, 42, 43, 44, 45, 46, 47];
    assert FieldsBetween(Forks, 0, 18) == [39, 40, 41, 42, 43, 44, 45, 46, 47];
    assert FieldsBetween(Forks, 0, 22) == [39, 40, 41, 42, 43, 44, 45, 46, 47];
    assert FieldsBetween(Forks, 0, 26) == [39, 40, 41, 42, 43, 44, 45, 46, 47];
    assert FieldsBetween(Forks, 0, 30) == [39, 40, 41, 42, 43, 44, 45, 46, 47];
  }

  lemma SizesAgree(group: Group, bit: nat)
    requires SlotField(group, bit) != 0
    ensures RecordSize(SlotField(group, bit)) == SlotSize(SlotField(group, bit))
  {
  }

  /** A field has one place in a group, and is in no other group of one record. */
  lemma SlotsDiffer(a: Group, b: Group, m: nat, n: nat)
    requires SlotField(a, m) == SlotField(b, n) != 0 && !(a == Directories && b == Files) && !(a == Files && b == Directories)
    ensures a == b && m == n
  {
  }

  // -- The direct decoder follows the layout ----------------------------------------------------------

  function Held(values: map<nat, Term>, field: nat): Option<Term> {
    if field in values then Some(values[field]) else None
  }

  /** What reading one attribute does to its field. */
  ghost predicate ReadAt(cursor: Cursor, record: Buffer, group: Group, bit: nat, at: nat, before: map<nat, Term>, after: map<nat, Term>)
    requires |record| >= 24
  {
    var field := SlotField(group, bit);
    field != 0 ==>
      if HasValue(cursor, record, group, bit) then field in after && ValueAt(record, field, at) == Some(after[field])
      else Held(after, field) == Held(before, field)
  }

  predicate IsSlot(group: Group, low: nat, high: nat, field: nat) {
    exists bit :: low <= bit < high && IsField(group, bit, field)
  }

  predicate IsField(group: Group, bit: nat, field: nat) {
    SlotField(group, bit) == field != 0
  }

  /** Reading the attributes of a group from one bit up to another fills their fields, and no others. */
  ghost predicate RangeRead(cursor: Cursor, record: Buffer, group: Group, low: nat, high: nat, base: nat,
                            before: map<nat, Term>, after: map<nat, Term>)
    requires |record| >= 24
  {
    && (forall bit: nat :: low <= bit < high ==> SlotRead(cursor, record, group, bit, base, before, after))
    && (forall field :: !IsSlot(group, low, high, field) ==> Held(after, field) == Held(before, field))
  }

  ghost predicate SlotRead(cursor: Cursor, record: Buffer, group: Group, bit: nat, base: nat,
                           before: map<nat, Term>, after: map<nat, Term>)
    requires |record| >= 24
  {
    ReadAt(cursor, record, group, bit, base + BytesBelow(cursor, group, bit), before, after)
  }

  lemma WordIsRead(record: Buffer, at: nat)
    requires at + 4 <= |record|
    ensures Word(record, at) == ReadU32(record, at)
  {
  }

  lemma ReferenceIsRead(record: Buffer, at: nat)
    requires at + 8 <= |record| && Referenced(record, at, false).Some?
    ensures var slice := Referenced(record, at, false).value;
            ValueAt(record, 23, at) == Some(Term.Binary(record[slice.start..slice.start + slice.size]))
  {
    WordIsRead(record, at);
    WordIsRead(record, at + 4);
  }

  lemma SlotIsRead(cursor: Cursor, record: Buffer, group: Group, bit: nat, at: nat, so: Progress<map<nat, Term>>)
    requires |record| >= 24 && SlotField(group, bit) != 0 && (so.At? ==> so.next == at)
    ensures var field, after := SlotField(group, bit), DirectField(cursor, record, group, SlotField(group, bit), so);
            after.At? ==>
              && so.At? && after.next == at + (if Asked(cursor, group, bit) then SlotSize(field) else 0)
              && ReadAt(cursor, record, group, bit, at, so.values, after.values)
              && forall other :: other != field ==> Held(after.values, other) == Held(so.values, other)
  {
    SizesAgree(group, bit);
    var field, after := SlotField(group, bit), DirectField(cursor, record, group, SlotField(group, bit), so);
    if after.At? && field == ACL && HasValue(cursor, record, group, bit) { ReferenceIsRead(record, at); }
  }

  lemma SlotIsNew(group: Group, low: nat, last: nat)
    requires SlotField(group, last) != 0
    ensures !IsSlot(group, low, last, SlotField(group, last))
  {
    var field := SlotField(group, last);
    if bit: nat :| low <= bit < last && IsField(group, bit, field) { SlotsDiffer(group, group, bit, last); }
  }

  lemma EarlierSlotStays(cursor: Cursor, record: Buffer, group: Group, bit: nat, last: nat, base: nat,
                         before: map<nat, Term>, middle: map<nat, Term>, after: map<nat, Term>)
    requires |record| >= 24 && bit < last && SlotRead(cursor, record, group, bit, base, before, middle)
    requires SlotField(group, last) != 0
    requires forall other :: other != SlotField(group, last) ==> Held(after, other) == Held(middle, other)
    ensures SlotRead(cursor, record, group, bit, base, before, after)
  {
    var field := SlotField(group, bit);
    if field == SlotField(group, last) { SlotsDiffer(group, group, bit, last); }
    if field != 0 { assert Held(after, field) == Held(middle, field); }
  }

  lemma LastSlotRead(cursor: Cursor, record: Buffer, group: Group, last: nat, base: nat,
                     before: map<nat, Term>, middle: map<nat, Term>, after: map<nat, Term>)
    requires |record| >= 24 && SlotRead(cursor, record, group, last, base, middle, after)
    requires Held(middle, SlotField(group, last)) == Held(before, SlotField(group, last))
    ensures SlotRead(cursor, record, group, last, base, before, after)
  {
  }

  lemma LongerRange(cursor: Cursor, record: Buffer, group: Group, low: nat, last: nat, base: nat,
                    before: map<nat, Term>, middle: map<nat, Term>, after: map<nat, Term>)
    requires |record| >= 24 && low <= last && RangeRead(cursor, record, group, low, last, base, before, middle)
    requires SlotField(group, last) != 0 && SlotRead(cursor, record, group, last, base, middle, after)
    requires forall other :: other != SlotField(group, last) ==> Held(after, other) == Held(middle, other)
    ensures RangeRead(cursor, record, group, low, last + 1, base, before, after)
  {
    var field, next := SlotField(group, last), last + 1;
    SlotIsNew(group, low, last);
    assert Held(middle, field) == Held(before, field);
    LastSlotRead(cursor, record, group, last, base, before, middle, after);
    forall bit: nat | low <= bit < next ensures SlotRead(cursor, record, group, bit, base, before, after) {
      if bit < last {
        assert SlotRead(cursor, record, group, bit, base, before, middle);
        EarlierSlotStays(cursor, record, group, bit, last, base, before, middle, after);
      }
    }
    assert IsField(group, last, field);
    forall other | !IsSlot(group, low, next, other) ensures Held(after, other) == Held(before, other) {
      assert other != field;
      assert !IsSlot(group, low, last, other);
    }
  }

  /** An attribute that is never asked for takes no room. */
  lemma LongerByNothing(cursor: Cursor, record: Buffer, group: Group, low: nat, last: nat, base: nat,
                        before: map<nat, Term>, after: map<nat, Term>)
    requires |record| >= 24 && low <= last && RangeRead(cursor, record, group, low, last, base, before, after)
    requires SlotField(group, last) == 0
    ensures RangeRead(cursor, record, group, low, last + 1, base, before, after)
  {
    forall field | !IsSlot(group, low, last + 1, field) ensures !IsSlot(group, low, last, field) {
    }
  }

  /** The attributes from one bit up to another have been read. */
  ghost predicate HasRead(cursor: Cursor, record: Buffer, group: Group, low: nat, high: nat, base: nat,
                          so: Progress<map<nat, Term>>, after: Progress<map<nat, Term>>)
    requires |record| >= 24
  {
    after.At? ==>
      && so.At? && after.next == base + BytesBelow(cursor, group, high)
      && RangeRead(cursor, record, group, low, high, base, so.values, after.values)
  }

  lemma HasReadOneMore(cursor: Cursor, record: Buffer, group: Group, low: nat, last: nat, base: nat,
                       so: Progress<map<nat, Term>>, middle: Progress<map<nat, Term>>)
    requires |record| >= 24 && low <= last && SlotField(group, last) != 0
    requires HasRead(cursor, record, group, low, last, base, so, middle)
    ensures HasRead(cursor, record, group, low, last + 1, base, so, DirectField(cursor, record, group, SlotField(group, last), middle))
  {
    SlotIsRead(cursor, record, group, last, base + BytesBelow(cursor, group, last), middle);
    var after := DirectField(cursor, record, group, SlotField(group, last), middle);
    if after.At? { LongerRange(cursor, record, group, low, last, base, so.values, middle.values, after.values); }
  }

  lemma HasReadNoMore(cursor: Cursor, record: Buffer, group: Group, low: nat, last: nat, base: nat,
                      so: Progress<map<nat, Term>>, middle: Progress<map<nat, Term>>)
    requires |record| >= 24 && low <= last && SlotField(group, last) == 0
    requires HasRead(cursor, record, group, low, last, base, so, middle)
    ensures HasRead(cursor, record, group, low, last + 1, base, so, middle)
  {
    if middle.At? { LongerByNothing(cursor, record, group, low, last, base, so.values, middle.values); }
  }

  lemma FieldsOneMore(cursor: Cursor, record: Buffer, group: Group, fields: seq<nat>, field: nat, so: Progress<map<nat, Term>>)
    requires |record| >= 24
    ensures DirectFields(cursor, record, group, fields + [field], so)
            == DirectField(cursor, record, group, field, DirectFields(cursor, record, group, fields, so))
  {
    assert (fields + [field])[..|fields|] == fields;
  }

  lemma {:induction false} RangeGoesOn(cursor: Cursor, record: Buffer, group: Group, low: nat, from: nat, high: nat, base: nat,
                                       so: Progress<map<nat, Term>>, middle: Progress<map<nat, Term>>)
    requires |record| >= 24 && low <= from <= high && HasRead(cursor, record, group, low, from, base, so, middle)
    ensures HasRead(cursor, record, group, low, high, base, so,
                    DirectFields(cursor, record, group, FieldsBetween(group, from, high), middle))
    decreases high
  {
    if from < high {
      var last := high - 1;
      var fields := FieldsBetween(group, from, last);
      RangeGoesOn(cursor, record, group, low, from, last, base, so, middle);
      var before := DirectFields(cursor, record, group, fields, middle);
      if SlotField(group, last) == 0 {
        assert FieldsBetween(group, from, high) == fields;
        HasReadNoMore(cursor, record, group, low, last, base, so, before);
      } else {
        FieldsOneMore(cursor, record, group, fields, SlotField(group, last), middle);
        HasReadOneMore(cursor, record, group, low, last, base, so, before);
      }
    }
  }

  lemma HasReadNothing(cursor: Cursor, record: Buffer, group: Group, base: nat, so: Progress<map<nat, Term>>)
    requires |record| >= 24 && (so.At? ==> so.next == base)
    ensures HasRead(cursor, record, group, 0, 0, base, so, so)
  {
  }

  lemma FrontIsRead(cursor: Cursor, record: Buffer, so: Progress<map<nat, Term>>)
    requires |record| >= 24 && (so.At? ==> so.next == 36)
    ensures HasRead(cursor, record, Common, 0, 3, 36, so, DirectFields(cursor, record, Common, BEFORE_TYPE, so))
  {
    FrontTable();
    HasReadNothing(cursor, record, Common, 36, so);
    RangeGoesOn(cursor, record, Common, 0, 0, 3, 36, so, so);
  }

  lemma CommonIsRead(cursor: Cursor, record: Buffer, so: Progress<map<nat, Term>>)
    requires |record| >= 24 && (so.At? ==> so.next == 36)
    ensures var typed := DirectField(cursor, record, Common, TYPE, DirectFields(cursor, record, Common, BEFORE_TYPE, so));
            HasRead(cursor, record, Common, 0, 32, 36, so, DirectFields(cursor, record, Common, AFTER_TYPE, typed))
  {
    FrontIsRead(cursor, record, so);
    var front := DirectFields(cursor, record, Common, BEFORE_TYPE, so);
    HasReadOneMore(cursor, record, Common, 0, 3, 36, so, front);
    BackTable();
    RangeGoesOn(cursor, record, Common, 0, 4, 32, 36, so, DirectField(cursor, record, Common, TYPE, front));
  }

  lemma TableIsRead(cursor: Cursor, record: Buffer, group: Group, base: nat, so: Progress<map<nat, Term>>)
    requires |record| >= 24 && group != Common && (so.At? ==> so.next == base)
    ensures var table := if group == Directories then OF_DIRECTORIES else if group == Files then OF_FILES else OF_FORKS;
            HasRead(cursor, record, group, 0, 32, base, so, DirectFields(cursor, record, group, table, so))
  {
    HasReadNothing(cursor, record, group, base, so);
    RangeGoesOn(cursor, record, group, 0, 0, 32, base, so, so);
    if group == Directories { DirectoryTable(); } else if group == Files { FileTable(); } else { ForkTable(); }
  }

  /** The decoder tells directories by the type at its place. */
  lemma TypeIsAtItsPlace(cursor: Cursor, record: Buffer, so: Progress<map<nat, Term>>)
    requires |record| >= 24 && (so.At? ==> so.next == 36)
    ensures var front := DirectFields(cursor, record, Common, BEFORE_TYPE, so);
            front.At? ==> (ObjectType(cursor, record, front.next) == VDIR <==> SaysDirectory(cursor, record))
  {
    FrontIsRead(cursor, record, so);
    var at := 36 + BytesBelow(cursor, Common, 3);
    if at + 4 <= |record| { WordIsRead(record, at); }
  }

  // -- An entry is what lies at the attributes' places ------------------------------------------------

  /** The entry has a field exactly if its attribute was asked for and returned, and then the value at its place. */
  ghost predicate InPlace(cursor: Cursor, record: Buffer, group: Group, bit: nat, entry: map<nat, Term>)
    requires |record| >= 24
  {
    var field := SlotField(group, bit);
    field != 0 ==>
      if HasValue(cursor, record, group, bit)
      then field in entry
           && ValueAt(record, field, GroupStart(cursor, record, group) + BytesBelow(cursor, group, bit)) == Some(entry[field])
      else field !in entry
  }

  /** Three groups, one behind the other: the common attributes, those of the kind, and the extended ones. */
  ghost predicate ThreeGroups(cursor: Cursor, record: Buffer, kind: Group, base: nat, end: nat, header: map<nat, Term>,
                              common: map<nat, Term>, kinds: map<nat, Term>, entry: map<nat, Term>)
    requires |record| >= 24
  {
    && kind == KindGroup(cursor, record)
    && base == 36 + BytesBelow(cursor, Common, 32) && end == base + BytesBelow(cursor, kind, 32)
    && RangeRead(cursor, record, Common, 0, 32, 36, header, common)
    && RangeRead(cursor, record, kind, 0, 32, base, common, kinds)
    && RangeRead(cursor, record, Forks, 0, 32, end, kinds, entry)
  }

  lemma NotIn(group: Group, other: Group, bit: nat)
    requires SlotField(group, bit) != 0 && group != other
    requires !(group == Directories && other == Files) && !(group == Files && other == Directories)
    ensures !IsSlot(other, 0, 32, SlotField(group, bit))
  {
    if n: nat :| n < 32 && IsField(other, n, SlotField(group, bit)) { SlotsDiffer(group, other, bit, n); }
  }

  lemma NoHeaderField(group: Group, bit: nat)
    ensures SlotField(group, bit) !in {NAME, ERROR, RETURNED_ATTRIBUTES}
  {
  }

  /** A field keeps what it has while the attributes of another group are read. */
  lemma OtherGroupsLeaveIt(cursor: Cursor, record: Buffer, group: Group, bit: nat, other: Group, base: nat,
                           before: map<nat, Term>, after: map<nat, Term>)
    requires |record| >= 24 && RangeRead(cursor, record, other, 0, 32, base, before, after)
    requires SlotField(group, bit) != 0 && group != other
    requires !(group == Directories && other == Files) && !(group == Files && other == Directories)
    ensures Held(after, SlotField(group, bit)) == Held(before, SlotField(group, bit))
  {
    NotIn(group, other, bit);
  }

  lemma SlotInPlace(cursor: Cursor, record: Buffer, group: Group, bit: nat, base: nat, before: map<nat, Term>,
                    after: map<nat, Term>, entry: map<nat, Term>)
    requires |record| >= 24 && SlotRead(cursor, record, group, bit, base, before, after)
    requires base == GroupStart(cursor, record, group)
    requires SlotField(group, bit) != 0 && Held(before, SlotField(group, bit)) == None
    requires Held(entry, SlotField(group, bit)) == Held(after, SlotField(group, bit))
    ensures InPlace(cursor, record, group, bit, entry)
  {
  }

  lemma ThreeGroupsInPlace(cursor: Cursor, record: Buffer, kind: Group, base: nat, end: nat, header: map<nat, Term>,
                           common: map<nat, Term>, kinds: map<nat, Term>, entry: map<nat, Term>, group: Group, bit: nat)
    requires |record| >= 24 && ThreeGroups(cursor, record, kind, base, end, header, common, kinds, entry)
    requires header.Keys <= {NAME, ERROR, RETURNED_ATTRIBUTES} && IsInRecord(cursor, record, group) && bit < 32
    ensures InPlace(cursor, record, group, bit, entry)
  {
    if SlotField(group, bit) != 0 {
      NoHeaderField(group, bit);
      assert Held(header, SlotField(group, bit)) == None;
      if group != Common { OtherGroupsLeaveIt(cursor, record, group, bit, Common, 36, header, common); }
      if group != kind { OtherGroupsLeaveIt(cursor, record, group, bit, kind, base, common, kinds); }
      if group != Forks { OtherGroupsLeaveIt(cursor, record, group, bit, Forks, end, kinds, entry); }
      if group == Common {
        assert SlotRead(cursor, record, Common, bit, 36, header, common);
        SlotInPlace(cursor, record, Common, bit, 36, header, common, entry);
      } else if group == Forks {
        assert SlotRead(cursor, record, Forks, bit, end, kinds, entry);
        SlotInPlace(cursor, record, Forks, bit, end, kinds, entry, entry);
      } else {
        assert SlotRead(cursor, record, kind, bit, base, common, kinds);
        SlotInPlace(cursor, record, kind, bit, base, common, kinds, entry);
      }
    }
  }

  lemma BodyIsTail(cursor: Cursor, record: Buffer, header: map<nat, Term>)
    requires |record| >= 24 && DirectBody(cursor, record, At(36, header)).At?
    ensures var so := At(36, header);
            var typed := DirectField(cursor, record, Common, TYPE, DirectFields(cursor, record, Common, BEFORE_TYPE, so));
            DirectBody(cursor, record, so) == DirectTail(cursor, record, SaysDirectory(cursor, record), typed)
  {
    TypeIsAtItsPlace(cursor, record, At(36, header));
  }

  lemma TailIsThreeGroups(cursor: Cursor, record: Buffer, kind: Group, header: map<nat, Term>, typed: Progress<map<nat, Term>>)
    returns (common: map<nat, Term>, kinds: map<nat, Term>)
    requires |record| >= 24 && kind == KindGroup(cursor, record)
    requires DirectTail(cursor, record, SaysDirectory(cursor, record), typed).At?
    requires HasRead(cursor, record, Common, 0, 32, 36, At(36, header), DirectFields(cursor, record, Common, AFTER_TYPE, typed))
    ensures var base := 36 + BytesBelow(cursor, Common, 32);
            ThreeGroups(cursor, record, kind, base, base + BytesBelow(cursor, kind, 32), header, common, kinds,
                        DirectTail(cursor, record, SaysDirectory(cursor, record), typed).values)
  {
    var back := DirectFields(cursor, record, Common, AFTER_TYPE, typed);
    var base := 36 + BytesBelow(cursor, Common, 32);
    TableIsRead(cursor, record, kind, base, back);
    var behind := DirectFields(cursor, record, kind, if kind == Directories then OF_DIRECTORIES else OF_FILES, back);
    TableIsRead(cursor, record, Forks, base + BytesBelow(cursor, kind, 32), behind);
    common, kinds := GroupsJoin(cursor, record, kind, header, back, behind,
                                DirectTail(cursor, record, SaysDirectory(cursor, record), typed));
  }

  lemma GroupsJoin(cursor: Cursor, record: Buffer, kind: Group, header: map<nat, Term>, back: Progress<map<nat, Term>>,
                   behind: Progress<map<nat, Term>>, all: Progress<map<nat, Term>>)
    returns (common: map<nat, Term>, kinds: map<nat, Term>)
    requires |record| >= 24 && kind == KindGroup(cursor, record) && all.At?
    requires HasRead(cursor, record, Common, 0, 32, 36, At(36, header), back)
    requires HasRead(cursor, record, kind, 0, 32, 36 + BytesBelow(cursor, Common, 32), back, behind)
    requires HasRead(cursor, record, Forks, 0, 32, 36 + BytesBelow(cursor, Common, 32) + BytesBelow(cursor, kind, 32), behind, all)
    ensures var base := 36 + BytesBelow(cursor, Common, 32);
            ThreeGroups(cursor, record, kind, base, base + BytesBelow(cursor, kind, 32), header, common, kinds, all.values)
  {
    common, kinds := back.values, behind.values;
  }

  lemma BodyIsThreeGroups(cursor: Cursor, record: Buffer, header: map<nat, Term>)
    returns (kind: Group, common: map<nat, Term>, kinds: map<nat, Term>)
    requires |record| >= 24 && DirectBody(cursor, record, At(36, header)).At?
    ensures var base := 36 + BytesBelow(cursor, Common, 32);
            ThreeGroups(cursor, record, kind, base, base + BytesBelow(cursor, kind, 32), header, common, kinds,
                        DirectBody(cursor, record, At(36, header)).values)
  {
    var so := At(36, header);
    kind := KindGroup(cursor, record);
    CommonIsRead(cursor, record, so);
    BodyIsTail(cursor, record, header);
    var typed := DirectField(cursor, record, Common, TYPE, DirectFields(cursor, record, Common, BEFORE_TYPE, so));
    common, kinds := TailIsThreeGroups(cursor, record, kind, header, typed);
  }

  /**
    For every record that is accepted: the entry has a field exactly if its attribute was asked for and returned, and
    its value is what lies behind all attributes asked for that come before it, by group and by bit.
   */
  lemma AttributesAreInPlace(cursor: Cursor, record: Buffer, group: Group, bit: nat)
    requires DirectEntry(cursor, record).Some? && Word(record, 24) == 0
    requires IsInRecord(cursor, record, group) && bit < 32
    ensures InPlace(cursor, record, group, bit, DirectEntry(cursor, record).value)
  {
    EntryIsBody(cursor, record);
    BodyInPlace(cursor, record, DirectHeader(cursor, record), group, bit);
  }

  lemma EntryIsBody(cursor: Cursor, record: Buffer)
    requires DirectEntry(cursor, record).Some? && Word(record, 24) == 0
    ensures HeaderHolds(cursor, record) && DirectHeader(cursor, record).Keys <= {NAME, ERROR, RETURNED_ATTRIBUTES}
    ensures var body := DirectBody(cursor, record, At(36, DirectHeader(cursor, record)));
            body.At? && DirectEntry(cursor, record) == Some(body.values)
  {
    WordIsRead(record, 24);
  }

  lemma BodyInPlace(cursor: Cursor, record: Buffer, header: map<nat, Term>, group: Group, bit: nat)
    requires |record| >= 24 && DirectBody(cursor, record, At(36, header)).At?
    requires header.Keys <= {NAME, ERROR, RETURNED_ATTRIBUTES} && IsInRecord(cursor, record, group) && bit < 32
    ensures InPlace(cursor, record, group, bit, DirectBody(cursor, record, At(36, header)).values)
  {
    var kind, common, kinds := BodyIsThreeGroups(cursor, record, header);
    var base := 36 + BytesBelow(cursor, Common, 32);
    ThreeGroupsInPlace(cursor, record, kind, base, base + BytesBelow(cursor, kind, 32), header, common, kinds,
                       DirectBody(cursor, record, At(36, header)).values, group, bit);
  }

  // -- The header -------------------------------------------------------------------------------------

  lemma BodyKeepsHeader(cursor: Cursor, record: Buffer, header: map<nat, Term>, field: nat)
    requires |record| >= 24 && DirectBody(cursor, record, At(36, header)).At? && field in {NAME, ERROR, RETURNED_ATTRIBUTES}
    ensures Held(DirectBody(cursor, record, At(36, header)).values, field) == Held(header, field)
  {
    var kind, common, kinds := BodyIsThreeGroups(cursor, record, header);
    forall group ensures !IsSlot(group, 0, 32, field) {
      forall bit: nat | bit < 32 ensures !IsField(group, bit, field) { NoHeaderField(group, bit); }
    }
  }

  /** The name, which is a reference relative to its own place, without one trailing NUL. */
  function NameAt(record: Buffer): Option<Buffer>
    requires |record| >= 36
  {
    var start, size := 28 + Word(record, 28), Word(record, 32);
    if Word(record, 28) >= 0x8000_0000 || start + size > |record| then None
    else if size > 0 && record[start + size - 1] == 0 then Some(record[start..start + size - 1])
    else Some(record[start..start + size])
  }

  /** The returned set comes first, then the error, then the name; a record without an error has a name. */
  lemma HeaderIsInPlace(cursor: Cursor, record: Buffer)
    requires DirectEntry(cursor, record).Some? && cursor.bit(Attribute(Common, NAME)) == 0
    ensures |record| >= 36 && Word(record, 8) == 0
    ensures var entry := DirectEntry(cursor, record).value;
            && Held(entry, 48) == Some(Quad(Word(record, 4), Word(record, 12), Word(record, 16), Word(record, 20)))
            && Held(entry, 4) == (if Word(record, 24) == 0 then None else Some(Errno(Signed32(Word(record, 24)))))
            && (if Word(record, 4) % 2 == 1 then NameAt(record).Some? && Held(entry, 1) == Some(Term.Binary(NameAt(record).value))
                else Word(record, 24) != 0 && Held(entry, 1) == None)
  {
    HeaderWords(record);
    var header := DirectHeader(cursor, record);
    if Word(record, 24) == 0 {
      BodyKeepsHeader(cursor, record, header, 1);
      BodyKeepsHeader(cursor, record, header, 4);
      BodyKeepsHeader(cursor, record, header, 48);
    }
  }

  lemma HeaderWords(record: Buffer)
    requires |record| >= 36
    ensures Word(record, 4) == ReadU32(record, 4) && Word(record, 8) == ReadU32(record, 8) && Word(record, 12) == ReadU32(record, 12)
    ensures Word(record, 16) == ReadU32(record, 16) && Word(record, 20) == ReadU32(record, 20)
    ensures Word(record, 24) == ReadU32(record, 24) && Word(record, 28) == ReadU32(record, 28)
    ensures Word(record, 32) == ReadU32(record, 32)
    ensures FourWords(ReturnedSet(record)) == Quad(Word(record, 4), Word(record, 12), Word(record, 16), Word(record, 20))
  {
    var returned := ReturnedSet(record);
    assert returned[..4] == record[4..8] && returned[4..] == record[12..24];
  }

  // -- What the bytes mean ----------------------------------------------------------------------------

  /** A number in so many bytes, the least significant first. */
  function Little(n: nat, size: nat): (bytes: Buffer)
    ensures |bytes| == size
  {
    if size == 0 then [] else [n % 0x100] + Little(n / 0x100, size - 1)
  }

  /** Two's complement. */
  function Wrapped32(n: int): nat
    requires -0x8000_0000 <= n < 0x8000_0000
  {
    if n < 0 then n + 0x1_0000_0000 else n
  }

  function Wrapped64(n: int): nat
    requires -0x8000_0000_0000_0000 <= n < 0x8000_0000_0000_0000
  {
    if n < 0 then n + 0x1_0000_0000_0000_0000 else n
  }

  /** Object types of `<sys/vnode.h>`. */
  function ObjectNumber(kind: Kind): nat {
    match kind
    case Regular => 1
    case Directory => 2
    case BlockDevice => 3
    case CharacterDevice => 4
    case Symlink => 5
    case Socket => 6
    case Fifo => 7
    case Unknown => 0
  }

  predicate Is32(n: int) {
    -0x8000_0000 <= n < 0x8000_0000
  }

  predicate Is64(n: int) {
    -0x8000_0000_0000_0000 <= n < 0x8000_0000_0000_0000
  }

  /** The values that an attribute can have: times are seconds and nanoseconds. */
  predicate IsValueOf(field: nat, term: Term) {
    if field == 2 then term.Type?
    else if field in {6, 42} then term.Pair? && Is32(term.first) && Is32(term.second)
    else if field in {7, 8, 40, 43, 44, 45, 46} then term.Number? && 0 <= term.value < 0x1_0000_0000_0000_0000
    else if field in {28, 29, 33, 34, 35, 36, 39} then term.Number? && Is64(term.value)
    else if field in {9, 10, 11, 12, 13, 14} then term.Pair? && Is64(term.first) && Is64(term.second)
    else if field in {20, 21, 22} then term.Binary? && |term.bytes| == SlotSize(field)
    else field in {3, 5, 15, 16, 17, 18, 19, 24, 25, 26, 27, 30, 31, 37, 38, 41, 47} && term.Number? && 0 <= term.value < 0x1_0000_0000
  }

  /** How the kernel writes such a value. */
  function Laid(field: nat, term: Term): Buffer
    requires IsValueOf(field, term)
  {
    if field == 2 then Little(ObjectNumber(term.kind), 4)
    else if field in {6, 42} then Little(Wrapped32(term.first), 4) + Little(Wrapped32(term.second), 4)
    else if field in {7, 8, 40, 43, 44, 45, 46} then Little(term.value, 8)
    else if field in {28, 29, 33, 34, 35, 36, 39} then Little(Wrapped64(term.value), 8)
    else if field in {9, 10, 11, 12, 13, 14} then Little(Wrapped64(term.first), 8) + Little(Wrapped64(term.second), 8)
    else if field in {20, 21, 22} then term.bytes
    else Little(term.value, 4)
  }

  lemma DigitsOfFour(n: nat)
    requires n < 0x1_0000_0000
    ensures Little(n, 4)[0] as nat + 0x100 * Little(n, 4)[1] as nat + 0x1_0000 * Little(n, 4)[2] as nat
            + 0x100_0000 * Little(n, 4)[3] as nat == n
  {
    var a := n / 0x100;
    var b := a / 0x100;
    var c := b / 0x100;
    assert Little(c, 1) == [c % 0x100];
    assert Little(b, 2) == [b % 0x100, c % 0x100];
    assert Little(a, 3) == [a % 0x100, b % 0x100, c % 0x100];
    assert Little(n, 4) == [n % 0x100, a % 0x100, b % 0x100, c % 0x100];
  }

  lemma {:induction false} LittleSplits(n: nat, size: nat, more: nat)
    ensures Little(n, size + more) == Little(n, size) + Little(Behind(n, size), more)
  {
    if size > 0 { LittleSplits(n / 0x100, size - 1, more); }
  }

  /** The number without its `size` lowest bytes. */
  function Behind(n: nat, size: nat): nat {
    if size == 0 then n else Behind(n / 0x100, size - 1)
  }

  /** The number with `size` bytes below it. */
  function Raised(n: nat, size: nat): nat {
    if size == 0 then n else 0x100 * Raised(n, size - 1)
  }

  lemma {:induction false} LowBytesStay(low: nat, high: nat, size: nat)
    ensures Little(low + Raised(high, size), size) == Little(low, size)
  {
    if size > 0 {
      assert (low + Raised(high, size)) / 0x100 == low / 0x100 + Raised(high, size - 1);
      LowBytesStay(low / 0x100, high, size - 1);
    }
  }

  lemma HighHalf(n: nat)
    ensures Behind(n, 4) == n / 0x1_0000_0000 && Little(n, 4) == Little(n % 0x1_0000_0000, 4)
  {
    var a := n / 0x100;
    var b := a / 0x100;
    var c := b / 0x100;
    assert Behind(c, 1) == c / 0x100;
    assert Behind(b, 2) == c / 0x100;
    assert Behind(a, 3) == c / 0x100;
    assert Behind(n, 4) == c / 0x100;
    var low, high := n % 0x1_0000_0000, n / 0x1_0000_0000;
    assert Raised(high, 1) == 0x100 * high;
    assert Raised(high, 2) == 0x1_0000 * high;
    assert Raised(high, 3) == 0x100_0000 * high;
    assert Raised(high, 4) == 0x1_0000_0000 * high;
    LowBytesStay(low, high, 4);
  }

  lemma WordHeld(record: Buffer, at: nat, n: nat)
    requires n < 0x1_0000_0000 && at + 4 <= |record| && record[at..at + 4] == Little(n, 4)
    ensures ReadU32(record, at) == n
  {
    DigitsOfFour(n);
    var part := record[at..at + 4];
    assert part[0] == record[at] && part[1] == record[at + 1] && part[2] == record[at + 2] && part[3] == record[at + 3];
  }

  lemma LongHeld(record: Buffer, at: nat, n: nat)
    requires n < 0x1_0000_0000_0000_0000 && at + 8 <= |record| && record[at..at + 8] == Little(n, 8)
    ensures ReadU64(record, at) == n
  {
    LongParts(n);
    HalvesHeld(record, at, Little(n % 0x1_0000_0000, 4), Little(n / 0x1_0000_0000, 4));
    WordHeld(record, at, n % 0x1_0000_0000);
    WordHeld(record, at + 4, n / 0x1_0000_0000);
  }

  lemma LongParts(n: nat)
    ensures Little(n, 8) == Little(n % 0x1_0000_0000, 4) + Little(n / 0x1_0000_0000, 4)
  {
    LittleSplits(n, 4, 4);
    HighHalf(n);
  }

  lemma HalvesHeld(record: Buffer, at: nat, low: Buffer, high: Buffer)
    requires |low| == |high| == 4 && at + 8 <= |record| && record[at..at + 8] == low + high
    ensures record[at..at + 4] == low && record[at + 4..at + 8] == high
  {
    assert record[at..at + 4] == record[at..at + 8][..4] && record[at + 4..at + 8] == record[at..at + 8][4..];
  }

  lemma WrapsBack(n: int)
    ensures Is32(n) ==> Wrapped32(n) < 0x1_0000_0000 && Signed32(Wrapped32(n)) == n
    ensures Is64(n) ==> Wrapped64(n) < 0x1_0000_0000_0000_0000 && Signed64(Wrapped64(n)) == n
  {
  }

  lemma PairIsRead(field: nat, term: Term)
    requires field in {6, 42, 9, 10, 11, 12, 13, 14} && IsValueOf(field, term)
    ensures |Laid(field, term)| == SlotSize(field) == RecordSize(field) && FixedTerm(field, Laid(field, term)) == term
  {
    var bytes := Laid(field, term);
    WrapsBack(term.first);
    WrapsBack(term.second);
    if field in {6, 42} {
      WordHeld(bytes, 0, Wrapped32(term.first));
      WordHeld(bytes, 4, Wrapped32(term.second));
    } else {
      LongHeld(bytes, 0, Wrapped64(term.first));
      LongHeld(bytes, 8, Wrapped64(term.second));
    }
  }

  /** What the kernel writes for a value is read as that value. */
  lemma ValuesAreRead(field: nat, term: Term)
    requires IsValueOf(field, term)
    ensures |Laid(field, term)| == SlotSize(field) == RecordSize(field) && FixedTerm(field, Laid(field, term)) == term
  {
    var bytes := Laid(field, term);
    if field in {6, 42, 9, 10, 11, 12, 13, 14} {
      PairIsRead(field, term);
    } else if field == 2 {
      WordHeld(bytes, 0, ObjectNumber(term.kind));
    } else if field in {7, 8, 40, 43, 44, 45, 46} {
      LongHeld(bytes, 0, term.value);
    } else if field in {28, 29, 33, 34, 35, 36, 39} {
      WrapsBack(term.value);
      LongHeld(bytes, 0, Wrapped64(term.value));
    } else if !(field in {20, 21, 22}) {
      WordHeld(bytes, 0, term.value);
    }
  }

  /** The one-byte codes under which types are packed and counted. */
  lemma PackedTypes(kind: Kind)
    ensures var bytes := Laid(2, Type(kind));
            && |bytes| == RecordSize(2)
            && FixedCell(2, bytes)
               == [if kind == Regular then 1 else if kind == Directory then 2 else if kind == Symlink then 3
                   else if kind == BlockDevice then 4 else if kind == CharacterDevice then 5
                   else if kind == Socket then 6 else if kind == Fifo then 7 else 0]
  {
    WordHeld(Laid(2, Type(kind)), 0, ObjectNumber(kind));
  }

  lemma ValueLies(record: Buffer, field: nat, at: nat, term: Term)
    requires IsValueOf(field, term) && at + SlotSize(field) <= |record| && record[at..at + SlotSize(field)] == Laid(field, term)
    ensures ValueAt(record, field, at) == Some(term)
  {
    ValuesAreRead(field, term);
  }

  lemma PlacedValue(cursor: Cursor, record: Buffer, group: Group, bit: nat, entry: map<nat, Term>, term: Term)
    requires |record| >= 24 && InPlace(cursor, record, group, bit, entry) && HasValue(cursor, record, group, bit)
    requires IsValueOf(SlotField(group, bit), term)
    requires var at := GroupStart(cursor, record, group) + BytesBelow(cursor, group, bit);
             at + SlotSize(SlotField(group, bit)) <= |record| ==>
               record[at..at + SlotSize(SlotField(group, bit))] == Laid(SlotField(group, bit), term)
    ensures Held(entry, SlotField(group, bit)) == Some(term)
  {
    var at := GroupStart(cursor, record, group) + BytesBelow(cursor, group, bit);
    if at + SlotSize(SlotField(group, bit)) <= |record| { ValueLies(record, SlotField(group, bit), at, term); }
  }

  /**
    From the kernel to the entry: where a record holds, at the place of an attribute that it returned, what the kernel
    writes for a value, the entry has that value.
   */
  lemma EntryIsWhatWasWritten(cursor: Cursor, record: Buffer, group: Group, bit: nat, term: Term)
    requires DirectEntry(cursor, record).Some? && Word(record, 24) == 0
    requires IsInRecord(cursor, record, group) && bit < 32 && HasValue(cursor, record, group, bit)
    requires IsValueOf(SlotField(group, bit), term)
    requires var at := GroupStart(cursor, record, group) + BytesBelow(cursor, group, bit);
             at + SlotSize(SlotField(group, bit)) <= |record| ==>
               record[at..at + SlotSize(SlotField(group, bit))] == Laid(SlotField(group, bit), term)
    ensures Held(DirectEntry(cursor, record).value, SlotField(group, bit)) == Some(term)
  {
    AttributesAreInPlace(cursor, record, group, bit);
    PlacedValue(cursor, record, group, bit, DirectEntry(cursor, record).value, term);
  }

  // -- What is asked for ------------------------------------------------------------------------------

  /** A field asks for the attributes that are its own, in every group that has one. */
  lemma NeededAreItsSlots(group: Group, bit: nat, field: nat)
    requires SlotField(group, bit) != 0 && 0 < field < 49 && field != 32
    ensures Attribute(group, SlotField(group, bit)) in Needed(field) <==> SlotField(group, bit) == field
  {
  }

  lemma {:induction false} AddedAttributes(fields: seq<nat>, cursor: Cursor, attribute: Attribute)
    requires AddFields(fields, cursor).Some?
    ensures attribute in AddFields(fields, cursor).value.attributes
            <==> attribute in cursor.attributes || exists i :: 0 <= i < |fields| && attribute in Needed(fields[i])
    ensures forall i :: 0 <= i < |fields| ==> 0 < fields[i] < 49 && fields[i] != 32
  {
    if fields != [] {
      AddedAttributes(fields[1..], cursor.(requested := cursor.requested + {fields[0]},
                                           attributes := cursor.attributes + Needed(fields[0])), attribute);
      assert forall i :: 0 < i < |fields| ==> fields[i] == fields[1..][i - 1];
      if i :| 0 <= i < |fields| - 1 && attribute in Needed(fields[1..][i]) { assert attribute in Needed(fields[i + 1]); }
    }
  }

  /** Fields that directories or other files have and not every object. */
  predicate DependsOnKind(field: nat) {
    27 <= field <= 38
  }

  lemma AddedSlots(fields: seq<nat>, so: Cursor, group: Group, bit: nat)
    requires AddFields(fields, so).Some? && so.attributes == Always() && SlotField(group, bit) != 0
    ensures Attribute(group, SlotField(group, bit)) in AddFields(fields, so).value.attributes <==> SlotField(group, bit) in fields
  {
    var field, attribute := SlotField(group, bit), Attribute(group, SlotField(group, bit));
    AddedAttributes(fields, so, attribute);
    NoHeaderField(group, bit);
    if i :| 0 <= i < |fields| && attribute in Needed(fields[i]) { NeededAreItsSlots(group, bit, fields[i]); }
    if field in fields {
      var i :| 0 <= i < |fields| && fields[i] == field;
      NeededAreItsSlots(group, bit, fields[i]);
    }
  }

  /** Exactly the attributes of the fields requested are asked for, and the type as soon as a field depends on it. */
  lemma AskedIsRequested(fields: seq<nat>, bits: Attribute -> nat, group: Group, bit: nat)
    requires Configured(fields, bits).Some? && SlotField(group, bit) != 0
    ensures Asked(Configured(fields, bits).value, group, bit)
            <==> SlotField(group, bit) in fields || (SlotField(group, bit) == 2 && exists field :: field in fields && DependsOnKind(field))
  {
    var field, attribute, so := SlotField(group, bit), Attribute(group, SlotField(group, bit)), Cursor({NAME, ERROR, RETURNED_ATTRIBUTES}, Always(), bits);
    AddedSlots(fields, so, group, bit);
    if field == 2 { TypeIsAskedForKinds(fields, so); }
  }

  lemma TypeIsAskedForKinds(fields: seq<nat>, so: Cursor)
    requires AddFields(fields, so).Some? && so.attributes == Always()
    ensures var added := AddFields(fields, so).value;
            HasGroup(added, Directories) || HasGroup(added, Files) <==> exists field :: field in fields && DependsOnKind(field)
  {
    KindsAreAsked(fields, so, Directories);
    KindsAreAsked(fields, so, Files);
    AddedAttributes(fields, so, Attribute(Common, TYPE));
    if field :| field in fields && DependsOnKind(field) {
      var i :| 0 <= i < |fields| && fields[i] == field;
      KindFields(field);
    }
    if field :| field in fields && (OfKind(Directories, field) || OfKind(Files, field)) { KindFields(field); }
  }

  lemma KindFields(field: nat)
    ensures field != 32 ==> (DependsOnKind(field) <==> OfKind(Directories, field) || OfKind(Files, field))
    ensures OfKind(Directories, field) || OfKind(Files, field) ==> DependsOnKind(field)
  {
  }

  /** The fields that a group of one kind of object has. */
  predicate OfKind(group: Group, field: nat) {
    field in (if group == Directories then {27, 29, 30, 33, 37, 38} else {27, 28, 29, 30, 31, 33, 34, 35, 36})
  }

  lemma NeededOfKind(group: Group, field: nat, attribute: Attribute)
    requires (group == Directories || group == Files) && attribute.group == group
    ensures attribute in Needed(field) <==> attribute.field == field && OfKind(group, field)
  {
  }

  lemma KindsAreAsked(fields: seq<nat>, so: Cursor, group: Group)
    requires AddFields(fields, so).Some? && so.attributes == Always() && (group == Directories || group == Files)
    ensures HasGroup(AddFields(fields, so).value, group) <==> exists field :: field in fields && OfKind(group, field)
  {
    var added := AddFields(fields, so).value;
    if attribute :| attribute in added.attributes && attribute.group == group {
      AddedAttributes(fields, so, attribute);
      var i :| 0 <= i < |fields| && attribute in Needed(fields[i]);
      NeededOfKind(group, fields[i], attribute);
    }
    if field :| field in fields && OfKind(group, field) {
      var attribute := Attribute(group, field);
      AddedAttributes(fields, so, attribute);
      var i :| 0 <= i < |fields| && fields[i] == field;
      NeededOfKind(group, fields[i], attribute);
    }
  }

  // -- Which records are accepted ---------------------------------------------------------------------

  /** Where the four words of returned attributes are, behind the record's length: the second is for volumes. */
  function ReturnedWord(group: Group): nat {
    match group
    case Common => 4
    case Directories => 12
    case Files => 16
    case Forks => 20
  }

  predicate IsAskedBit(cursor: Cursor, group: Group, bit: nat) {
    exists attribute :: attribute in cursor.attributes && attribute.group == group && cursor.bit(attribute) == bit
  }

  /** No volume attribute and none that was not asked for is returned; a record has a name, or else an error. */
  predicate AcceptsHeader(cursor: Cursor, record: Buffer) {
    && |record| >= 36 && Word(record, 8) == 0
    && (forall group: Group, bit {:trigger IsAskedBit(cursor, group, bit)} ::
          0 <= bit < 32 && BitOf(Word(record, ReturnedWord(group)), bit) ==> IsAskedBit(cursor, group, bit))
    && (if BitOf(Word(record, 4), cursor.bit(Attribute(Common, NAME))) then NameAt(record).Some? else Word(record, 24) != 0)
  }

  /** The record holds all that was asked for, and its access control list, if it has one. */
  predicate BodyFits(cursor: Cursor, record: Buffer)
    requires |record| >= 24
  {
    && ((exists attribute :: attribute in cursor.attributes && (attribute.group == Directories || attribute.group == Files)) ==>
          Asked(cursor, Common, 3) && WasReturned(cursor, record, Attribute(Common, TYPE)))
    && GroupStart(cursor, record, Forks) + BytesBelow(cursor, Forks, 32) <= |record|
    && AclFits(cursor, record)
  }

  predicate AclFits(cursor: Cursor, record: Buffer)
    requires |record| >= 24
  {
    HasValue(cursor, record, Common, 22) ==> ValueAt(record, 23, 36 + BytesBelow(cursor, Common, 22)).Some?
  }

  lemma {:induction false} BytesAscend(cursor: Cursor, group: Group, low: nat, high: nat)
    requires low <= high
    ensures BytesBelow(cursor, group, low) <= BytesBelow(cursor, group, high)
    decreases high
  {
    if low < high { BytesAscend(cursor, group, low, high - 1); }
  }

  predicate MayFail(group: Group, bit: nat) {
    group == Common && bit == 22
  }

  lemma ReferenceFits(record: Buffer, at: nat)
    requires at + 8 <= |record|
    ensures ValueAt(record, 23, at).Some? <==> Referenced(record, at, false).Some?
  {
    WordIsRead(record, at);
    WordIsRead(record, at + 4);
  }

  lemma OnlyAclMayFail(group: Group, bit: nat)
    ensures SlotField(group, bit) == ACL <==> MayFail(group, bit)
  {
  }

  lemma SlotFits(cursor: Cursor, record: Buffer, group: Group, bit: nat, at: nat, so: Progress<map<nat, Term>>)
    requires |record| >= 24 && SlotField(group, bit) != 0 && so.At? && so.next == at <= |record|
    ensures var field := SlotField(group, bit);
            var end := at + if Asked(cursor, group, bit) then SlotSize(field) else 0;
            DirectField(cursor, record, group, field, so).At?
            <==> end <= |record| && (MayFail(group, bit) && HasValue(cursor, record, group, bit) ==> ValueAt(record, 23, at).Some?)
  {
    SizesAgree(group, bit);
    OnlyAclMayFail(group, bit);
    if MayFail(group, bit) && at + 8 <= |record| { ReferenceFits(record, at); }
  }

  ghost predicate FitsRange(cursor: Cursor, record: Buffer, group: Group, low: nat, high: nat, base: nat)
    requires |record| >= 24
  {
    && base + BytesBelow(cursor, group, high) <= |record|
    && (group == Common && low <= 22 < high && HasValue(cursor, record, Common, 22) ==>
          ValueAt(record, 23, base + BytesBelow(cursor, Common, 22)).Some?)
  }

  /** The attributes from one bit up to another are read exactly if they fit. */
  ghost predicate ReadsIfFits(cursor: Cursor, record: Buffer, group: Group, low: nat, high: nat, base: nat,
                              after: Progress<map<nat, Term>>)
    requires |record| >= 24
  {
    && (after.At? <==> FitsRange(cursor, record, group, low, high, base))
    && (after.At? ==> after.next == base + BytesBelow(cursor, group, high))
  }

  lemma FitsLess(cursor: Cursor, record: Buffer, group: Group, low: nat, last: nat, base: nat)
    requires |record| >= 24 && FitsRange(cursor, record, group, low, last + 1, base)
    ensures FitsRange(cursor, record, group, low, last, base)
  {
  }

  lemma ReadsOneMore(cursor: Cursor, record: Buffer, group: Group, low: nat, last: nat, base: nat, middle: Progress<map<nat, Term>>)
    requires |record| >= 24 && low <= last && SlotField(group, last) != 0
    requires ReadsIfFits(cursor, record, group, low, last, base, middle)
    ensures ReadsIfFits(cursor, record, group, low, last + 1, base, DirectField(cursor, record, group, SlotField(group, last), middle))
  {
    if middle.At? {
      SlotFits(cursor, record, group, last, base + BytesBelow(cursor, group, last), middle);
      SlotIsRead(cursor, record, group, last, base + BytesBelow(cursor, group, last), middle);
    } else if FitsRange(cursor, record, group, low, last + 1, base) {
      FitsLess(cursor, record, group, low, last, base);
    }
  }

  lemma ReadsNoMore(cursor: Cursor, record: Buffer, group: Group, low: nat, last: nat, base: nat, middle: Progress<map<nat, Term>>)
    requires |record| >= 24 && low <= last && SlotField(group, last) == 0
    requires ReadsIfFits(cursor, record, group, low, last, base, middle)
    ensures ReadsIfFits(cursor, record, group, low, last + 1, base, middle)
  {
    OnlyAclMayFail(group, last);
  }

  lemma {:induction false} RangeFits(cursor: Cursor, record: Buffer, group: Group, low: nat, from: nat, high: nat, base: nat,
                                     so: Progress<map<nat, Term>>)
    requires |record| >= 24 && low <= from <= high && ReadsIfFits(cursor, record, group, low, from, base, so)
    ensures ReadsIfFits(cursor, record, group, low, high, base,
                        DirectFields(cursor, record, group, FieldsBetween(group, from, high), so))
    decreases high
  {
    if from < high {
      var last := high - 1;
      var fields := FieldsBetween(group, from, last);
      RangeFits(cursor, record, group, low, from, last, base, so);
      var middle := DirectFields(cursor, record, group, fields, so);
      if SlotField(group, last) == 0 {
        assert FieldsBetween(group, from, high) == fields;
        ReadsNoMore(cursor, record, group, low, last, base, middle);
      } else {
        FieldsOneMore(cursor, record, group, fields, SlotField(group, last), so);
        ReadsOneMore(cursor, record, group, low, last, base, middle);
      }
    }
  }

  lemma ReadsNothing(cursor: Cursor, record: Buffer, group: Group, base: nat, so: Progress<map<nat, Term>>)
    requires |record| >= 24 && so.At? && so.next == base <= |record|
    ensures ReadsIfFits(cursor, record, group, 0, 0, base, so)
  {
  }

  lemma CommonFits(cursor: Cursor, record: Buffer, so: Progress<map<nat, Term>>)
    requires |record| >= 36 && so.At? && so.next == 36
    ensures var typed := DirectField(cursor, record, Common, TYPE, DirectFields(cursor, record, Common, BEFORE_TYPE, so));
            ReadsIfFits(cursor, record, Common, 0, 32, 36, DirectFields(cursor, record, Common, AFTER_TYPE, typed))
  {
    FrontTable();
    ReadsNothing(cursor, record, Common, 36, so);
    RangeFits(cursor, record, Common, 0, 0, 3, 36, so);
    var front := DirectFields(cursor, record, Common, BEFORE_TYPE, so);
    ReadsOneMore(cursor, record, Common, 0, 3, 36, front);
    BackTable();
    RangeFits(cursor, record, Common, 0, 4, 32, 36, DirectField(cursor, record, Common, TYPE, front));
  }

  lemma TableFits(cursor: Cursor, record: Buffer, group: Group, base: nat, so: Progress<map<nat, Term>>)
    requires |record| >= 24 && group != Common && so.At? && so.next == base <= |record|
    ensures var table := if group == Directories then OF_DIRECTORIES else if group == Files then OF_FILES else OF_FORKS;
            ReadsIfFits(cursor, record, group, 0, 32, base, DirectFields(cursor, record, group, table, so))
  {
    ReadsNothing(cursor, record, group, base, so);
    RangeFits(cursor, record, group, 0, 0, 32, base, so);
    if group == Directories { DirectoryTable(); } else if group == Files { FileTable(); } else { ForkTable(); }
  }

  lemma {:induction false} RejectedStays(cursor: Cursor, record: Buffer, group: Group, fields: seq<nat>)
    requires |record| >= 24
    ensures DirectFields(cursor, record, group, fields, Rejected).Rejected?
  {
    if fields != [] { RejectedStays(cursor, record, group, fields[..|fields| - 1]); }
  }

  /** Behind the common attributes everything is read exactly if it fits. */
  lemma TailFits(cursor: Cursor, record: Buffer, kind: Group, base: nat, back: Progress<map<nat, Term>>)
    requires |record| >= 24 && (kind == Directories || kind == Files)
    requires back.At? ==> back.next == base <= |record|
    ensures var table := if kind == Directories then OF_DIRECTORIES else OF_FILES;
            DirectFields(cursor, record, Forks, OF_FORKS, DirectFields(cursor, record, kind, table, back)).At?
            <==> back.At? && base + BytesBelow(cursor, kind, 32) + BytesBelow(cursor, Forks, 32) <= |record|
  {
    var table := if kind == Directories then OF_DIRECTORIES else OF_FILES;
    var behind := DirectFields(cursor, record, kind, table, back);
    if back.Rejected? {
      RejectedStays(cursor, record, kind, table);
      RejectedStays(cursor, record, Forks, OF_FORKS);
    } else {
      TableFits(cursor, record, kind, base, back);
      if behind.At? { TableFits(cursor, record, Forks, base + BytesBelow(cursor, kind, 32), behind); }
      else { RejectedStays(cursor, record, Forks, OF_FORKS); }
    }
  }

  lemma TypedFits(cursor: Cursor, record: Buffer, so: Progress<map<nat, Term>>)
    requires |record| >= 36 && so.At? && so.next == 36
    ensures var typed := DirectField(cursor, record, Common, TYPE, DirectFields(cursor, record, Common, BEFORE_TYPE, so));
            typed.At? <==> 36 + BytesBelow(cursor, Common, 4) <= |record|
  {
    FrontTable();
    ReadsNothing(cursor, record, Common, 36, so);
    RangeFits(cursor, record, Common, 0, 0, 3, 36, so);
    ReadsOneMore(cursor, record, Common, 0, 3, 36, DirectFields(cursor, record, Common, BEFORE_TYPE, so));
  }

  lemma BodyIsAccepted(cursor: Cursor, record: Buffer, so: Progress<map<nat, Term>>)
    requires |record| >= 36 && so.At? && so.next == 36
    ensures DirectBody(cursor, record, so).At? <==> BodyFits(cursor, record)
  {
    TypedFits(cursor, record, so);
    TypeIsAtItsPlace(cursor, record, so);
    CommonFits(cursor, record, so);
    var typed := DirectField(cursor, record, Common, TYPE, DirectFields(cursor, record, Common, BEFORE_TYPE, so));
    BytesAscend(cursor, Common, 4, 32);
    if typed.At? {
      TailFits(cursor, record, KindGroup(cursor, record), 36 + BytesBelow(cursor, Common, 32),
               DirectFields(cursor, record, Common, AFTER_TYPE, typed));
    }
  }

  lemma NameIsReferenced(record: Buffer)
    requires |record| >= 36
    ensures NameAt(record).Some? <==> Referenced(record, 28, true).Some?
  {
    HeaderWords(record);
  }

  lemma HeaderIsAccepted(cursor: Cursor, record: Buffer)
    ensures AcceptsHeader(cursor, record) <==> HeaderHolds(cursor, record)
  {
    if |record| >= 36 {
      HeaderWords(record);
      NameIsReferenced(record);
      forall group: Group, bit ensures IsAskedBit(cursor, group, bit) <==> KnownBit(cursor, group, bit) {
      }
      assert forall group: Group :: Word(record, ReturnedWord(group)) == ReadU32(record, GroupAt(group));
      if HeaderHolds(cursor, record) {
        forall group: Group, bit | 0 <= bit < 32 && BitOf(Word(record, ReturnedWord(group)), bit)
          ensures IsAskedBit(cursor, group, bit)
        {
          assert OnlyRequested(cursor, record, group);
        }
      }
    }
  }

  /** A record becomes an entry exactly if its header is acceptable and, unless it has an error, its body fits. */
  lemma AcceptedExactly(cursor: Cursor, record: Buffer)
    ensures DirectEntry(cursor, record).Some?
            <==> AcceptsHeader(cursor, record) && (Word(record, 24) != 0 || BodyFits(cursor, record))
  {
    HeaderIsAccepted(cursor, record);
    if AcceptsHeader(cursor, record) {
      WordIsRead(record, 24);
      BodyIsAccepted(cursor, record, At(36, DirectHeader(cursor, record)));
    }
  }
}
