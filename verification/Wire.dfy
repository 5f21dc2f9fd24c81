/** External terms on the wire: encoding, decoding, and the round trip up to a canonical form. */
module Wire {
  import opened Bytes
  import opened Words

  const NEW_FLOAT_EXT: Byte := 70
  const SMALL_INTEGER_EXT: Byte := 97
  const INTEGER_EXT: Byte := 98
  const ATOM_EXT: Byte := 100
  const SMALL_TUPLE_EXT: Byte := 104
  const LARGE_TUPLE_EXT: Byte := 105
  const NIL_EXT: Byte := 106
  const STRING_EXT: Byte := 107
  const LIST_EXT: Byte := 108
  const BINARY_EXT: Byte := 109
  const SMALL_BIG_EXT: Byte := 110
  const LARGE_BIG_EXT: Byte := 111
  const SMALL_ATOM_EXT: Byte := 115
  const MAP_EXT: Byte := 116
  const ATOM_UTF8_EXT: Byte := 118
  const SMALL_ATOM_UTF8_EXT: Byte := 119

  const MAXIMUM_NESTING: nat := 128

  const UINT16: nat := 0x1_0000
  const INT64_MAX: int := 0x7FFF_FFFF_FFFF_FFFF

  /** A float is its eight bytes, most significant first. */
  datatype Value =
    | Null
    | Bool(truth: bool)
    | Unsigned(number: nat)
    | Signed(signed: int)
    | Float(bits: Buffer)
    | Binary(bytes: Buffer)
    | Atom(name: Buffer)
    | Tuple(values: seq<Value>)
    | List(items: seq<Value>)
    | Map(entries: seq<Entry>)

  datatype Entry = Entry(key: Value, value: Value)

  // -- Text -------------------------------------------------------------------------------------------

  predicate Between(byte: Byte, low: Byte, high: Byte) {
    low <= byte <= high
  }

  /** The bytes of one character at the front, by the table of RFC 3629; 0 if there is none. */
  function CharacterSize(text: Buffer): (size: nat)
    requires text != []
    ensures size <= |text|
  {
    var n, b := |text|, text[0];
    if b < 0x80 then 1
    else if n >= 2 && Between(b, 0xC2, 0xDF) && Between(text[1], 0x80, 0xBF) then 2
    else if n >= 3 && Between(b, 0xE0, 0xEF) && Between(text[2], 0x80, 0xBF)
         && Between(text[1], if b == 0xE0 then 0xA0 else 0x80, if b == 0xED then 0x9F else 0xBF) then 3
    else if n >= 4 && Between(b, 0xF0, 0xF4) && Between(text[2], 0x80, 0xBF) && Between(text[3], 0x80, 0xBF)
         && Between(text[1], if b == 0xF0 then 0x90 else 0x80, if b == 0xF4 then 0x8F else 0xBF) then 4
    else 0
  }

  predicate IsUtf8(text: Buffer)
    decreases |text|
  {
    text == [] || (CharacterSize(text) > 0 && IsUtf8(text[CharacterSize(text)..]))
  }

  const NIL_NAME: Buffer := [0x6E, 0x69, 0x6C]
  const NULL_NAME: Buffer := [0x6E, 0x75, 0x6C, 0x6C]
  const TRUE_NAME: Buffer := [0x74, 0x72, 0x75, 0x65]
  const FALSE_NAME: Buffer := [0x66, 0x61, 0x6C, 0x73, 0x65]

  // -- Numbers ----------------------------------------------------------------------------------------

  function BigEndian(number: nat, size: nat): (bytes: Buffer)
    ensures |bytes| == size
  {
    if size == 0 then [] else BigEndian(number / 256, size - 1) + [number % 256]
  }

  function FromBigEndian(bytes: Buffer): nat {
    if bytes == [] then 0 else 256 * FromBigEndian(bytes[..|bytes| - 1]) + bytes[|bytes| - 1] as nat
  }

  function LittleEndian(number: nat): Buffer {
    if number == 0 then [] else [number % 256] + LittleEndian(number / 256)
  }

  function FromLittleEndian(bytes: Buffer): nat {
    if bytes == [] then 0 else bytes[0] as nat + 256 * FromLittleEndian(bytes[1..])
  }

  function Power256(n: nat): nat {
    if n == 0 then 1 else 256 * Power256(n - 1)
  }

  lemma {:induction false} BigEndianRoundTrip(number: nat, size: nat)
    ensures number < Power256(size) ==> FromBigEndian(BigEndian(number, size)) == number
  {
    if size > 0 {
      BigEndianRoundTrip(number / 256, size - 1);
      var front := BigEndian(number / 256, size - 1);
      assert BigEndian(number, size)[..size - 1] == front;
    }
  }

  lemma {:induction false} LittleEndianRoundTrip(number: nat)
    ensures FromLittleEndian(LittleEndian(number)) == number
  {
    if number > 0 {
      LittleEndianRoundTrip(number / 256);
      assert LittleEndian(number)[1..] == LittleEndian(number / 256);
    }
  }

  lemma {:induction false} LittleEndianSize(number: nat, n: nat)
    requires number < Power256(n)
    ensures |LittleEndian(number)| <= n
  {
    if number > 0 { LittleEndianSize(number / 256, n - 1); }
  }

  lemma Powers()
    ensures Power256(2) == UINT16 && Power256(4) == UINT32 && Power256(8) == UINT64
  {
    assert Power256(1) == 256;
    assert Power256(2) == 65536;
    assert Power256(3) == 256 * 65536;
    assert Power256(4) == 65536 * 65536;
    assert Power256(6) == 256 * 256 * Power256(4);
  }

  // -- Encoding ---------------------------------------------------------------------------------------

  /** Values that the source's types admit. */
  predicate WellTyped(v: Value)
    decreases v
  {
    match v
    case Unsigned(number) => number < UINT64
    case Signed(signed) => -INT64_MAX - 1 <= signed <= INT64_MAX
    case Float(bits) => |bits| == 8
    case Atom(name) => IsUtf8(name)
    case Tuple(values) => AllTyped(values)
    case List(items) => AllTyped(items)
    case Map(entries) => EntriesTyped(entries)
    case _ => true
  }

  predicate AllTyped(values: seq<Value>)
    decreases values
  {
    values == [] || (WellTyped(values[0]) && AllTyped(values[1..]))
  }

  predicate EntryTyped(entry: Entry)
    decreases entry
  {
    WellTyped(entry.key) && WellTyped(entry.value)
  }

  predicate EntriesTyped(entries: seq<Entry>)
    decreases entries
  {
    entries == [] || (EntryTyped(entries[0]) && EntriesTyped(entries[1..]))
  }

  /** A length is cut to the width of its field. */
  function Length32(n: nat): Buffer {
    BigEndian(n % UINT32, 4)
  }

  function EncodeUnsigned(number: nat): Buffer {
    if number < 256 then [SMALL_INTEGER_EXT, number]
    else if number <= INT32_MAX then [INTEGER_EXT] + BigEndian(number, 4)
    else EncodeBig(number, false)
  }

  function Magnitude(number: nat): (bytes: Buffer)
    ensures bytes != []
  {
    if number == 0 then [0] else LittleEndian(number)
  }

  function EncodeBig(number: nat, negative: bool): Buffer {
    [SMALL_BIG_EXT, |Magnitude(number)| % 256, if negative then 1 else 0] + Magnitude(number)
  }

  function EncodeAtom(name: Buffer): Buffer {
    (if |name| < 256 then [SMALL_ATOM_UTF8_EXT, |name|] else [ATOM_UTF8_EXT] + BigEndian(|name| % UINT16, 2)) + name
  }

  function Encode(v: Value): (bytes: Buffer)
    decreases v
  {
    match v
    case Null => EncodeAtom(NIL_NAME)
    case Bool(truth) => EncodeAtom(if truth then TRUE_NAME else FALSE_NAME)
    case Unsigned(number) => EncodeUnsigned(number)
    case Signed(signed) =>
      if signed >= 0 then EncodeUnsigned(signed)
      else if signed >= -INT32_MAX - 1 then [INTEGER_EXT] + BigEndian(signed + UINT32, 4)
      else EncodeBig(-signed, true)
    case Float(bits) => [NEW_FLOAT_EXT] + bits
    case Binary(bytes) => [BINARY_EXT] + Length32(|bytes|) + bytes
    case Atom(name) => EncodeAtom(name)
    case Tuple(values) =>
      (if |values| < 256 then [SMALL_TUPLE_EXT, |values|] else [LARGE_TUPLE_EXT] + Length32(|values|)) + EncodeAll(values)
    case List(items) => if items == [] then [NIL_EXT] else [LIST_EXT] + Length32(|items|) + EncodeAll(items) + [NIL_EXT]
    case Map(entries) => [MAP_EXT] + Length32(|entries|) + EncodeEntries(entries)
  }

  function EncodeAll(values: seq<Value>): Buffer
    decreases values
  {
    if values == [] then [] else Encode(values[0]) + EncodeAll(values[1..])
  }

  function EncodeEntries(entries: seq<Entry>): Buffer
    decreases entries
  {
    if entries == [] then [] else EncodeEntry(entries[0]) + EncodeEntries(entries[1..])
  }

  function EncodeEntry(entry: Entry): Buffer
    decreases entry
  {
    Encode(entry.key) + Encode(entry.value)
  }

  // -- Decoding ---------------------------------------------------------------------------------------

  datatype Error =
    | TooDeep | Truncated | NotUtf8 | TooLong | ImproperList | TooBig | InvalidSign | BelowInt64 | UnknownTag
    | NotATerm | TrailingBytes

  datatype Result<+T> = Ok(value: T, next: nat) | Err(error: Error)

  /** `n` bytes, if the payload still has them. */
  function Take(input: Buffer, at: nat, n: nat): (r: Result<Buffer>)
    ensures r.Ok? <==> at + n <= |input|
    ensures r.Ok? ==> r.next == at + n && |r.value| == n
  {
    if at + n <= |input| then Ok(input[at..at + n], at + n) else Err(Truncated)
  }

  function TakeNumber(input: Buffer, at: nat, size: nat): (r: Result<nat>)
    ensures r.Ok? <==> at + size <= |input|
    ensures r.Ok? ==> r.next == at + size
  {
    match Take(input, at, size)
    case Ok(bytes, next) => Ok(FromBigEndian(bytes), next)
    case Err(error) => Err(error)
  }

  function DecodeAtom(input: Buffer, length: Result<nat>): (r: Result<Value>)
    requires length.Ok? ==> length.next <= |input|
    ensures r.Ok? ==> length.Ok? && length.next <= r.next <= |input|
  {
    if length.Err? then Err(length.error)
    else match Take(input, length.next, length.value)
      case Err(error) => Err(error)
      case Ok(name, next) =>
        if !IsUtf8(name) then Err(NotUtf8)
        else if name == NIL_NAME || name == NULL_NAME then Ok(Null, next)
        else if name == TRUE_NAME then Ok(Bool(true), next)
        else if name == FALSE_NAME then Ok(Bool(false), next)
        else Ok(Atom(name), next)
  }

  function DecodeBig(input: Buffer, length: Result<nat>): (r: Result<Value>)
    requires length.Ok? ==> length.next <= |input|
    ensures r.Ok? ==> length.Ok? && length.next < r.next <= |input|
  {
    if length.Err? then Err(length.error)
    else if length.value > 8 then Err(TooBig)
    else if length.next == |input| then Err(Truncated)
    else
      var sign := input[length.next];
      if sign > 1 then Err(InvalidSign)
      else match Take(input, length.next + 1, length.value)
        case Err(error) => Err(error)
        case Ok(bytes, next) =>
          var magnitude: int := FromLittleEndian(bytes);
          if sign == 0 then Ok(Unsigned(magnitude), next)
          else if magnitude <= INT64_MAX + 1 then Ok(Signed(-magnitude), next)
          else Err(BelowInt64)
  }

  function Numbers(bytes: Buffer): (values: seq<Value>)
    ensures |values| == |bytes| && forall i :: 0 <= i < |bytes| ==> values[i] == Unsigned(bytes[i])
  {
    seq(|bytes|, i requires 0 <= i < |bytes| => Unsigned(bytes[i]))
  }

  /**
    The value at a position. It takes at least one byte and stays inside the payload; a collection longer
    than the bytes that are left is refused before its elements are read.
   */
  function Decode(input: Buffer, at: nat, depth: nat): (r: Result<Value>)
    requires at <= |input|
    ensures r.Ok? ==> at < r.next <= |input|
    decreases |input| - at, 0
  {
    if depth > MAXIMUM_NESTING then Err(TooDeep)
    else if at == |input| then Err(Truncated)
    else DecodeTagged(input, at + 1, depth, input[at])
  }

  /** What follows a tag. */
  function DecodeTagged(input: Buffer, at: nat, depth: nat, tag: Byte): (r: Result<Value>)
    requires at <= |input|
    ensures r.Ok? ==> at <= r.next <= |input|
    decreases |input| - at, 4
  {
    if tag == SMALL_TUPLE_EXT then DecodeTuple(input, at, depth, 1)
    else if tag == LARGE_TUPLE_EXT then DecodeTuple(input, at, depth, 4)
    else if tag == LIST_EXT then DecodeList(input, at, depth)
    else if tag == MAP_EXT then DecodeMap(input, at, depth)
    else DecodeScalar(input, at, tag)
  }

  function DecodeScalar(input: Buffer, at: nat, tag: Byte): (r: Result<Value>)
    requires at <= |input|
    ensures r.Ok? ==> at <= r.next <= |input|
  {
    if tag == SMALL_INTEGER_EXT then
      (match TakeNumber(input, at, 1) case Ok(n, next) => Ok(Unsigned(n), next) case Err(error) => Err(error))
    else if tag == INTEGER_EXT then
      (match TakeNumber(input, at, 4) case Ok(n, next) => Ok(Signed(Signed32(n)), next) case Err(error) => Err(error))
    else if tag == NEW_FLOAT_EXT then
      (match Take(input, at, 8) case Ok(bits, next) => Ok(Float(bits), next) case Err(error) => Err(error))
    else if tag == ATOM_EXT || tag == ATOM_UTF8_EXT then DecodeAtom(input, TakeNumber(input, at, 2))
    else if tag == SMALL_ATOM_EXT || tag == SMALL_ATOM_UTF8_EXT then DecodeAtom(input, TakeNumber(input, at, 1))
    else if tag == NIL_EXT then Ok(List([]), at)
    else if tag == STRING_EXT then
      (match TakeNumber(input, at, 2)
       case Err(error) => Err(error)
       case Ok(length, next) =>
         match Take(input, next, length)
         case Ok(bytes, end) => Ok(List(Numbers(bytes)), end)
         case Err(error) => Err(error))
    else if tag == BINARY_EXT then
      (match TakeNumber(input, at, 4)
       case Err(error) => Err(error)
       case Ok(length, next) =>
         match Take(input, next, length)
         case Ok(bytes, end) => Ok(Binary(bytes), end)
         case Err(error) => Err(error))
    else if tag == SMALL_BIG_EXT then DecodeBig(input, TakeNumber(input, at, 1))
    else if tag == LARGE_BIG_EXT then DecodeBig(input, TakeNumber(input, at, 4))
    else Err(UnknownTag)
  }

  function DecodeTuple(input: Buffer, at: nat, depth: nat, size: nat): (r: Result<Value>)
    requires at <= |input|
    ensures r.Ok? ==> at <= r.next <= |input|
    decreases |input| - at, 3
  {
    match TakeNumber(input, at, size)
    case Err(error) => Err(error)
    case Ok(length, next) =>
      if length > |input| - next then Err(TooLong)
      else match DecodeAll(input, next, depth + 1, length)
        case Ok(values, end) => Ok(Tuple(values), end)
        case Err(error) => Err(error)
  }

  function DecodeList(input: Buffer, at: nat, depth: nat): (r: Result<Value>)
    requires at <= |input|
    ensures r.Ok? ==> at <= r.next <= |input|
    decreases |input| - at, 3
  {
    match TakeNumber(input, at, 4)
    case Err(error) => Err(error)
    case Ok(length, next) =>
      if length > |input| - next then Err(TooLong)
      else match DecodeAll(input, next, depth + 1, length)
        case Err(error) => Err(error)
        case Ok(items, end) =>
          if end == |input| then Err(Truncated)
          else if input[end] != NIL_EXT then Err(ImproperList)
          else Ok(List(items), end + 1)
  }

  function DecodeMap(input: Buffer, at: nat, depth: nat): (r: Result<Value>)
    requires at <= |input|
    ensures r.Ok? ==> at <= r.next <= |input|
    decreases |input| - at, 3
  {
    match TakeNumber(input, at, 4)
    case Err(error) => Err(error)
    case Ok(length, next) =>
      if length > (|input| - next) / 2 then Err(TooLong)
      else match DecodeEntries(input, next, depth + 1, length)
        case Ok(entries, end) => Ok(Map(entries), end)
        case Err(error) => Err(error)
  }

  function DecodeAll(input: Buffer, at: nat, depth: nat, n: nat): (r: Result<seq<Value>>)
    requires at <= |input|
    ensures r.Ok? ==> at <= r.next <= |input| && |r.value| == n
    decreases |input| - at, 1
  {
    if n == 0 then Ok([], at)
    else match Decode(input, at, depth)
      case Err(error) => Err(error)
      case Ok(first, next) =>
        match DecodeAll(input, next, depth, n - 1)
        case Ok(rest, end) => Ok([first] + rest, end)
        case Err(error) => Err(error)
  }

  function DecodeEntry(input: Buffer, at: nat, depth: nat): (r: Result<Entry>)
    requires at <= |input|
    ensures r.Ok? ==> at < r.next <= |input|
    decreases |input| - at, 1
  {
    match Decode(input, at, depth)
    case Err(error) => Err(error)
    case Ok(key, middle) =>
      match Decode(input, middle, depth)
      case Ok(value, next) => Ok(Entry(key, value), next)
      case Err(error) => Err(error)
  }

  function DecodeEntries(input: Buffer, at: nat, depth: nat, n: nat): (r: Result<seq<Entry>>)
    requires at <= |input|
    ensures r.Ok? ==> at <= r.next <= |input| && |r.value| == n
    decreases |input| - at, 2
  {
    if n == 0 then Ok([], at)
    else match DecodeEntry(input, at, depth)
      case Err(error) => Err(error)
      case Ok(first, next) =>
        match DecodeEntries(input, next, depth, n - 1)
        case Ok(rest, end) => Ok([first] + rest, end)
        case Err(error) => Err(error)
  }

  // -- The canonical form -----------------------------------------------------------------------------

  function CanonicalUnsigned(number: nat): Value {
    if number < 256 || number > INT32_MAX then Unsigned(number) else Signed(number)
  }

  function CanonicalAtom(name: Buffer): Value {
    if name == NIL_NAME || name == NULL_NAME then Null
    else if name == TRUE_NAME then Bool(true)
    else if name == FALSE_NAME then Bool(false)
    else Atom(name)
  }

  /** What comes back: mid-sized non-negative integers as signed, others unsigned; reserved atoms as constants. */
  function Canonical(v: Value): Value
    decreases v
  {
    match v
    case Unsigned(number) => CanonicalUnsigned(number)
    case Signed(signed) => if signed >= 0 then CanonicalUnsigned(signed) else v
    case Atom(name) => CanonicalAtom(name)
    case Tuple(values) => Tuple(CanonicalAll(values))
    case List(items) => List(CanonicalAll(items))
    case Map(entries) => Map(CanonicalEntries(entries))
    case _ => v
  }

  function CanonicalAll(values: seq<Value>): (r: seq<Value>)
    ensures |r| == |values|
    decreases values
  {
    if values == [] then [] else [Canonical(values[0])] + CanonicalAll(values[1..])
  }

  function CanonicalEntry(entry: Entry): Entry
    decreases entry
  {
    Entry(Canonical(entry.key), Canonical(entry.value))
  }

  function CanonicalEntries(entries: seq<Entry>): (r: seq<Entry>)
    ensures |r| == |entries|
    decreases entries
  {
    if entries == [] then [] else [CanonicalEntry(entries[0])] + CanonicalEntries(entries[1..])
  }

  /** Levels of nesting below a value. */
  function Nesting(v: Value): nat
    decreases v
  {
    match v
    case Tuple(values) => NestingAll(values)
    case List(items) => NestingAll(items)
    case Map(entries) => NestingEntries(entries)
    case _ => 0
  }

  function Max(a: nat, b: nat): nat {
    if a < b then b else a
  }

  function NestingAll(values: seq<Value>): nat
    decreases values
  {
    if values == [] then 0 else Max(1 + Nesting(values[0]), NestingAll(values[1..]))
  }

  function NestingEntry(entry: Entry): nat
    decreases entry
  {
    1 + Max(Nesting(entry.key), Nesting(entry.value))
  }

  function NestingEntries(entries: seq<Entry>): nat
    decreases entries
  {
    if entries == [] then 0 else Max(NestingEntry(entries[0]), NestingEntries(entries[1..]))
  }

  /** No length is cut. */
  predicate LengthsFit(v: Value)
    decreases v
  {
    match v
    case Binary(bytes) => |bytes| < UINT32
    case Atom(name) => |name| < UINT16
    case Tuple(values) => |values| < UINT32 && AllFit(values)
    case List(items) => |items| < UINT32 && AllFit(items)
    case Map(entries) => |entries| < UINT32 && EntriesFit(entries)
    case _ => true
  }

  predicate AllFit(values: seq<Value>)
    decreases values
  {
    values == [] || (LengthsFit(values[0]) && AllFit(values[1..]))
  }

  predicate EntryFits(entry: Entry)
    decreases entry
  {
    LengthsFit(entry.key) && LengthsFit(entry.value)
  }

  predicate EntriesFit(entries: seq<Entry>)
    decreases entries
  {
    entries == [] || (EntryFits(entries[0]) && EntriesFit(entries[1..]))
  }

  predicate Sendable(v: Value) {
    WellTyped(v) && LengthsFit(v)
  }

  // -- Reading encoded parts --------------------------------------------------------------------------

  lemma TakeHeld(input: Buffer, at: nat, bytes: Buffer)
    requires Holds(input, at, bytes)
    ensures Take(input, at, |bytes|) == Ok(bytes, at + |bytes|)
  {
    HeldSlice(input, at, at + |bytes|, bytes);
  }

  lemma TakeNumberHeld(input: Buffer, at: nat, number: nat, size: nat)
    requires Holds(input, at, BigEndian(number, size)) && number < Power256(size)
    ensures TakeNumber(input, at, size) == Ok(number, at + size)
  {
    TakeHeld(input, at, BigEndian(number, size));
    BigEndianRoundTrip(number, size);
  }

  /** A tag, then the rest. */
  lemma TagHeld(input: Buffer, at: nat, tag: Byte, rest: Buffer)
    requires Holds(input, at, [tag] + rest)
    ensures at < |input| && input[at] == tag && Holds(input, at + 1, rest)
  {
    HoldsParts(input, at, [tag], rest);
    assert ByteHeld(input, at, [tag], 0);
  }

  lemma ByteIsNumber(input: Buffer, at: nat, byte: Byte, rest: Buffer)
    requires Holds(input, at, [byte] + rest)
    ensures TakeNumber(input, at, 1) == Ok(byte, at + 1) && Holds(input, at + 1, rest)
  {
    TagHeld(input, at, byte, rest);
    assert BigEndian(byte, 1) == [byte];
    HoldsParts(input, at, [byte], rest);
    assert Power256(1) == 256;
    TakeNumberHeld(input, at, byte, 1);
  }

  lemma TagRead(input: Buffer, at: nat, depth: nat, tag: Byte, rest: Buffer)
    requires Holds(input, at, [tag] + rest) && depth <= MAXIMUM_NESTING
    ensures at < |input| && Decode(input, at, depth) == DecodeTagged(input, at + 1, depth, tag)
    ensures Holds(input, at + 1, rest)
  {
    TagHeld(input, at, tag, rest);
  }

  predicate IsScalarTag(tag: Byte) {
    tag != SMALL_TUPLE_EXT && tag != LARGE_TUPLE_EXT && tag != LIST_EXT && tag != MAP_EXT
  }

  lemma ScalarRead(input: Buffer, at: nat, depth: nat, tag: Byte, rest: Buffer)
    requires Holds(input, at, [tag] + rest) && depth <= MAXIMUM_NESTING && IsScalarTag(tag)
    ensures at < |input| && Decode(input, at, depth) == DecodeScalar(input, at + 1, tag)
    ensures Holds(input, at + 1, rest)
  {
    TagRead(input, at, depth, tag, rest);
  }

  lemma LengthRead(input: Buffer, at: nat, n: nat, rest: Buffer)
    requires n < UINT32 && Holds(input, at, Length32(n) + rest)
    ensures TakeNumber(input, at, 4) == Ok(n, at + 4) && Holds(input, at + 4, rest)
  {
    Powers();
    HoldsParts(input, at, Length32(n), rest);
    TakeNumberHeld(input, at, n, 4);
  }

  lemma AtomRoundTrip(input: Buffer, at: nat, depth: nat, name: Buffer)
    requires Holds(input, at, EncodeAtom(name)) && IsUtf8(name) && |name| < UINT16 && depth <= MAXIMUM_NESTING
    ensures at <= |input| && Decode(input, at, depth) == Ok(CanonicalAtom(name), at + |EncodeAtom(name)|)
  {
    Powers();
    if |name| < 256 {
      assert EncodeAtom(name) == [SMALL_ATOM_UTF8_EXT] + ([|name| as Byte] + name);
      ScalarRead(input, at, depth, SMALL_ATOM_UTF8_EXT, [|name| as Byte] + name);
      ByteIsNumber(input, at + 1, |name| as Byte, name);
      TakeHeld(input, at + 2, name);
    } else {
      var length := BigEndian(|name|, 2);
      assert EncodeAtom(name) == [ATOM_UTF8_EXT] + (length + name);
      ScalarRead(input, at, depth, ATOM_UTF8_EXT, length + name);
      HoldsParts(input, at + 1, length, name);
      TakeNumberHeld(input, at + 1, |name|, 2);
      TakeHeld(input, at + 3, name);
    }
  }

  lemma MagnitudeRoundTrip(number: nat)
    requires number < UINT64
    ensures |Magnitude(number)| <= 8 && FromLittleEndian(Magnitude(number)) == number
  {
    Powers();
    LittleEndianSize(number, 8);
    LittleEndianRoundTrip(number);
    if number == 0 { assert FromLittleEndian([0]) == FromLittleEndian([0][1..]) == 0; }
  }

  lemma BigRoundTrip(input: Buffer, at: nat, depth: nat, number: nat, negative: bool)
    requires Holds(input, at, EncodeBig(number, negative)) && number < UINT64 && depth <= MAXIMUM_NESTING
    requires negative ==> number <= INT64_MAX + 1
    ensures at <= |input|
    ensures var signed: int := number;
            Decode(input, at, depth)
            == Ok(if negative then Signed(-signed) else Unsigned(number), at + |EncodeBig(number, negative)|)
  {
    MagnitudeRoundTrip(number);
    var sign: Byte, bytes := if negative then 1 else 0, Magnitude(number);
    assert EncodeBig(number, negative) == [SMALL_BIG_EXT] + ([|bytes| as Byte] + ([sign] + bytes));
    ScalarRead(input, at, depth, SMALL_BIG_EXT, [|bytes| as Byte] + ([sign] + bytes));
    ByteIsNumber(input, at + 1, |bytes| as Byte, [sign] + bytes);
    TagHeld(input, at + 2, sign, bytes);
    TakeHeld(input, at + 3, bytes);
  }

  lemma Int32RoundTrip(input: Buffer, at: nat, depth: nat, number: nat)
    requires Holds(input, at, [INTEGER_EXT] + BigEndian(number, 4)) && number < UINT32 && depth <= MAXIMUM_NESTING
    ensures at <= |input| && Decode(input, at, depth) == Ok(Signed(Signed32(number)), at + 5)
  {
    Powers();
    ScalarRead(input, at, depth, INTEGER_EXT, BigEndian(number, 4));
    TakeNumberHeld(input, at + 1, number, 4);
  }

  lemma UnsignedRoundTrip(input: Buffer, at: nat, depth: nat, number: nat)
    requires Holds(input, at, EncodeUnsigned(number)) && number < UINT64 && depth <= MAXIMUM_NESTING
    ensures at <= |input| && Decode(input, at, depth) == Ok(CanonicalUnsigned(number), at + |EncodeUnsigned(number)|)
  {
    if number < 256 {
      assert EncodeUnsigned(number) == [SMALL_INTEGER_EXT] + ([number as Byte] + []);
      ScalarRead(input, at, depth, SMALL_INTEGER_EXT, [number as Byte] + []);
      ByteIsNumber(input, at + 1, number as Byte, []);
    } else if number <= INT32_MAX {
      Int32RoundTrip(input, at, depth, number);
    } else {
      BigRoundTrip(input, at, depth, number, false);
    }
  }

  lemma SignedRoundTrip(input: Buffer, at: nat, depth: nat, signed: int)
    requires WellTyped(Signed(signed)) && Holds(input, at, Encode(Signed(signed))) && depth <= MAXIMUM_NESTING
    ensures at <= |input| && Decode(input, at, depth) == Ok(Canonical(Signed(signed)), at + |Encode(Signed(signed))|)
  {
    if signed >= 0 {
      UnsignedRoundTrip(input, at, depth, signed);
    } else if signed >= -INT32_MAX - 1 {
      Int32RoundTrip(input, at, depth, signed + UINT32);
    } else {
      BigRoundTrip(input, at, depth, -signed, true);
    }
  }

  lemma BinaryRoundTrip(input: Buffer, at: nat, depth: nat, bytes: Buffer)
    requires |bytes| < UINT32 && Holds(input, at, Encode(Binary(bytes))) && depth <= MAXIMUM_NESTING
    ensures at <= |input| && Decode(input, at, depth) == Ok(Binary(bytes), at + |Encode(Binary(bytes))|)
  {
    var length := Length32(|bytes|);
    assert Encode(Binary(bytes)) == [BINARY_EXT] + (length + bytes);
    ScalarRead(input, at, depth, BINARY_EXT, length + bytes);
    LengthRead(input, at + 1, |bytes|, bytes);
    TakeHeld(input, at + 5, bytes);
  }

  lemma FloatRoundTrip(input: Buffer, at: nat, depth: nat, bits: Buffer)
    requires |bits| == 8 && Holds(input, at, Encode(Float(bits))) && depth <= MAXIMUM_NESTING
    ensures at <= |input| && Decode(input, at, depth) == Ok(Float(bits), at + 9)
  {
    ScalarRead(input, at, depth, NEW_FLOAT_EXT, bits);
    TakeHeld(input, at + 1, bits);
  }

  // -- The round trip ---------------------------------------------------------------------------------

  /** Wherever an encoding lies in a payload, decoding there consumes exactly it and gives the canonical form. */
  lemma {:induction false} RoundTrip(input: Buffer, at: nat, depth: nat, v: Value)
    requires Sendable(v) && depth + Nesting(v) <= MAXIMUM_NESTING && Holds(input, at, Encode(v))
    ensures at <= |input| && Decode(input, at, depth) == Ok(Canonical(v), at + |Encode(v)|)
    decreases v, 0
  {
    match v
    case Tuple(values) => TupleRoundTrip(input, at, depth, values);
    case List(items) => ListRoundTrip(input, at, depth, items);
    case Map(entries) => MapRoundTrip(input, at, depth, entries);
    case _ => ScalarRoundTrip(input, at, depth, v);
  }

  lemma {:induction false} TupleRoundTrip(input: Buffer, at: nat, depth: nat, values: seq<Value>)
    requires |values| < UINT32 && AllTyped(values) && AllFit(values) && depth + NestingAll(values) <= MAXIMUM_NESTING
    requires Holds(input, at, Encode(Tuple(values)))
    ensures at <= |input| && Decode(input, at, depth) == Ok(Tuple(CanonicalAll(values)), at + |Encode(Tuple(values))|)
    decreases values, 1
  {
    TupleParts(input, at, depth, values);
    AllRoundTrip(input, at + TupleHead(values), depth + 1, values);
    TupleRead(input, at, depth, values);
  }

  lemma {:induction false} ListRoundTrip(input: Buffer, at: nat, depth: nat, items: seq<Value>)
    requires |items| < UINT32 && AllTyped(items) && AllFit(items) && depth + NestingAll(items) <= MAXIMUM_NESTING
    requires Holds(input, at, Encode(List(items)))
    ensures at <= |input| && Decode(input, at, depth) == Ok(List(CanonicalAll(items)), at + |Encode(List(items))|)
    decreases items, 1
  {
    if items == [] {
      EmptyListRoundTrip(input, at, depth);
    } else {
      ListParts(input, at, depth, items);
      AllRoundTrip(input, at + 5, depth + 1, items);
      ListRead(input, at, depth, items);
    }
  }

  lemma {:induction false} MapRoundTrip(input: Buffer, at: nat, depth: nat, entries: seq<Entry>)
    requires |entries| < UINT32 && EntriesTyped(entries) && EntriesFit(entries)
    requires depth + NestingEntries(entries) <= MAXIMUM_NESTING && Holds(input, at, Encode(Map(entries)))
    ensures at <= |input| && Decode(input, at, depth) == Ok(Map(CanonicalEntries(entries)), at + |Encode(Map(entries))|)
    decreases entries, 1
  {
    MapParts(input, at, depth, entries);
    EntriesRoundTrip(input, at + 5, depth + 1, entries);
    MapRead(input, at, depth, entries);
  }

  lemma ScalarRoundTrip(input: Buffer, at: nat, depth: nat, v: Value)
    requires !v.Tuple? && !v.List? && !v.Map?
    requires Sendable(v) && depth <= MAXIMUM_NESTING && Holds(input, at, Encode(v))
    ensures at <= |input| && Decode(input, at, depth) == Ok(Canonical(v), at + |Encode(v)|)
  {
    match v
    case Null => AtomRoundTrip(input, at, depth, NIL_NAME);
    case Bool(truth) => AtomRoundTrip(input, at, depth, if truth then TRUE_NAME else FALSE_NAME);
    case Unsigned(number) => UnsignedRoundTrip(input, at, depth, number);
    case Signed(signed) => SignedRoundTrip(input, at, depth, signed);
    case Float(bits) => FloatRoundTrip(input, at, depth, bits);
    case Binary(bytes) => BinaryRoundTrip(input, at, depth, bytes);
    case Atom(name) => AtomRoundTrip(input, at, depth, name);
  }

  lemma EmptyListRoundTrip(input: Buffer, at: nat, depth: nat)
    requires depth <= MAXIMUM_NESTING && Holds(input, at, Encode(List([])))
    ensures at <= |input| && Decode(input, at, depth) == Ok(List([]), at + 1)
  {
    assert Encode(List([])) == [NIL_EXT] + [];
    ScalarRead(input, at, depth, NIL_EXT, []);
  }

  lemma EncodingTakesAByte(v: Value)
    ensures |Encode(v)| >= 1
  {
  }

  /** Every encoding takes a byte, so a collection is never longer than its encoding. */
  lemma {:induction false} EncodingTakesBytes(values: seq<Value>)
    ensures |EncodeAll(values)| >= |values|
  {
    if values != [] {
      EncodingTakesAByte(values[0]);
      EncodingTakesBytes(values[1..]);
    }
  }

  lemma {:induction false} EntriesTakeBytes(entries: seq<Entry>)
    ensures |EncodeEntries(entries)| >= 2 * |entries|
  {
    if entries != [] {
      EncodingTakesAByte(entries[0].key);
      EncodingTakesAByte(entries[0].value);
      EntriesTakeBytes(entries[1..]);
    }
  }

  function TupleHead(values: seq<Value>): nat {
    if |values| < 256 then 2 else 5
  }

  lemma TupleParts(input: Buffer, at: nat, depth: nat, values: seq<Value>)
    requires |values| < UINT32 && Holds(input, at, Encode(Tuple(values))) && depth <= MAXIMUM_NESTING
    ensures at + TupleHead(values) <= |input| && Holds(input, at + TupleHead(values), EncodeAll(values))
  {
    TupleLaidOut(input, at, depth, values);
  }

  lemma TupleRead(input: Buffer, at: nat, depth: nat, values: seq<Value>)
    requires |values| < UINT32 && Holds(input, at, Encode(Tuple(values))) && depth <= MAXIMUM_NESTING
    requires at + TupleHead(values) <= |input|
    requires DecodeAll(input, at + TupleHead(values), depth + 1, |values|)
             == Ok(CanonicalAll(values), at + TupleHead(values) + |EncodeAll(values)|)
    ensures at <= |input| && Decode(input, at, depth) == Ok(Tuple(CanonicalAll(values)), at + |Encode(Tuple(values))|)
  {
    TupleLaidOut(input, at, depth, values);
  }

  lemma TupleLaidOut(input: Buffer, at: nat, depth: nat, values: seq<Value>)
    requires |values| < UINT32 && Holds(input, at, Encode(Tuple(values))) && depth <= MAXIMUM_NESTING
    ensures var body := at + TupleHead(values);
            && body <= |input| && Holds(input, body, EncodeAll(values))
            && |Encode(Tuple(values))| == TupleHead(values) + |EncodeAll(values)|
            && Decode(input, at, depth)
               == match DecodeAll(input, body, depth + 1, |values|)
                  case Ok(decoded, end) => Ok(Tuple(decoded), end)
                  case Err(error) => Err(error)
  {
    var body := EncodeAll(values);
    EncodingTakesBytes(values);
    if |values| < 256 {
      assert Encode(Tuple(values)) == [SMALL_TUPLE_EXT] + ([|values| as Byte] + body);
      TagRead(input, at, depth, SMALL_TUPLE_EXT, [|values| as Byte] + body);
      ByteIsNumber(input, at + 1, |values| as Byte, body);
    } else {
      assert Encode(Tuple(values)) == [LARGE_TUPLE_EXT] + (Length32(|values|) + body);
      TagRead(input, at, depth, LARGE_TUPLE_EXT, Length32(|values|) + body);
      LengthRead(input, at + 1, |values|, body);
    }
  }

  lemma ListParts(input: Buffer, at: nat, depth: nat, items: seq<Value>)
    requires items != [] && |items| < UINT32 && Holds(input, at, Encode(List(items))) && depth <= MAXIMUM_NESTING
    ensures at + 5 <= |input| && Holds(input, at + 5, EncodeAll(items))
  {
    ListLaidOut(input, at, depth, items);
  }

  lemma ListLaidOut(input: Buffer, at: nat, depth: nat, items: seq<Value>)
    requires items != [] && |items| < UINT32 && Holds(input, at, Encode(List(items))) && depth <= MAXIMUM_NESTING
    ensures var end := at + 5 + |EncodeAll(items)|;
            && end < |input| && input[end] == NIL_EXT && |Encode(List(items))| == end + 1 - at
            && Holds(input, at + 5, EncodeAll(items))
            && TakeNumber(input, at + 1, 4) == Ok(|items|, at + 5) && |items| <= |input| - (at + 5)
            && Decode(input, at, depth) == DecodeList(input, at + 1, depth)
  {
    EncodingTakesBytes(items);
    var body, last := EncodeAll(items), [NIL_EXT] + [];
    assert Encode(List(items)) == [LIST_EXT] + (Length32(|items|) + (body + last));
    TagRead(input, at, depth, LIST_EXT, Length32(|items|) + (body + last));
    LengthRead(input, at + 1, |items|, body + last);
    HoldsParts(input, at + 5, body, last);
    TagHeld(input, at + 5 + |body|, NIL_EXT, []);
  }

  lemma ListRead(input: Buffer, at: nat, depth: nat, items: seq<Value>)
    requires items != [] && |items| < UINT32 && Holds(input, at, Encode(List(items))) && depth <= MAXIMUM_NESTING
    requires at + 5 <= |input|
    requires DecodeAll(input, at + 5, depth + 1, |items|) == Ok(CanonicalAll(items), at + 5 + |EncodeAll(items)|)
    ensures at <= |input| && Decode(input, at, depth) == Ok(List(CanonicalAll(items)), at + |Encode(List(items))|)
  {
    ListLaidOut(input, at, depth, items);
  }

  lemma MapParts(input: Buffer, at: nat, depth: nat, entries: seq<Entry>)
    requires |entries| < UINT32 && Holds(input, at, Encode(Map(entries))) && depth <= MAXIMUM_NESTING
    ensures at + 5 <= |input| && Holds(input, at + 5, EncodeEntries(entries))
  {
    MapLaidOut(input, at, depth, entries);
  }

  lemma MapRead(input: Buffer, at: nat, depth: nat, entries: seq<Entry>)
    requires |entries| < UINT32 && Holds(input, at, Encode(Map(entries))) && depth <= MAXIMUM_NESTING
    requires at + 5 <= |input|
    requires DecodeEntries(input, at + 5, depth + 1, |entries|)
             == Ok(CanonicalEntries(entries), at + 5 + |EncodeEntries(entries)|)
    ensures at <= |input| && Decode(input, at, depth) == Ok(Map(CanonicalEntries(entries)), at + |Encode(Map(entries))|)
  {
    MapLaidOut(input, at, depth, entries);
  }

  lemma MapLaidOut(input: Buffer, at: nat, depth: nat, entries: seq<Entry>)
    requires |entries| < UINT32 && Holds(input, at, Encode(Map(entries))) && depth <= MAXIMUM_NESTING
    ensures at + 5 <= |input| && Holds(input, at + 5, EncodeEntries(entries))
    ensures |Encode(Map(entries))| == 5 + |EncodeEntries(entries)|
    ensures Decode(input, at, depth)
            == match DecodeEntries(input, at + 5, depth + 1, |entries|)
               case Ok(decoded, end) => Ok(Map(decoded), end)
               case Err(error) => Err(error)
  {
    var body := EncodeEntries(entries);
    EntriesTakeBytes(entries);
    assert Encode(Map(entries)) == [MAP_EXT] + (Length32(|entries|) + body);
    TagRead(input, at, depth, MAP_EXT, Length32(|entries|) + body);
    LengthRead(input, at + 1, |entries|, body);
  }

  lemma {:induction false} AllRoundTrip(input: Buffer, at: nat, depth: nat, values: seq<Value>)
    requires AllTyped(values) && AllFit(values) && depth + NestingAll(values) <= MAXIMUM_NESTING + 1 && depth > 0
    requires Holds(input, at, EncodeAll(values))
    ensures at <= |input| && DecodeAll(input, at, depth, |values|) == Ok(CanonicalAll(values), at + |EncodeAll(values)|)
    decreases values, 0
  {
    if values != [] {
      HoldsParts(input, at, Encode(values[0]), EncodeAll(values[1..]));
      RoundTrip(input, at, depth, values[0]);
      AllRoundTrip(input, at + |Encode(values[0])|, depth, values[1..]);
    }
  }

  lemma {:induction false} EntryRoundTrip(input: Buffer, at: nat, depth: nat, entry: Entry)
    requires EntryTyped(entry) && EntryFits(entry) && depth + NestingEntry(entry) <= MAXIMUM_NESTING + 1 && depth > 0
    requires Holds(input, at, EncodeEntry(entry))
    ensures at <= |input| && DecodeEntry(input, at, depth) == Ok(CanonicalEntry(entry), at + |EncodeEntry(entry)|)
    decreases entry, 0
  {
    HoldsParts(input, at, Encode(entry.key), Encode(entry.value));
    RoundTrip(input, at, depth, entry.key);
    RoundTrip(input, at + |Encode(entry.key)|, depth, entry.value);
  }

  lemma {:induction false} EntriesRoundTrip(input: Buffer, at: nat, depth: nat, entries: seq<Entry>)
    requires EntriesTyped(entries) && EntriesFit(entries) && depth + NestingEntries(entries) <= MAXIMUM_NESTING + 1
    requires depth > 0 && Holds(input, at, EncodeEntries(entries))
    ensures at <= |input|
    ensures DecodeEntries(input, at, depth, |entries|) == Ok(CanonicalEntries(entries), at + |EncodeEntries(entries)|)
    decreases entries, 0
  {
    if entries != [] {
      HoldsParts(input, at, EncodeEntry(entries[0]), EncodeEntries(entries[1..]));
      EntryRoundTrip(input, at, depth, entries[0]);
      EntriesRoundTrip(input, at + |EncodeEntry(entries[0])|, depth, entries[1..]);
    }
  }

  // -- Beyond the nesting limit -----------------------------------------------------------------------

  /** What is nested too deep is written all the same, but refused for its depth wherever it lies. */
  lemma {:induction false} DeepIsRefused(input: Buffer, at: nat, depth: nat, v: Value)
    requires Sendable(v) && depth + Nesting(v) > MAXIMUM_NESTING && Holds(input, at, Encode(v))
    ensures at <= |input| && Decode(input, at, depth) == Err(TooDeep)
    decreases v, 0
  {
    if depth <= MAXIMUM_NESTING {
      match v
      case Tuple(values) =>
        TupleLaidOut(input, at, depth, values);
        AllDeepIsRefused(input, at + TupleHead(values), depth + 1, values);
      case List(items) =>
        ListLaidOut(input, at, depth, items);
        AllDeepIsRefused(input, at + 5, depth + 1, items);
      case Map(entries) =>
        MapLaidOut(input, at, depth, entries);
        EntriesDeepIsRefused(input, at + 5, depth + 1, entries);
    }
  }

  lemma {:induction false} AllDeepIsRefused(input: Buffer, at: nat, depth: nat, values: seq<Value>)
    requires AllTyped(values) && AllFit(values) && depth + NestingAll(values) > MAXIMUM_NESTING + 1 >= depth > 0
    requires Holds(input, at, EncodeAll(values))
    ensures at <= |input| && DecodeAll(input, at, depth, |values|) == Err(TooDeep)
    decreases values, 0
  {
    HoldsParts(input, at, Encode(values[0]), EncodeAll(values[1..]));
    if depth + Nesting(values[0]) > MAXIMUM_NESTING {
      DeepIsRefused(input, at, depth, values[0]);
    } else {
      RoundTrip(input, at, depth, values[0]);
      AllDeepIsRefused(input, at + |Encode(values[0])|, depth, values[1..]);
    }
  }

  lemma {:induction false} EntryDeepIsRefused(input: Buffer, at: nat, depth: nat, entry: Entry)
    requires EntryTyped(entry) && EntryFits(entry) && depth + NestingEntry(entry) > MAXIMUM_NESTING + 1 >= depth > 0
    requires Holds(input, at, EncodeEntry(entry))
    ensures at <= |input| && DecodeEntry(input, at, depth) == Err(TooDeep)
    decreases entry, 0
  {
    HoldsParts(input, at, Encode(entry.key), Encode(entry.value));
    if depth + Nesting(entry.key) > MAXIMUM_NESTING {
      DeepIsRefused(input, at, depth, entry.key);
    } else {
      RoundTrip(input, at, depth, entry.key);
      DeepIsRefused(input, at + |Encode(entry.key)|, depth, entry.value);
    }
  }

  lemma {:induction false} EntriesDeepIsRefused(input: Buffer, at: nat, depth: nat, entries: seq<Entry>)
    requires EntriesTyped(entries) && EntriesFit(entries)
    requires depth + NestingEntries(entries) > MAXIMUM_NESTING + 1 >= depth > 0 && Holds(input, at, EncodeEntries(entries))
    ensures at <= |input| && DecodeEntries(input, at, depth, |entries|) == Err(TooDeep)
    decreases entries, 0
  {
    HoldsParts(input, at, EncodeEntry(entries[0]), EncodeEntries(entries[1..]));
    if depth + NestingEntry(entries[0]) > MAXIMUM_NESTING + 1 {
      EntryDeepIsRefused(input, at, depth, entries[0]);
    } else {
      EntryRoundTrip(input, at, depth, entries[0]);
      EntriesDeepIsRefused(input, at + |EncodeEntry(entries[0])|, depth, entries[1..]);
    }
  }
}
