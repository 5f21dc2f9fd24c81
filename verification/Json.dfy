/** JSON on both ends of the wire, and the frames in between. */
module Json {
  import opened Bytes
  import opened Wire
  import opened Words

  // -- Frames -----------------------------------------------------------------------------------------

  const MAGIC: Buffer := [0x46, 0x49, 0x44, 0x58]
  const ETF_VERSION: Byte := 131
  const MAXIMUM_FRAME_BYTES: nat := 64 * 1024 * 1024
  const HEADER_SIZE: nat := 9

  function Payload(v: Value): Buffer {
    [ETF_VERSION] + Encode(v)
  }

  datatype Written = Written(frame: Buffer) | OverFourGiB

  function WriteFrame(version: Byte, v: Value): Written {
    var payload := Payload(v);
    if |payload| >= UINT32 then OverFourGiB else Written(MAGIC + [version] + BigEndian(|payload|, 4) + payload)
  }

  datatype Frame =
    | Frame(value: Value, rest: Buffer)
    | EndOfStream | BadMagic | UnsupportedVersion | FrameTooLong | BadPayload(error: Error)

  /** A value, and nothing behind it. */
  function DecodePayload(payload: Buffer): (r: Result<Value>)
    ensures r.Ok? ==> r.next == |payload|
  {
    if payload == [] then Err(Truncated)
    else if payload[0] != ETF_VERSION then Err(NotATerm)
    else match Decode(payload, 1, 0)
      case Err(error) => Err(error)
      case Ok(value, next) => if next == |payload| then Ok(value, next) else Err(TrailingBytes)
  }

  function ReadFrame(stream: Buffer, version: Byte): Frame {
    if |stream| < HEADER_SIZE then EndOfStream
    else if stream[..4] != MAGIC then BadMagic
    else if stream[4] != version then UnsupportedVersion
    else
      var length := FromBigEndian(stream[5..9]);
      if length > MAXIMUM_FRAME_BYTES then FrameTooLong
      else if |stream| < HEADER_SIZE + length then EndOfStream
      else match DecodePayload(stream[HEADER_SIZE..HEADER_SIZE + length])
        case Ok(value, _) => Frame(value, stream[HEADER_SIZE + length..])
        case Err(error) => BadPayload(error)
  }

  /** A value comes back in its canonical form, unless it is nested too deep for the reader. */
  lemma PayloadRoundTrip(v: Value)
    requires Sendable(v)
    ensures DecodePayload(Payload(v))
            == if Nesting(v) <= MAXIMUM_NESTING then Ok(Canonical(v), |Payload(v)|) else Err(TooDeep)
  {
    HoldsBetween([ETF_VERSION], Encode(v), []);
    if Nesting(v) <= MAXIMUM_NESTING { RoundTrip(Payload(v), 1, 0, v); } else { DeepIsRefused(Payload(v), 1, 0, v); }
  }

  lemma HeaderReads(version: Byte, payload: Buffer, rest: Buffer)
    requires |payload| < UINT32
    ensures var stream := MAGIC + [version] + BigEndian(|payload|, 4) + payload + rest;
            && |stream| == HEADER_SIZE + |payload| + |rest|
            && stream[..4] == MAGIC && stream[4] == version && FromBigEndian(stream[5..9]) == |payload|
            && stream[HEADER_SIZE..HEADER_SIZE + |payload|] == payload && stream[HEADER_SIZE + |payload|..] == rest
  {
    Powers();
    BigEndianRoundTrip(|payload|, 4);
    var stream := MAGIC + [version] + BigEndian(|payload|, 4) + payload + rest;
    assert stream[5..9] == BigEndian(|payload|, 4);
  }

  predicate IsReadable(v: Value) {
    |Payload(v)| <= MAXIMUM_FRAME_BYTES && Nesting(v) <= MAXIMUM_NESTING
  }

  /**
    A written frame is read back, whatever follows it, exactly when its payload is within the reader's limit
    and its value is not nested too deep; the writer checks neither, only its own limit of 4 GiB.
   */
  lemma FrameRoundTrip(version: Byte, v: Value, rest: Buffer)
    requires Sendable(v) && WriteFrame(version, v).Written?
    ensures var read := ReadFrame(WriteFrame(version, v).frame + rest, version);
            && (read == Frame(Canonical(v), rest) <==> IsReadable(v))
            && (|Payload(v)| > MAXIMUM_FRAME_BYTES ==> read == FrameTooLong)
            && (|Payload(v)| <= MAXIMUM_FRAME_BYTES && Nesting(v) > MAXIMUM_NESTING ==> read == BadPayload(TooDeep))
  {
    HeaderReads(version, Payload(v), rest);
    PayloadRoundTrip(v);
  }

  /** An empty list inside `n` lists of one element. */
  function NestedLists(n: nat): Value {
    if n == 0 then List([]) else List([NestedLists(n - 1)])
  }

  lemma {:induction false} NestedListsAreSmall(n: nat)
    ensures Sendable(NestedLists(n)) && Nesting(NestedLists(n)) == n && |Encode(NestedLists(n))| == 6 * n + 1
  {
    if n > 0 {
      NestedListsAreSmall(n - 1);
      var items := [NestedLists(n - 1)];
      assert items[1..] == [] && NestingAll(items[1..]) == 0;
      assert NestingAll(items) == 1 + Nesting(items[0]) && EncodeAll(items) == Encode(items[0]) + [];
    }
  }

  /** 129 nested lists take less than a kilobyte; they can be written, and not read. */
  lemma DeepFrameIsNotRead(version: Byte, rest: Buffer)
    ensures var v := NestedLists(129);
            && Sendable(v) && WriteFrame(version, v).Written? && |Payload(v)| == 776
            && ReadFrame(WriteFrame(version, v).frame + rest, version) == BadPayload(TooDeep)
  {
    NestedListsAreSmall(129);
    FrameRoundTrip(version, NestedLists(129), rest);
  }

  /** A binary of 64 MiB can be written, and not read: its tag and length come on top. */
  lemma LongFrameIsNotRead(version: Byte, bytes: Buffer, rest: Buffer)
    requires |bytes| == MAXIMUM_FRAME_BYTES
    ensures var v := Binary(bytes);
            && Sendable(v) && WriteFrame(version, v).Written? && |Payload(v)| == MAXIMUM_FRAME_BYTES + 6
            && ReadFrame(WriteFrame(version, v).frame + rest, version) == FrameTooLong
  {
    FrameRoundTrip(version, Binary(bytes), rest);
  }

  // -- JSON -------------------------------------------------------------------------------------------

  datatype Number = Natural(natural: nat) | Negative(negative: int) | Real(bits: Buffer)

  datatype Json =
    | JsonNull
    | JsonBool(truth: bool)
    | JsonNumber(number: Number)
    | JsonString(text: Buffer)
    | JsonArray(elements: seq<Json>)
    | JsonObject(members: seq<Member>)

  datatype Member = Member(key: Buffer, value: Json)

  /** Infinities and NaNs have all eleven exponent bits set. */
  predicate IsFinite(bits: Buffer) {
    |bits| == 8 && !(bits[0] % 128 == 127 && bits[1] / 16 == 15)
  }

  predicate IsNumber(number: Number) {
    match number
    case Natural(n) => n < UINT64
    case Negative(n) => -INT64_MAX - 1 <= n < 0
    case Real(bits) => IsFinite(bits)
  }

  /** Order of strings: byte by byte, a prefix first. */
  predicate Before(a: Buffer, b: Buffer) {
    b != [] && (a == [] || a[0] < b[0] || (a[0] == b[0] && Before(a[1..], b[1..])))
  }

  lemma {:induction false} BeforeIsStrict(a: Buffer, b: Buffer)
    requires Before(a, b)
    ensures !Before(b, a) && a != b
  {
    if a != [] && a[0] == b[0] { BeforeIsStrict(a[1..], b[1..]); }
  }

  predicate KeysAscend(members: seq<Member>) {
    forall i, j {:trigger members[i], members[j]} :: 0 <= i < j < |members| ==> Before(members[i].key, members[j].key)
  }

  /** The JSON values of the library: finite numbers in range, UTF-8 text, keys sorted and unique. */
  predicate IsJson(json: Json)
    decreases json
  {
    match json
    case JsonNumber(number) => IsNumber(number)
    case JsonString(text) => IsUtf8(text)
    case JsonArray(elements) => AllJson(elements)
    case JsonObject(members) => KeysAscend(members) && AllMembers(members)
    case _ => true
  }

  predicate AllJson(elements: seq<Json>)
    decreases elements
  {
    elements == [] || (IsJson(elements[0]) && AllJson(elements[1..]))
  }

  predicate IsMember(member: Member)
    decreases member
  {
    IsUtf8(member.key) && IsJson(member.value)
  }

  predicate AllMembers(members: seq<Member>)
    decreases members
  {
    members == [] || (IsMember(members[0]) && AllMembers(members[1..]))
  }

  function FromNumber(number: Number): Value {
    match number
    case Natural(n) => Unsigned(n)
    case Negative(n) => Signed(n)
    case Real(bits) => Float(bits)
  }

  function FromJson(json: Json): Value
    decreases json
  {
    match json
    case JsonNull => Null
    case JsonBool(truth) => Bool(truth)
    case JsonNumber(number) => FromNumber(number)
    case JsonString(text) => Binary(text)
    case JsonArray(elements) => List(FromAll(elements))
    case JsonObject(members) => Map(FromMembers(members))
  }

  function FromAll(elements: seq<Json>): (values: seq<Value>)
    ensures |values| == |elements|
    decreases elements
  {
    if elements == [] then [] else [FromJson(elements[0])] + FromAll(elements[1..])
  }

  function FromMember(member: Member): Entry
    decreases member
  {
    Entry(Binary(member.key), FromJson(member.value))
  }

  function FromMembers(members: seq<Member>): (entries: seq<Entry>)
    ensures |entries| == |members|
    decreases members
  {
    if members == [] then [] else [FromMember(members[0])] + FromMembers(members[1..])
  }

  datatype JsonError = NonFinite | KeyNotUtf8 | KeyNotString | DuplicateKey

  datatype Converted<+T> = Done(result: T) | Failed(error: JsonError)

  function Base64Digit(n: nat): Byte
    requires n < 64
  {
    if n < 26 then 0x41 + n else if n < 52 then 0x61 + n - 26 else if n < 62 then 0x30 + n - 52
    else if n == 62 then 0x2B else 0x2F
  }

  /** Standard alphabet, padded (RFC 4648, section 4). */
  function Base64(bytes: Buffer): Buffer
    decreases |bytes|
  {
    if bytes == [] then []
    else
      var a: nat, b: nat, c: nat := bytes[0], if |bytes| > 1 then bytes[1] else 0, if |bytes| > 2 then bytes[2] else 0;
      [Base64Digit(a / 4), Base64Digit(a % 4 * 16 + b / 16),
       if |bytes| > 1 then Base64Digit(b % 16 * 4 + c / 64) else 0x3D,
       if |bytes| > 2 then Base64Digit(c % 64) else 0x3D]
      + (if |bytes| > 3 then Base64(bytes[3..]) else [])
  }

  const BASE64_KEY: Buffer := [0x62, 0x61, 0x73, 0x65, 0x36, 0x34]

  /** Text as it is; other bytes as an object that holds them encoded. */
  function BinaryJson(bytes: Buffer): Json {
    if IsUtf8(bytes) then JsonString(bytes) else JsonObject([Member(BASE64_KEY, JsonString(Base64(bytes)))])
  }

  function AtomJson(name: Buffer): Json {
    if name == NIL_NAME || name == NULL_NAME then JsonNull
    else if name == TRUE_NAME then JsonBool(true)
    else if name == FALSE_NAME then JsonBool(false)
    else JsonString(name)
  }

  function IntoJson(v: Value): Converted<Json>
    decreases v
  {
    match v
    case Null => Done(JsonNull)
    case Bool(truth) => Done(JsonBool(truth))
    case Unsigned(n) => Done(JsonNumber(Natural(n)))
    case Signed(n) => Done(JsonNumber(if n >= 0 then Natural(n) else Negative(n)))
    case Float(bits) => if IsFinite(bits) then Done(JsonNumber(Real(bits))) else Failed(NonFinite)
    case Binary(bytes) => Done(BinaryJson(bytes))
    case Atom(name) => Done(AtomJson(name))
    case Tuple(values) =>
      (match IntoAll(values) case Done(elements) => Done(JsonArray(elements)) case Failed(error) => Failed(error))
    case List(items) =>
      (match IntoAll(items) case Done(elements) => Done(JsonArray(elements)) case Failed(error) => Failed(error))
    case Map(entries) =>
      (match IntoMembers(entries, []) case Done(members) => Done(JsonObject(members)) case Failed(error) => Failed(error))
  }

  function IntoAll(values: seq<Value>): Converted<seq<Json>>
    decreases values
  {
    if values == [] then Done([])
    else match IntoJson(values[0])
      case Failed(error) => Failed(error)
      case Done(first) =>
        match IntoAll(values[1..])
        case Done(rest) => Done([first] + rest)
        case Failed(error) => Failed(error)
  }

  function IntoKey(key: Value): Converted<Buffer> {
    match key
    case Binary(bytes) => if IsUtf8(bytes) then Done(bytes) else Failed(KeyNotUtf8)
    case Atom(name) => Done(name)
    case _ => Failed(KeyNotString)
  }

  function IntoMember(entry: Entry): Converted<Member>
    decreases entry
  {
    match IntoKey(entry.key)
    case Failed(error) => Failed(error)
    case Done(key) =>
      match IntoJson(entry.value)
      case Done(value) => Done(Member(key, value))
      case Failed(error) => Failed(error)
  }

  /** A sorted object with one more member, unless its key is taken. */
  function Insert(members: seq<Member>, member: Member): Converted<seq<Member>> {
    if members == [] || Before(member.key, members[0].key) then Done([member] + members)
    else if member.key == members[0].key then Failed(DuplicateKey)
    else match Insert(members[1..], member)
      case Done(rest) => Done([members[0]] + rest)
      case Failed(error) => Failed(error)
  }

  function IntoMembers(entries: seq<Entry>, inserted: seq<Member>): Converted<seq<Member>>
    decreases entries
  {
    if entries == [] then Done(inserted)
    else match IntoMember(entries[0])
      case Failed(error) => Failed(error)
      case Done(member) =>
        match Insert(inserted, member)
        case Done(more) => IntoMembers(entries[1..], more)
        case Failed(error) => Failed(error)
  }

  // -- Round trip -------------------------------------------------------------------------------------

  /** A key behind all others goes to the end. */
  lemma {:induction false} InsertLast(members: seq<Member>, member: Member)
    requires forall i :: 0 <= i < |members| ==> Before(members[i].key, member.key)
    ensures Insert(members, member) == Done(members + [member])
  {
    if members == [] {
      assert [member] + members == members + [member];
    } else {
      BeforeIsStrict(members[0].key, member.key);
      InsertLast(members[1..], member);
      assert [members[0]] + (members[1..] + [member]) == members + [member];
    }
  }

  /** Converting a JSON value to the wire's canonical form and back gives the value. */
  lemma {:induction false} JsonSurvives(json: Json)
    requires IsJson(json)
    ensures IntoJson(Canonical(FromJson(json))) == Done(json)
    decreases json
  {
    match json
    case JsonNumber(number) => NumberSurvives(number);
    case JsonArray(elements) => AllSurvive(elements);
    case JsonObject(members) =>
      assert [] + members == members;
      MembersSurvive(members, []);
    case _ =>
  }

  lemma NumberSurvives(number: Number)
    requires IsNumber(number)
    ensures IntoJson(Canonical(FromNumber(number))) == Done(JsonNumber(number))
  {
  }

  lemma {:induction false} AllSurvive(elements: seq<Json>)
    requires AllJson(elements)
    ensures IntoAll(CanonicalAll(FromAll(elements))) == Done(elements)
    decreases elements
  {
    if elements != [] {
      JsonSurvives(elements[0]);
      AllSurvive(elements[1..]);
      assert CanonicalAll(FromAll(elements))[1..] == CanonicalAll(FromAll(elements[1..]));
      assert [elements[0]] + elements[1..] == elements;
    }
  }

  lemma {:induction false} MemberSurvives(member: Member)
    requires IsMember(member)
    ensures IntoMember(CanonicalEntry(FromMember(member))) == Done(member)
    decreases member
  {
    JsonSurvives(member.value);
  }

  lemma {:induction false} MembersSurvive(members: seq<Member>, inserted: seq<Member>)
    requires AllMembers(members) && KeysAscend(inserted + members)
    ensures IntoMembers(CanonicalEntries(FromMembers(members)), inserted) == Done(inserted + members)
    decreases members
  {
    if members == [] {
      assert inserted + members == inserted;
    } else {
      MemberSurvives(members[0]);
      var all := inserted + members;
      forall i | 0 <= i < |inserted| ensures Before(inserted[i].key, members[0].key) {
        assert all[i] == inserted[i] && all[|inserted|] == members[0];
      }
      InsertLast(inserted, members[0]);
      assert inserted + [members[0]] + members[1..] == all;
      MembersSurvive(members[1..], inserted + [members[0]]);
      assert CanonicalEntries(FromMembers(members))[1..] == CanonicalEntries(FromMembers(members[1..]));
    }
  }

  lemma {:induction false} FromJsonTyped(json: Json)
    requires IsJson(json)
    ensures WellTyped(FromJson(json))
    decreases json
  {
    match json
    case JsonArray(elements) => FromAllTyped(elements);
    case JsonObject(members) => FromMembersTyped(members);
    case _ =>
  }

  lemma {:induction false} FromAllTyped(elements: seq<Json>)
    requires AllJson(elements)
    ensures AllTyped(FromAll(elements))
    decreases elements
  {
    if elements != [] {
      FromJsonTyped(elements[0]);
      FromAllTyped(elements[1..]);
      assert FromAll(elements)[1..] == FromAll(elements[1..]);
    }
  }

  lemma {:induction false} FromMemberTyped(member: Member)
    requires IsMember(member)
    ensures EntryTyped(FromMember(member))
    decreases member
  {
    FromJsonTyped(member.value);
  }

  lemma {:induction false} FromMembersTyped(members: seq<Member>)
    requires AllMembers(members)
    ensures EntriesTyped(FromMembers(members))
    decreases members
  {
    if members != [] {
      FromMemberTyped(members[0]);
      FromMembersTyped(members[1..]);
      assert FromMembers(members)[1..] == FromMembers(members[1..]);
    }
  }

  /** JSON becomes no atoms, so a payload below 4 GiB cuts no length. */
  lemma {:induction false} FromJsonFits(json: Json)
    requires |Encode(FromJson(json))| < UINT32
    ensures LengthsFit(FromJson(json))
    decreases json
  {
    match json
    case JsonArray(elements) =>
      EncodingTakesBytes(FromAll(elements));
      FromAllFits(elements);
    case JsonObject(members) =>
      EntriesTakeBytes(FromMembers(members));
      FromMembersFits(members);
    case _ =>
  }

  lemma {:induction false} FromAllFits(elements: seq<Json>)
    requires |EncodeAll(FromAll(elements))| < UINT32
    ensures AllFit(FromAll(elements))
    decreases elements
  {
    if elements != [] {
      assert FromAll(elements)[1..] == FromAll(elements[1..]);
      FromJsonFits(elements[0]);
      FromAllFits(elements[1..]);
    }
  }

  lemma {:induction false} FromMemberFits(member: Member)
    requires |EncodeEntry(FromMember(member))| < UINT32
    ensures EntryFits(FromMember(member))
    decreases member
  {
    FromJsonFits(member.value);
  }

  lemma {:induction false} FromMembersFits(members: seq<Member>)
    requires |EncodeEntries(FromMembers(members))| < UINT32
    ensures EntriesFit(FromMembers(members))
    decreases members
  {
    if members != [] {
      assert FromMembers(members)[1..] == FromMembers(members[1..]);
      FromMemberFits(members[0]);
      FromMembersFits(members[1..]);
    }
  }

  /** JSON to value, frame out, frame in, value to JSON. */
  predicate SurvivesFraming(version: Byte, json: Json, rest: Buffer) {
    var written := WriteFrame(version, FromJson(json));
    && written.Written?
    && var read := ReadFrame(written.frame + rest, version);
       read.Frame? && read.rest == rest && IntoJson(read.value) == Done(json)
  }

  /** This is the identity on every JSON value within the reader's two limits, and on no other. */
  lemma JsonFrameRoundTrip(version: Byte, json: Json, rest: Buffer)
    requires IsJson(json)
    ensures SurvivesFraming(version, json, rest) <==> IsReadable(FromJson(json))
  {
    if WriteFrame(version, FromJson(json)).Written? {
      FromJsonTyped(json);
      FromJsonFits(json);
      FrameRoundTrip(version, FromJson(json), rest);
      JsonSurvives(json);
    }
  }
}
