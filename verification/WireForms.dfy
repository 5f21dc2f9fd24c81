/** Every form of an external term that may arrive, whoever wrote it, what it means, and that exactly these are read. */
module WireForms {
  import opened Bytes
  import opened Wire
  import opened Words

  /** A term as it may be written; one value can have several forms. */
  datatype Form =
    | SmallInteger(byte: Byte)
    | Integer(number: int)
    | NewFloat(bits: Buffer)
    | AtomText(utf8: bool, small: bool, name: Buffer)
    | SmallTuple(items: seq<Form>)
    | LargeTuple(items: seq<Form>)
    | Nil
    | String(bytes: Buffer)
    | ListOf(items: seq<Form>)
    | BinaryOf(bytes: Buffer)
    | Big(small: bool, negative: bool, digits: Buffer)
    | MapOf(pairs: seq<Pair>)

  datatype Pair = Pair(key: Form, value: Form)

  // -- How a form is written --------------------------------------------------------------------------

  function Two(n: nat): (bytes: Buffer)
    ensures |bytes| == 2
  {
    [n / 0x100 % 0x100, n % 0x100]
  }

  /** The most significant byte first. */
  function Four(n: nat): (bytes: Buffer)
    ensures |bytes| == 4
  {
    [n / 0x100_0000 % 0x100, n / 0x1_0000 % 0x100, n / 0x100 % 0x100, n % 0x100]
  }

  function Written(form: Form): Buffer
    decreases form
  {
    match form
    case SmallInteger(byte) => [97, byte]
    case Integer(number) => [98] + Four((number + 0x1_0000_0000) % 0x1_0000_0000)
    case NewFloat(bits) => [70] + bits
    case AtomText(utf8, true, name) => [if utf8 then 119 else 115, |name| % 0x100] + name
    case AtomText(utf8, false, name) => [if utf8 then 118 else 100] + Two(|name|) + name
    case SmallTuple(items) => [104, |items| % 0x100] + AllWritten(items)
    case LargeTuple(items) => [105] + Four(|items|) + AllWritten(items)
    case Nil => [106]
    case String(bytes) => [107] + Two(|bytes|) + bytes
    case ListOf(items) => [108] + Four(|items|) + AllWritten(items) + [106]
    case BinaryOf(bytes) => [109] + Four(|bytes|) + bytes
    case Big(true, negative, digits) => [110, |digits| % 0x100, if negative then 1 else 0] + digits
    case Big(false, negative, digits) => [111] + Four(|digits|) + [if negative then 1 else 0] + digits
    case MapOf(pairs) => [116] + Four(|pairs|) + PairsWritten(pairs)
  }

  function AllWritten(items: seq<Form>): Buffer
    decreases items
  {
    if items == [] then [] else Written(items[0]) + AllWritten(items[1..])
  }

  function PairWritten(pair: Pair): Buffer
    decreases pair
  {
    Written(pair.key) + Written(pair.value)
  }

  function PairsWritten(pairs: seq<Pair>): Buffer
    decreases pairs
  {
    if pairs == [] then [] else PairWritten(pairs[0]) + PairsWritten(pairs[1..])
  }

  // -- What it means ----------------------------------------------------------------------------------

  /** A digit with `n` digits to the base 256 behind it. */
  function Placed(digit: nat, n: nat): nat {
    if n == 0 then digit else 256 * Placed(digit, n - 1)
  }

  /** The least significant digit comes first. */
  function DigitSum(digits: Buffer): nat {
    if digits == [] then 0 else DigitSum(digits[..|digits| - 1]) + Placed(digits[|digits| - 1], |digits| - 1)
  }

  function AtomMeaning(name: Buffer): Value {
    if name == [110, 105, 108] || name == [110, 117, 108, 108] then Null
    else if name == [116, 114, 117, 101] then Bool(true)
    else if name == [102, 97, 108, 115, 101] then Bool(false)
    else Atom(name)
  }

  function Meaning(form: Form): Value
    decreases form
  {
    match form
    case SmallInteger(byte) => Unsigned(byte)
    case Integer(number) => Signed(number)
    case NewFloat(bits) => Float(bits)
    case AtomText(_, _, name) => AtomMeaning(name)
    case SmallTuple(items) => Tuple(Meanings(items))
    case LargeTuple(items) => Tuple(Meanings(items))
    case Nil => List([])
    case String(bytes) => List(seq(|bytes|, i requires 0 <= i < |bytes| => Unsigned(bytes[i])))
    case ListOf(items) => List(Meanings(items))
    case BinaryOf(bytes) => Binary(bytes)
    case Big(_, negative, digits) =>
      var sum: int := DigitSum(digits);
      if negative then Signed(-sum) else Unsigned(sum)
    case MapOf(pairs) => Map(PairMeanings(pairs))
  }

  function Meanings(items: seq<Form>): (values: seq<Value>)
    ensures |values| == |items|
    decreases items
  {
    if items == [] then [] else [Meaning(items[0])] + Meanings(items[1..])
  }

  function PairMeaning(pair: Pair): Entry
    decreases pair
  {
    Entry(Meaning(pair.key), Meaning(pair.value))
  }

  function PairMeanings(pairs: seq<Pair>): (entries: seq<Entry>)
    ensures |entries| == |pairs|
    decreases pairs
  {
    if pairs == [] then [] else [PairMeaning(pairs[0])] + PairMeanings(pairs[1..])
  }

  // -- Which forms are read ---------------------------------------------------------------------------

  /** Lengths fit their fields, texts are UTF-8, numbers fit 64 bits, and at most `levels` levels are nested below. */
  predicate Readable(form: Form, levels: int)
    decreases form
  {
    match form
    case SmallInteger(_) => true
    case Integer(number) => -0x8000_0000 <= number < 0x8000_0000
    case NewFloat(bits) => |bits| == 8
    case AtomText(_, small, name) => IsUtf8(name) && |name| < if small then 0x100 else 0x1_0000
    case SmallTuple(items) => |items| < 0x100 && AllReadable(items, levels - 1)
    case LargeTuple(items) => |items| < 0x1_0000_0000 && AllReadable(items, levels - 1)
    case Nil => true
    case String(bytes) => |bytes| < 0x1_0000
    case ListOf(items) => |items| < 0x1_0000_0000 && AllReadable(items, levels - 1)
    case BinaryOf(bytes) => |bytes| < 0x1_0000_0000
    case Big(_, negative, digits) => |digits| <= 8 && (negative ==> DigitSum(digits) <= 0x8000_0000_0000_0000)
    case MapOf(pairs) => |pairs| < 0x1_0000_0000 && PairsReadable(pairs, levels - 1)
  }

  predicate AllReadable(items: seq<Form>, levels: int)
    decreases items
  {
    items == [] || (levels >= 0 && Readable(items[0], levels) && AllReadable(items[1..], levels))
  }

  predicate PairReadable(pair: Pair, levels: int)
    decreases pair
  {
    Readable(pair.key, levels) && Readable(pair.value, levels)
  }

  predicate PairsReadable(pairs: seq<Pair>, levels: int)
    decreases pairs
  {
    pairs == [] || (levels >= 0 && PairReadable(pairs[0], levels) && PairsReadable(pairs[1..], levels))
  }

  // -- Numbers ----------------------------------------------------------------------------------------

  lemma BigEndianIsWritten(n: nat)
    ensures n < 0x1_0000 ==> BigEndian(n, 2) == Two(n)
    ensures n < 0x1_0000_0000 ==> BigEndian(n, 4) == Four(n)
  {
    var a := n / 256;
    var b := a / 256;
    var c := b / 256;
    assert n / 0x1_0000 == b && n / 0x100_0000 == c;
    assert BigEndian(a, 1) == [a % 256] && BigEndian(c, 1) == [c % 256];
    assert BigEndian(n, 2) == [a % 256, n % 256];
    assert BigEndian(b, 2) == [c % 256, b % 256];
    assert BigEndian(a, 3) == [c % 256, b % 256, a % 256];
    assert BigEndian(n, 4) == [c % 256, b % 256, a % 256, n % 256];
  }

  lemma {:induction false} BigEndianBack(bytes: Buffer)
    ensures FromBigEndian(bytes) < Power256(|bytes|) && BigEndian(FromBigEndian(bytes), |bytes|) == bytes
  {
    if bytes != [] {
      var front := bytes[..|bytes| - 1];
      BigEndianBack(front);
      assert FromBigEndian(bytes) / 256 == FromBigEndian(front) && FromBigEndian(bytes) % 256 == bytes[|bytes| - 1];
      assert bytes == front + [bytes[|bytes| - 1]];
    }
  }

  lemma {:induction false} LittleEndianIsDigitSum(digits: Buffer)
    ensures FromLittleEndian(digits) == DigitSum(digits)
  {
    if digits != [] {
      LittleEndianIsDigitSum(digits[1..]);
      DigitSumFromFront(digits);
    }
  }

  lemma {:induction false} DigitSumFromFront(digits: Buffer)
    requires digits != []
    ensures DigitSum(digits) == digits[0] + 256 * DigitSum(digits[1..])
  {
    var n := |digits|;
    if n > 1 {
      DigitSumFromFront(digits[..n - 1]);
      assert digits[..n - 1][1..] == digits[1..][..n - 2];
    } else {
      assert DigitSum(digits[..0]) == 0 && DigitSum(digits[1..]) == 0;
    }
  }

  lemma LengthHeld(input: Buffer, at: nat, n: nat, rest: Buffer)
    requires n < 0x1_0000_0000 && Holds(input, at, Four(n) + rest)
    ensures TakeNumber(input, at, 4) == Ok(n, at + 4) && Holds(input, at + 4, rest)
  {
    Powers();
    BigEndianIsWritten(n);
    HoldsParts(input, at, Four(n), rest);
    TakeNumberHeld(input, at, n, 4);
  }

  lemma ShortLengthHeld(input: Buffer, at: nat, n: nat, rest: Buffer)
    requires n < 0x1_0000 && Holds(input, at, Two(n) + rest)
    ensures TakeNumber(input, at, 2) == Ok(n, at + 2) && Holds(input, at + 2, rest)
  {
    Powers();
    BigEndianIsWritten(n);
    HoldsParts(input, at, Two(n), rest);
    TakeNumberHeld(input, at, n, 2);
  }

  // -- Every readable form is read --------------------------------------------------------------------

  predicate IsScalar(form: Form) {
    !form.SmallTuple? && !form.LargeTuple? && !form.ListOf? && !form.MapOf?
  }

  /** What is read behind each tag of a number or an atom. */
  lemma ScalarTags(input: Buffer, at: nat)
    requires at <= |input|
    ensures DecodeScalar(input, at, 110) == DecodeBig(input, TakeNumber(input, at, 1))
    ensures DecodeScalar(input, at, 111) == DecodeBig(input, TakeNumber(input, at, 4))
    ensures DecodeScalar(input, at, 115) == DecodeScalar(input, at, 119) == DecodeAtom(input, TakeNumber(input, at, 1))
    ensures DecodeScalar(input, at, 100) == DecodeScalar(input, at, 118) == DecodeAtom(input, TakeNumber(input, at, 2))
  {
  }

  lemma AtomMeaningIsRead(name: Buffer)
    ensures AtomMeaning(name) == CanonicalAtom(name)
  {
    assert NIL_NAME == [110, 105, 108] && NULL_NAME == [110, 117, 108, 108];
    assert TRUE_NAME == [116, 114, 117, 101] && FALSE_NAME == [102, 97, 108, 115, 101];
  }

  lemma NameIsRead(input: Buffer, length: Result<nat>, name: Buffer)
    requires length.Ok? && length.value == |name| && length.next <= |input| && Holds(input, length.next, name) && IsUtf8(name)
    ensures DecodeAtom(input, length) == Ok(AtomMeaning(name), length.next + |name|)
  {
    TakeHeld(input, length.next, name);
    AtomMeaningIsRead(name);
  }

  lemma ByteBehindTag(input: Buffer, at: nat, depth: nat, tag: Byte, size: Byte, rest: Buffer)
    requires depth <= 128 && IsScalarTag(tag) && Holds(input, at, [tag] + ([size] + rest))
    ensures at < |input| && Decode(input, at, depth) == DecodeScalar(input, at + 1, tag)
    ensures TakeNumber(input, at + 1, 1) == Ok(size, at + 2) && Holds(input, at + 2, rest)
  {
    ScalarRead(input, at, depth, tag, [size] + rest);
    ByteIsNumber(input, at + 1, size, rest);
  }

  lemma LengthBehindTag(input: Buffer, at: nat, depth: nat, tag: Byte, n: nat, rest: Buffer)
    requires depth <= 128 && IsScalarTag(tag) && n < 0x1_0000_0000 && Holds(input, at, [tag] + (Four(n) + rest))
    ensures at < |input| && Decode(input, at, depth) == DecodeScalar(input, at + 1, tag)
    ensures TakeNumber(input, at + 1, 4) == Ok(n, at + 5) && Holds(input, at + 5, rest)
  {
    ScalarRead(input, at, depth, tag, Four(n) + rest);
    LengthHeld(input, at + 1, n, rest);
  }

  /** An atom's length has been read, with the name behind it. */
  lemma AtomBehind(input: Buffer, at: nat, depth: nat, tag: Byte, length: Result<nat>, name: Buffer)
    requires at < |input| && Decode(input, at, depth) == DecodeScalar(input, at + 1, tag)
    requires length == TakeNumber(input, at + 1, if tag == 115 || tag == 119 then 1 else 2)
    requires tag in {100, 115, 118, 119} && length.Ok? && length.value == |name| && length.next <= |input|
    requires Holds(input, length.next, name) && IsUtf8(name)
    ensures Decode(input, at, depth) == Ok(AtomMeaning(name), length.next + |name|)
  {
    ScalarTags(input, at + 1);
    NameIsRead(input, length, name);
  }

  lemma SmallAtomIsRead(input: Buffer, at: nat, depth: nat, tag: Byte, size: Byte, name: Buffer)
    requires tag == 115 || tag == 119
    requires IsUtf8(name) && size == |name| && depth <= 128 && Holds(input, at, [tag] + ([size] + name))
    ensures at <= |input| && Decode(input, at, depth) == Ok(AtomMeaning(name), at + 2 + |name|)
  {
    ByteBehindTag(input, at, depth, tag, size, name);
    AtomBehind(input, at, depth, tag, TakeNumber(input, at + 1, 1), name);
  }

  lemma LongAtomIsRead(input: Buffer, at: nat, depth: nat, tag: Byte, name: Buffer)
    requires tag == 100 || tag == 118
    requires IsUtf8(name) && |name| < 0x1_0000 && depth <= 128 && Holds(input, at, [tag] + (Two(|name|) + name))
    ensures at <= |input| && Decode(input, at, depth) == Ok(AtomMeaning(name), at + 3 + |name|)
  {
    ScalarRead(input, at, depth, tag, Two(|name|) + name);
    ShortLengthHeld(input, at + 1, |name|, name);
    AtomBehind(input, at, depth, tag, TakeNumber(input, at + 1, 2), name);
  }

  lemma AtomIsRead(input: Buffer, at: nat, depth: nat, form: Form)
    requires form.AtomText? && Readable(form, 0) && depth <= 128 && Holds(input, at, Written(form))
    ensures at <= |input| && Decode(input, at, depth) == Ok(Meaning(form), at + |Written(form)|)
  {
    var name := form.name;
    if form.small {
      var tag: Byte := if form.utf8 then 119 else 115;
      assert Written(form) == [tag] + ([|name| as Byte] + name);
      SmallAtomIsRead(input, at, depth, tag, |name|, name);
    } else {
      var tag: Byte := if form.utf8 then 118 else 100;
      assert Written(form) == [tag] + (Two(|name|) + name);
      LongAtomIsRead(input, at, depth, tag, name);
    }
  }

  lemma DigitsAreRead(input: Buffer, length: Result<nat>, sign: Byte, digits: Buffer)
    requires length.Ok? && length.value == |digits| <= 8 && length.next <= |input| && Holds(input, length.next, [sign] + digits)
    requires sign <= 1 && (sign == 1 ==> DigitSum(digits) <= 0x8000_0000_0000_0000)
    ensures DecodeBig(input, length) == Ok(Meaning(Big(true, sign == 1, digits)), length.next + 1 + |digits|)
  {
    LittleEndianIsDigitSum(digits);
    TagHeld(input, length.next, sign, digits);
    TakeHeld(input, length.next + 1, digits);
  }

  lemma BigBehind(input: Buffer, at: nat, depth: nat, tag: Byte, length: Result<nat>, sign: Byte, digits: Buffer)
    requires at < |input| && Decode(input, at, depth) == DecodeScalar(input, at + 1, tag)
    requires tag in {110, 111} && length == TakeNumber(input, at + 1, if tag == 110 then 1 else 4)
    requires length.Ok? && length.value == |digits| <= 8 && length.next <= |input| && Holds(input, length.next, [sign] + digits)
    requires sign <= 1 && (sign == 1 ==> DigitSum(digits) <= 0x8000_0000_0000_0000)
    ensures Decode(input, at, depth) == Ok(Meaning(Big(true, sign == 1, digits)), length.next + 1 + |digits|)
  {
    ScalarTags(input, at + 1);
    DigitsAreRead(input, length, sign, digits);
  }

  lemma SmallBigIsRead(input: Buffer, at: nat, depth: nat, size: Byte, sign: Byte, digits: Buffer)
    requires size == |digits| <= 8 && sign <= 1 && (sign == 1 ==> DigitSum(digits) <= 0x8000_0000_0000_0000)
    requires depth <= 128 && Holds(input, at, [110] + ([size] + ([sign] + digits)))
    ensures at <= |input| && Decode(input, at, depth) == Ok(Meaning(Big(true, sign == 1, digits)), at + 3 + |digits|)
  {
    ByteBehindTag(input, at, depth, 110, size, [sign] + digits);
    BigBehind(input, at, depth, 110, TakeNumber(input, at + 1, 1), sign, digits);
  }

  lemma LargeBigIsRead(input: Buffer, at: nat, depth: nat, sign: Byte, digits: Buffer)
    requires |digits| <= 8 && sign <= 1 && (sign == 1 ==> DigitSum(digits) <= 0x8000_0000_0000_0000)
    requires depth <= 128 && Holds(input, at, [111] + (Four(|digits|) + ([sign] + digits)))
    ensures at <= |input| && Decode(input, at, depth) == Ok(Meaning(Big(true, sign == 1, digits)), at + 6 + |digits|)
  {
    LengthBehindTag(input, at, depth, 111, |digits|, [sign] + digits);
    BigBehind(input, at, depth, 111, TakeNumber(input, at + 1, 4), sign, digits);
  }

  lemma BigIsRead(input: Buffer, at: nat, depth: nat, form: Form)
    requires form.Big? && Readable(form, 0) && depth <= 128 && Holds(input, at, Written(form))
    ensures at <= |input| && Decode(input, at, depth) == Ok(Meaning(form), at + |Written(form)|)
  {
    var sign: Byte, digits := if form.negative then 1 else 0, form.digits;
    if form.small {
      SmallBigIsWritten(|digits|, sign, digits);
      SmallBigIsRead(input, at, depth, |digits|, sign, digits);
    } else {
      LargeBigIsWritten(sign, digits);
      LargeBigIsRead(input, at, depth, sign, digits);
    }
  }

  lemma IntegerIsRead(input: Buffer, at: nat, depth: nat, number: int)
    requires -0x8000_0000 <= number < 0x8000_0000 && depth <= 128 && Holds(input, at, Written(Integer(number)))
    ensures at <= |input| && Decode(input, at, depth) == Ok(Signed(number), at + 5)
  {
    var n := (number + 0x1_0000_0000) % 0x1_0000_0000;
    assert Written(Integer(number)) == [98] + (Four(n) + []);
    ScalarRead(input, at, depth, 98, Four(n) + []);
    LengthHeld(input, at + 1, n, []);
  }

  lemma BytesAreRead(input: Buffer, at: nat, depth: nat, form: Form)
    requires form.String? || form.BinaryOf? || form.NewFloat?
    requires Readable(form, 0) && depth <= 128 && Holds(input, at, Written(form))
    ensures at <= |input| && Decode(input, at, depth) == Ok(Meaning(form), at + |Written(form)|)
  {
    match form
    case String(bytes) =>
      assert Written(form) == [107] + (Two(|bytes|) + bytes);
      ScalarRead(input, at, depth, 107, Two(|bytes|) + bytes);
      ShortLengthHeld(input, at + 1, |bytes|, bytes);
      TakeHeld(input, at + 3, bytes);
      assert Numbers(bytes) == Meaning(form).items;
    case BinaryOf(bytes) =>
      assert Written(form) == [109] + (Four(|bytes|) + bytes);
      ScalarRead(input, at, depth, 109, Four(|bytes|) + bytes);
      LengthHeld(input, at + 1, |bytes|, bytes);
      TakeHeld(input, at + 5, bytes);
    case NewFloat(bits) =>
      ScalarRead(input, at, depth, 70, bits);
      TakeHeld(input, at + 1, bits);
  }

  lemma ScalarIsRead(input: Buffer, at: nat, depth: nat, form: Form)
    requires IsScalar(form) && Readable(form, 0) && depth <= 128 && Holds(input, at, Written(form))
    ensures at <= |input| && Decode(input, at, depth) == Ok(Meaning(form), at + |Written(form)|)
  {
    match form
    case SmallInteger(byte) =>
      assert Written(form) == [97] + ([byte] + []);
      ScalarRead(input, at, depth, 97, [byte] + []);
      ByteIsNumber(input, at + 1, byte, []);
    case Integer(number) => IntegerIsRead(input, at, depth, number);
    case AtomText(_, _, _) => AtomIsRead(input, at, depth, form);
    case Nil =>
      assert Written(form) == [106] + [];
      ScalarRead(input, at, depth, 106, []);
    case Big(_, _, _) => BigIsRead(input, at, depth, form);
    case _ => BytesAreRead(input, at, depth, form);
  }

  lemma WrittenTakesAByte(form: Form)
    ensures |Written(form)| >= 1
  {
  }

  lemma {:induction false} AllWrittenTakeBytes(items: seq<Form>)
    ensures |AllWritten(items)| >= |items|
  {
    if items != [] {
      WrittenTakesAByte(items[0]);
      AllWrittenTakeBytes(items[1..]);
    }
  }

  lemma {:induction false} PairsWrittenTakeBytes(pairs: seq<Pair>)
    ensures |PairsWritten(pairs)| >= 2 * |pairs|
  {
    if pairs != [] {
      WrittenTakesAByte(pairs[0].key);
      WrittenTakesAByte(pairs[0].value);
      PairsWrittenTakeBytes(pairs[1..]);
    }
  }

  function HeadSize(form: Form): nat {
    if form.SmallTuple? then 2 else 5
  }

  /** A collection's head names the number of elements, and these lie behind it. */
  lemma TupleIsLaidOut(input: Buffer, at: nat, depth: nat, form: Form)
    requires (form.SmallTuple? || form.LargeTuple?) && Readable(form, 128 - depth) && depth <= 128
    requires Holds(input, at, Written(form))
    ensures var body := at + HeadSize(form);
            && body <= |input| && Holds(input, body, AllWritten(form.items))
            && |Written(form)| == HeadSize(form) + |AllWritten(form.items)|
            && Decode(input, at, depth)
               == match DecodeAll(input, body, depth + 1, |form.items|)
                  case Ok(decoded, end) => Ok(Tuple(decoded), end)
                  case Err(error) => Err(error)
  {
    var items, body := form.items, AllWritten(form.items);
    AllWrittenTakeBytes(items);
    if form.SmallTuple? {
      assert Written(form) == [104] + ([|items| as Byte] + body);
      TagRead(input, at, depth, 104, [|items| as Byte] + body);
      ByteIsNumber(input, at + 1, |items| as Byte, body);
    } else {
      assert Written(form) == [105] + (Four(|items|) + body);
      TagRead(input, at, depth, 105, Four(|items|) + body);
      LengthHeld(input, at + 1, |items|, body);
    }
  }

  lemma ListIsLaidOut(input: Buffer, at: nat, depth: nat, form: Form)
    requires form.ListOf? && Readable(form, 128 - depth) && depth <= 128 && Holds(input, at, Written(form))
    ensures var end := at + 5 + |AllWritten(form.items)|;
            && end < |input| && input[end] == 106 && |Written(form)| == end + 1 - at
            && Holds(input, at + 5, AllWritten(form.items))
            && TakeNumber(input, at + 1, 4) == Ok(|form.items|, at + 5) && |form.items| <= |input| - (at + 5)
            && Decode(input, at, depth) == DecodeList(input, at + 1, depth)
  {
    var items, body, last := form.items, AllWritten(form.items), [106 as Byte] + [];
    AllWrittenTakeBytes(items);
    assert Written(form) == [108] + (Four(|items|) + (body + last));
    TagRead(input, at, depth, 108, Four(|items|) + (body + last));
    LengthHeld(input, at + 1, |items|, body + last);
    HoldsParts(input, at + 5, body, last);
    TagHeld(input, at + 5 + |body|, 106, []);
  }

  lemma MapIsLaidOut(input: Buffer, at: nat, depth: nat, form: Form)
    requires form.MapOf? && Readable(form, 128 - depth) && depth <= 128 && Holds(input, at, Written(form))
    ensures at + 5 <= |input| && Holds(input, at + 5, PairsWritten(form.pairs))
    ensures |Written(form)| == 5 + |PairsWritten(form.pairs)|
    ensures Decode(input, at, depth)
            == match DecodeEntries(input, at + 5, depth + 1, |form.pairs|)
               case Ok(decoded, end) => Ok(Map(decoded), end)
               case Err(error) => Err(error)
  {
    var pairs, body := form.pairs, PairsWritten(form.pairs);
    PairsWrittenTakeBytes(pairs);
    assert Written(form) == [116] + (Four(|pairs|) + body);
    TagRead(input, at, depth, 116, Four(|pairs|) + body);
    LengthHeld(input, at + 1, |pairs|, body);
  }

  lemma ScalarNeedsNoLevels(form: Form, levels: int)
    requires IsScalar(form) && Readable(form, levels)
    ensures Readable(form, 0)
  {
  }

  /** Wherever a readable form lies in a payload, whoever wrote it, decoding consumes exactly it and gives its meaning. */
  lemma {:induction false} EveryFormIsRead(input: Buffer, at: nat, depth: nat, form: Form)
    requires depth <= 128 && Readable(form, 128 - depth) && Holds(input, at, Written(form))
    ensures at <= |input| && Decode(input, at, depth) == Ok(Meaning(form), at + |Written(form)|)
    decreases form, 1
  {
    if IsScalar(form) {
      ScalarNeedsNoLevels(form, 128 - depth);
      ScalarIsRead(input, at, depth, form);
    } else if form.ListOf? {
      ListIsRead(input, at, depth, form);
    } else if form.MapOf? {
      MapIsRead(input, at, depth, form);
    } else {
      TupleIsRead(input, at, depth, form);
    }
  }

  lemma {:induction false} TupleIsRead(input: Buffer, at: nat, depth: nat, form: Form)
    requires (form.SmallTuple? || form.LargeTuple?) && depth <= 128 && Readable(form, 128 - depth) && Holds(input, at, Written(form))
    ensures at <= |input| && Decode(input, at, depth) == Ok(Meaning(form), at + |Written(form)|)
    decreases form, 0
  {
    TupleIsLaidOut(input, at, depth, form);
    AllFormsAreRead(input, at + HeadSize(form), depth + 1, form.items);
  }

  lemma {:induction false} ListIsRead(input: Buffer, at: nat, depth: nat, form: Form)
    requires form.ListOf? && depth <= 128 && Readable(form, 128 - depth) && Holds(input, at, Written(form))
    ensures at <= |input| && Decode(input, at, depth) == Ok(Meaning(form), at + |Written(form)|)
    decreases form, 0
  {
    ListIsLaidOut(input, at, depth, form);
    AllFormsAreRead(input, at + 5, depth + 1, form.items);
  }

  lemma {:induction false} MapIsRead(input: Buffer, at: nat, depth: nat, form: Form)
    requires form.MapOf? && depth <= 128 && Readable(form, 128 - depth) && Holds(input, at, Written(form))
    ensures at <= |input| && Decode(input, at, depth) == Ok(Meaning(form), at + |Written(form)|)
    decreases form, 0
  {
    MapIsLaidOut(input, at, depth, form);
    AllPairsAreRead(input, at + 5, depth + 1, form.pairs);
  }

  lemma {:induction false} AllFormsAreRead(input: Buffer, at: nat, depth: nat, items: seq<Form>)
    requires AllReadable(items, 128 - depth) && Holds(input, at, AllWritten(items))
    ensures at <= |input| && DecodeAll(input, at, depth, |items|) == Ok(Meanings(items), at + |AllWritten(items)|)
    decreases items, 2
  {
    if items != [] {
      HoldsParts(input, at, Written(items[0]), AllWritten(items[1..]));
      EveryFormIsRead(input, at, depth, items[0]);
      AllFormsAreRead(input, at + |Written(items[0])|, depth, items[1..]);
    }
  }

  lemma {:induction false} PairIsRead(input: Buffer, at: nat, depth: nat, pair: Pair)
    requires depth <= 128 && PairReadable(pair, 128 - depth) && Holds(input, at, PairWritten(pair))
    ensures at <= |input| && DecodeEntry(input, at, depth) == Ok(PairMeaning(pair), at + |PairWritten(pair)|)
    decreases pair, 2
  {
    HoldsParts(input, at, Written(pair.key), Written(pair.value));
    EveryFormIsRead(input, at, depth, pair.key);
    EveryFormIsRead(input, at + |Written(pair.key)|, depth, pair.value);
  }

  lemma {:induction false} AllPairsAreRead(input: Buffer, at: nat, depth: nat, pairs: seq<Pair>)
    requires PairsReadable(pairs, 128 - depth) && Holds(input, at, PairsWritten(pairs))
    ensures at <= |input| && DecodeEntries(input, at, depth, |pairs|) == Ok(PairMeanings(pairs), at + |PairsWritten(pairs)|)
    decreases pairs, 2
  {
    if pairs != [] {
      HoldsParts(input, at, PairWritten(pairs[0]), PairsWritten(pairs[1..]));
      PairIsRead(input, at, depth, pairs[0]);
      AllPairsAreRead(input, at + |PairWritten(pairs[0])|, depth, pairs[1..]);
    }
  }

  // -- Nothing else is read ---------------------------------------------------------------------------

  ghost predicate IsFormAt(form: Form, input: Buffer, at: nat, next: nat, levels: int, value: Value) {
    && at <= next <= |input| && Readable(form, levels)
    && Written(form) == input[at..next] && Meaning(form) == value
  }

  ghost predicate AreFormsAt(items: seq<Form>, input: Buffer, at: nat, next: nat, levels: int, values: seq<Value>) {
    && at <= next <= |input| && AllReadable(items, levels)
    && AllWritten(items) == input[at..next] && Meanings(items) == values
  }

  ghost predicate ArePairsAt(pairs: seq<Pair>, input: Buffer, at: nat, next: nat, levels: int, entries: seq<Entry>) {
    && at <= next <= |input| && PairsReadable(pairs, levels)
    && PairsWritten(pairs) == input[at..next] && PairMeanings(pairs) == entries
  }

  lemma NumberWasWritten(input: Buffer, at: nat, size: nat)
    requires TakeNumber(input, at, size).Ok?
    ensures var r := TakeNumber(input, at, size);
            && input[at..r.next] == BigEndian(r.value, size)
            && (size == 1 ==> r.value < 0x100 && input[at..r.next] == [r.value])
            && (size == 2 ==> r.value < 0x1_0000 && input[at..r.next] == Two(r.value))
            && (size == 4 ==> r.value < 0x1_0000_0000 && input[at..r.next] == Four(r.value))
  {
    var r := TakeNumber(input, at, size);
    BigEndianBack(input[at..r.next]);
    Powers();
    assert Power256(1) == 256;
    BigEndianIsWritten(r.value);
    if size == 1 { assert BigEndian(r.value, 1) == [r.value % 256]; }
  }

  /** A tag, a length or number behind it, and the rest. */
  lemma TaggedSlice(input: Buffer, at: nat, middle: nat, next: nat)
    requires at < middle <= next <= |input|
    ensures input[at..next] == [input[at]] + (input[at + 1..middle] + input[middle..next])
  {
  }

  lemma SliceIn(input: Buffer, a: nat, b: nat, c: nat)
    requires a <= b <= c <= |input|
    ensures input[a..c] == input[a..b] + input[b..c]
  {
  }

  lemma NameWasRead(input: Buffer, length: Result<nat>)
    requires length.Ok? && length.next <= |input| && DecodeAtom(input, length).Ok?
    ensures var r := DecodeAtom(input, length);
            && r.next == length.next + length.value && IsUtf8(input[length.next..r.next])
            && r.value == AtomMeaning(input[length.next..r.next])
  {
    var r := DecodeAtom(input, length);
    var name := input[length.next..r.next];
    assert Take(input, length.next, length.value) == Ok(name, r.next);
    AtomMeaningIsRead(name);
  }

  /** A length and the bytes behind it follow a tag. */
  lemma LengthAndBytes(input: Buffer, at: nat, size: nat, next: nat)
    requires at < |input| && TakeNumber(input, at + 1, size).Ok?
    requires next == at + 1 + size + TakeNumber(input, at + 1, size).value <= |input|
    ensures var n, bytes := TakeNumber(input, at + 1, size).value, input[at + 1 + size..next];
            && |bytes| == n
            && (size == 1 ==> n < 0x100 && input[at..next] == [input[at]] + ([n] + bytes))
            && (size == 2 ==> n < 0x1_0000 && input[at..next] == [input[at]] + (Two(n) + bytes))
            && (size == 4 ==> n < 0x1_0000_0000 && input[at..next] == [input[at]] + (Four(n) + bytes))
  {
    NumberWasWritten(input, at + 1, size);
    TaggedSlice(input, at, at + 1 + size, next);
  }

  lemma SmallAtomForm(input: Buffer, at: nat) returns (form: Form)
    requires at < |input| && (input[at] == 115 || input[at] == 119) && DecodeAtom(input, TakeNumber(input, at + 1, 1)).Ok?
    ensures var r := DecodeAtom(input, TakeNumber(input, at + 1, 1)); IsFormAt(form, input, at, r.next, 0, r.value) && IsScalar(form)
  {
    var r := DecodeAtom(input, TakeNumber(input, at + 1, 1));
    NameWasRead(input, TakeNumber(input, at + 1, 1));
    LengthAndBytes(input, at, 1, r.next);
    form := SmallAtomOf(input[at], TakeNumber(input, at + 1, 1).value, input[at + 2..r.next]);
  }

  lemma SmallAtomOf(tag: Byte, size: Byte, name: Buffer) returns (form: Form)
    requires (tag == 115 || tag == 119) && size == |name| && IsUtf8(name)
    ensures form == AtomText(tag == 119, true, name) && Readable(form, 0) && Written(form) == [tag] + ([size] + name)
  {
    form := AtomText(tag == 119, true, name);
  }

  lemma LongAtomForm(input: Buffer, at: nat) returns (form: Form)
    requires at < |input| && (input[at] == 100 || input[at] == 118) && DecodeAtom(input, TakeNumber(input, at + 1, 2)).Ok?
    ensures var r := DecodeAtom(input, TakeNumber(input, at + 1, 2)); IsFormAt(form, input, at, r.next, 0, r.value) && IsScalar(form)
  {
    var r := DecodeAtom(input, TakeNumber(input, at + 1, 2));
    NameWasRead(input, TakeNumber(input, at + 1, 2));
    LengthAndBytes(input, at, 2, r.next);
    var name := input[at + 3..r.next];
    form := AtomText(input[at] == 118, false, name);
    assert Written(form) == [input[at]] + (Two(|name|) + name);
  }

  lemma DigitsWereRead(input: Buffer, length: Result<nat>)
    requires length.Ok? && length.next <= |input| && DecodeBig(input, length).Ok?
    ensures length.next < |input| && input[length.next] <= 1 && length.value <= 8
    ensures var r := DecodeBig(input, length);
            && r.next == length.next + 1 + length.value
            && var digits := input[length.next + 1..r.next];
               && r.value == Meaning(Big(true, input[length.next] == 1, digits))
               && (input[length.next] == 1 ==> DigitSum(digits) <= 0x8000_0000_0000_0000)
               && input[length.next..r.next] == [input[length.next]] + digits
  {
    var r := DecodeBig(input, length);
    LittleEndianIsDigitSum(input[length.next + 1..r.next]);
  }

  lemma SmallBigForm(input: Buffer, at: nat) returns (form: Form)
    requires at < |input| && input[at] == 110 && DecodeBig(input, TakeNumber(input, at + 1, 1)).Ok?
    ensures var r := DecodeBig(input, TakeNumber(input, at + 1, 1)); IsFormAt(form, input, at, r.next, 0, r.value) && IsScalar(form)
  {
    var length, r := TakeNumber(input, at + 1, 1), DecodeBig(input, TakeNumber(input, at + 1, 1));
    NumberWasWritten(input, at + 1, 1);
    DigitsWereRead(input, length);
    var sign, digits := input[length.next], input[length.next + 1..r.next];
    form := Big(true, sign == 1, digits);
    TaggedSlice(input, at, length.next, r.next);
    SmallBigIsWritten(length.value, sign, digits);
  }

  lemma SmallBigIsWritten(size: Byte, sign: Byte, digits: Buffer)
    requires size == |digits| && sign <= 1
    ensures Written(Big(true, sign == 1, digits)) == [110] + ([size] + ([sign] + digits))
  {
  }

  lemma LargeBigIsWritten(sign: Byte, digits: Buffer)
    requires sign <= 1
    ensures Written(Big(false, sign == 1, digits)) == [111] + (Four(|digits|) + ([sign] + digits))
  {
  }

  lemma LargeBigForm(input: Buffer, at: nat) returns (form: Form)
    requires at < |input| && input[at] == 111 && DecodeBig(input, TakeNumber(input, at + 1, 4)).Ok?
    ensures var r := DecodeBig(input, TakeNumber(input, at + 1, 4)); IsFormAt(form, input, at, r.next, 0, r.value) && IsScalar(form)
  {
    var length, r := TakeNumber(input, at + 1, 4), DecodeBig(input, TakeNumber(input, at + 1, 4));
    NumberWasWritten(input, at + 1, 4);
    DigitsWereRead(input, length);
    var sign, digits := input[length.next], input[length.next + 1..r.next];
    form := Big(false, sign == 1, digits);
    TaggedSlice(input, at, length.next, r.next);
    LargeBigIsWritten(sign, digits);
  }

  lemma SignedDigits(n: nat)
    requires n < 0x1_0000_0000
    ensures -0x8000_0000 <= Signed32(n) < 0x8000_0000 && (Signed32(n) + 0x1_0000_0000) % 0x1_0000_0000 == n
  {
  }

  lemma IntegerForm(input: Buffer, at: nat) returns (form: Form)
    requires at < |input| && input[at] == 98 && DecodeScalar(input, at + 1, 98).Ok?
    ensures var r := DecodeScalar(input, at + 1, 98); IsFormAt(form, input, at, r.next, 0, r.value) && IsScalar(form)
  {
    var r := TakeNumber(input, at + 1, 4);
    NumberWasWritten(input, at + 1, 4);
    TaggedSlice(input, at, r.next, r.next);
    form := IntegerOf(r.value, input[at..r.next]);
  }

  lemma IntegerOf(n: nat, bytes: Buffer) returns (form: Form)
    requires n < 0x1_0000_0000 && bytes == [98] + (Four(n) + [])
    ensures form == Integer(Signed32(n)) && Readable(form, 0) && Written(form) == bytes
  {
    SignedDigits(n);
    form := Integer(Signed32(n));
  }

  lemma FloatForm(input: Buffer, at: nat) returns (form: Form)
    requires at < |input| && input[at] == 70 && DecodeScalar(input, at + 1, 70).Ok?
    ensures var r := DecodeScalar(input, at + 1, 70); IsFormAt(form, input, at, r.next, 0, r.value) && IsScalar(form)
  {
    var r := Take(input, at + 1, 8);
    form := NewFloat(r.value);
    TaggedSlice(input, at, at + 1, r.next);
    assert Written(form) == [70] + (input[at + 1..at + 1] + r.value);
  }

  lemma StringForm(input: Buffer, at: nat) returns (form: Form)
    requires at < |input| && input[at] == 107 && DecodeScalar(input, at + 1, 107).Ok?
    ensures var r := DecodeScalar(input, at + 1, 107); IsFormAt(form, input, at, r.next, 0, r.value) && IsScalar(form)
  {
    var length := TakeNumber(input, at + 1, 2);
    var next := length.next + length.value;
    LengthAndBytes(input, at, 2, next);
    var bytes := input[at + 3..next];
    assert DecodeScalar(input, at + 1, 107) == Ok(List(Numbers(bytes)), next);
    form := String(bytes);
    assert Numbers(bytes) == Meaning(form).items;
    assert Written(form) == [107] + (Two(|bytes|) + bytes);
  }

  lemma BinaryForm(input: Buffer, at: nat) returns (form: Form)
    requires at < |input| && input[at] == 109 && DecodeScalar(input, at + 1, 109).Ok?
    ensures var r := DecodeScalar(input, at + 1, 109); IsFormAt(form, input, at, r.next, 0, r.value) && IsScalar(form)
  {
    var length := TakeNumber(input, at + 1, 4);
    var next := length.next + length.value;
    LengthAndBytes(input, at, 4, next);
    var bytes := input[at + 5..next];
    assert DecodeScalar(input, at + 1, 109) == Ok(Binary(bytes), next);
    form := BinaryOf(bytes);
    assert Written(form) == [109] + (Four(|bytes|) + bytes);
  }

  lemma ScalarForm(input: Buffer, at: nat, tag: Byte) returns (form: Form)
    requires at < |input| && input[at] == tag && DecodeScalar(input, at + 1, tag).Ok?
    ensures var r := DecodeScalar(input, at + 1, tag); IsFormAt(form, input, at, r.next, 0, r.value) && IsScalar(form)
  {
    if tag == 97 {
      NumberWasWritten(input, at + 1, 1);
      form := SmallInteger(input[at + 1]);
    } else if tag == 98 {
      form := IntegerForm(input, at);
    } else if tag == 115 || tag == 119 {
      form := SmallAtomForm(input, at);
    } else if tag == 100 || tag == 118 {
      form := LongAtomForm(input, at);
    } else if tag == 106 {
      form := Nil;
    } else if tag == 110 {
      form := SmallBigForm(input, at);
    } else if tag == 111 {
      form := LargeBigForm(input, at);
    } else if tag == 107 {
      form := StringForm(input, at);
    } else if tag == 109 {
      form := BinaryForm(input, at);
    } else {
      form := FloatForm(input, at);
    }
  }

  // -- Collections ------------------------------------------------------------------------------------

  lemma TupleForm(input: Buffer, at: nat, size: nat, levels: int, items: seq<Form>, next: nat, values: seq<Value>)
    returns (form: Form)
    requires at < |input| && (if size == 1 then input[at] == 104 else size == 4 && input[at] == 105)
    requires TakeNumber(input, at + 1, size).Ok? && TakeNumber(input, at + 1, size).value == |items|
    requires AreFormsAt(items, input, at + 1 + size, next, levels, values)
    ensures IsFormAt(form, input, at, next, levels + 1, Tuple(values))
  {
    NumberWasWritten(input, at + 1, size);
    form := if size == 1 then SmallTuple(items) else LargeTuple(items);
    TaggedSlice(input, at, at + 1 + size, next);
    assert Written(form) == [input[at]] + ((if size == 1 then [|items| as Byte] else Four(|items|)) + AllWritten(items));
  }

  lemma ListForm(input: Buffer, at: nat, levels: int, items: seq<Form>, end: nat, values: seq<Value>) returns (form: Form)
    requires at < |input| && input[at] == 108 && TakeNumber(input, at + 1, 4).Ok? && TakeNumber(input, at + 1, 4).value == |items|
    requires AreFormsAt(items, input, at + 5, end, levels, values) && end < |input| && input[end] == 106
    ensures IsFormAt(form, input, at, end + 1, levels + 1, List(values))
  {
    NumberWasWritten(input, at + 1, 4);
    form := ListOf(items);
    TaggedSlice(input, at, at + 5, end + 1);
    assert input[at + 5..end + 1] == AllWritten(items) + [106];
    assert Written(form) == [108] + (Four(|items|) + (AllWritten(items) + [106]));
  }

  lemma MapForm(input: Buffer, at: nat, levels: int, pairs: seq<Pair>, next: nat, entries: seq<Entry>) returns (form: Form)
    requires at < |input| && input[at] == 116 && TakeNumber(input, at + 1, 4).Ok? && TakeNumber(input, at + 1, 4).value == |pairs|
    requires ArePairsAt(pairs, input, at + 5, next, levels, entries)
    ensures IsFormAt(form, input, at, next, levels + 1, Map(entries))
  {
    NumberWasWritten(input, at + 1, 4);
    form := MapOf(pairs);
    TaggedSlice(input, at, at + 5, next);
    assert Written(form) == [116] + (Four(|pairs|) + PairsWritten(pairs));
  }

  lemma ScalarNeedsNone(form: Form, input: Buffer, at: nat, next: nat, levels: int, value: Value)
    requires IsFormAt(form, input, at, next, 0, value) && IsScalar(form)
    ensures IsFormAt(form, input, at, next, levels, value)
  {
  }

  /** Whatever is decoded was written as a readable form of just that value, and took just its bytes. */
  lemma {:induction false} OnlyFormsAreRead(input: Buffer, at: nat, depth: nat) returns (form: Form)
    requires at <= |input| && Decode(input, at, depth).Ok?
    ensures var r := Decode(input, at, depth); IsFormAt(form, input, at, r.next, 128 - depth, r.value)
    decreases |input| - at, 1
  {
    var tag := input[at];
    if tag == 104 || tag == 105 {
      form := TupleOnly(input, at, depth);
    } else if tag == 108 {
      form := ListOnly(input, at, depth);
    } else if tag == 116 {
      form := MapOnly(input, at, depth);
    } else {
      form := ScalarForm(input, at, tag);
      ScalarNeedsNone(form, input, at, Decode(input, at, depth).next, 128 - depth, Decode(input, at, depth).value);
    }
  }

  lemma {:induction false} TupleOnly(input: Buffer, at: nat, depth: nat) returns (form: Form)
    requires at < |input| && (input[at] == 104 || input[at] == 105) && Decode(input, at, depth).Ok?
    ensures var r := Decode(input, at, depth); IsFormAt(form, input, at, r.next, 128 - depth, r.value)
    decreases |input| - at, 0
  {
    var size, r := if input[at] == 104 then 1 else 4, Decode(input, at, depth);
    assert r == DecodeTuple(input, at + 1, depth, size);
    var items := AllOnly(input, at + 1 + size, depth + 1, TakeNumber(input, at + 1, size).value);
    form := TupleForm(input, at, size, 128 - (depth + 1), items, r.next, r.value.values);
  }

  lemma {:induction false} ListOnly(input: Buffer, at: nat, depth: nat) returns (form: Form)
    requires at < |input| && input[at] == 108 && Decode(input, at, depth).Ok?
    ensures var r := Decode(input, at, depth); IsFormAt(form, input, at, r.next, 128 - depth, r.value)
    decreases |input| - at, 0
  {
    var r := Decode(input, at, depth);
    assert r == DecodeList(input, at + 1, depth);
    var items := AllOnly(input, at + 5, depth + 1, TakeNumber(input, at + 1, 4).value);
    form := ListForm(input, at, 128 - (depth + 1), items, r.next - 1, r.value.items);
  }

  lemma {:induction false} MapOnly(input: Buffer, at: nat, depth: nat) returns (form: Form)
    requires at < |input| && input[at] == 116 && Decode(input, at, depth).Ok?
    ensures var r := Decode(input, at, depth); IsFormAt(form, input, at, r.next, 128 - depth, r.value)
    decreases |input| - at, 0
  {
    var r := Decode(input, at, depth);
    assert r == DecodeMap(input, at + 1, depth);
    var pairs := PairsOnly(input, at + 5, depth + 1, TakeNumber(input, at + 1, 4).value);
    form := MapForm(input, at, 128 - (depth + 1), pairs, r.next, r.value.entries);
  }

  lemma {:induction false} AllOnly(input: Buffer, at: nat, depth: nat, n: nat) returns (items: seq<Form>)
    requires at <= |input| && DecodeAll(input, at, depth, n).Ok?
    ensures var r := DecodeAll(input, at, depth, n); |items| == n && AreFormsAt(items, input, at, r.next, 128 - depth, r.value)
    decreases |input| - at, 2
  {
    if n == 0 {
      items := [];
    } else {
      var first, r := Decode(input, at, depth), DecodeAll(input, at, depth, n);
      var form := OnlyFormsAreRead(input, at, depth);
      var rest := AllOnly(input, first.next, depth, n - 1);
      items := [form] + rest;
      SliceIn(input, at, first.next, r.next);
    }
  }

  lemma {:induction false} PairsOnly(input: Buffer, at: nat, depth: nat, n: nat) returns (pairs: seq<Pair>)
    requires at <= |input| && DecodeEntries(input, at, depth, n).Ok?
    ensures var r := DecodeEntries(input, at, depth, n); |pairs| == n && ArePairsAt(pairs, input, at, r.next, 128 - depth, r.value)
    decreases |input| - at, 3
  {
    if n == 0 {
      pairs := [];
    } else {
      var first, r := DecodeEntry(input, at, depth), DecodeEntries(input, at, depth, n);
      var pair := PairOnly(input, at, depth);
      var rest := PairsOnly(input, first.next, depth, n - 1);
      pairs := [pair] + rest;
      SliceIn(input, at, first.next, r.next);
    }
  }

  lemma {:induction false} PairOnly(input: Buffer, at: nat, depth: nat) returns (pair: Pair)
    requires at <= |input| && DecodeEntry(input, at, depth).Ok?
    ensures var r := DecodeEntry(input, at, depth);
            && at <= r.next <= |input| && depth <= 128 && PairReadable(pair, 128 - depth)
            && PairWritten(pair) == input[at..r.next] && PairMeaning(pair) == r.value
    decreases |input| - at, 2
  {
    var key, r := Decode(input, at, depth), DecodeEntry(input, at, depth);
    var k := OnlyFormsAreRead(input, at, depth);
    var v := OnlyFormsAreRead(input, key.next, depth);
    pair := Pair(k, v);
    SliceIn(input, at, key.next, r.next);
  }
}
