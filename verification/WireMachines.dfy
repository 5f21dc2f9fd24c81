/** The encoder that appends to a byte vector and the decoder that moves a position over its payload. */
module WireMachines {
  import opened Bytes
  import opened Wire
  import opened Words

  // -- Encoder ----------------------------------------------------------------------------------------

  class Output {
    var bytes: Buffer

    constructor ()
      ensures bytes == []
    {
      bytes := [];
    }

    method Push(byte: Byte)
      modifies this
      ensures bytes == old(bytes) + [byte]
    {
      bytes := bytes + [byte];
    }

    method Extend(more: Buffer)
      modifies this
      ensures bytes == old(bytes) + more
    {
      bytes := bytes + more;
    }

    method PutAtom(name: Buffer)
      modifies this
      ensures bytes == old(bytes) + EncodeAtom(name)
    {
      if |name| < 256 {
        Push(SMALL_ATOM_UTF8_EXT);
        Push(|name|);
      } else {
        Push(ATOM_UTF8_EXT);
        Extend(BigEndian(|name| % UINT16, 2));
      }
      Extend(name);
    }

    /** The digits of a number, least significant first; one zero for zero. */
    static method Digits(number: nat) returns (digits: Buffer)
      ensures digits == Magnitude(number)
    {
      var magnitude: nat;
      magnitude, digits := number, [];
      while magnitude != 0
        invariant digits + LittleEndian(magnitude) == LittleEndian(number)
      {
        assert digits + ([magnitude % 256] + LittleEndian(magnitude / 256))
               == digits + [magnitude % 256] + LittleEndian(magnitude / 256);
        digits := digits + [magnitude % 256];
        magnitude := magnitude / 256;
      }
      assert digits + [] == digits;
      if digits == [] { digits := [0]; }
    }

    method PutBig(number: nat, negative: bool)
      modifies this
      ensures bytes == old(bytes) + EncodeBig(number, negative)
    {
      var digits := Digits(number);
      Push(SMALL_BIG_EXT);
      Push(|digits| % 256);
      Push(if negative then 1 else 0);
      Extend(digits);
    }

    method PutUnsigned(number: nat)
      modifies this
      ensures bytes == old(bytes) + EncodeUnsigned(number)
    {
      if number < 256 {
        Push(SMALL_INTEGER_EXT);
        Push(number);
      } else if number <= INT32_MAX {
        Push(INTEGER_EXT);
        Extend(BigEndian(number, 4));
      } else {
        PutBig(number, false);
      }
    }

    method PutSigned(signed: int)
      modifies this
      ensures bytes == old(bytes) + Encode(Signed(signed))
    {
      if signed >= 0 {
        PutUnsigned(signed);
      } else if signed >= -INT32_MAX - 1 {
        Push(INTEGER_EXT);
        Extend(BigEndian(signed + UINT32, 4));
      } else {
        PutBig(-signed, true);
      }
    }

    /** Appends the encoding of a value and nothing else. */
    method Put(v: Value)
      modifies this
      ensures bytes == old(bytes) + Encode(v)
      decreases v, 1
    {
      match v
      case Null => PutAtom(NIL_NAME);
      case Bool(truth) => PutAtom(if truth then TRUE_NAME else FALSE_NAME);
      case Unsigned(number) => PutUnsigned(number);
      case Signed(signed) => PutSigned(signed);
      case Float(bits) => PutFloat(bits);
      case Binary(content) => PutBinary(content);
      case Atom(name) => PutAtom(name);
      case Tuple(values) => PutTuple(values);
      case List(items) => PutList(items);
      case Map(entries) => PutMap(entries);
    }

    method PutFloat(bits: Buffer)
      modifies this
      ensures bytes == old(bytes) + Encode(Float(bits))
    {
      Push(NEW_FLOAT_EXT);
      Extend(bits);
    }

    method PutBinary(content: Buffer)
      modifies this
      ensures bytes == old(bytes) + Encode(Binary(content))
    {
      Push(BINARY_EXT);
      Extend(Length32(|content|));
      Extend(content);
    }

    method PutTupleHead(length: nat)
      modifies this
      ensures bytes == old(bytes) + if length < 256 then [SMALL_TUPLE_EXT, length] else [LARGE_TUPLE_EXT] + Length32(length)
    {
      if length < 256 {
        Push(SMALL_TUPLE_EXT);
        Push(length);
      } else {
        Push(LARGE_TUPLE_EXT);
        Extend(Length32(length));
      }
    }

    method PutTuple(values: seq<Value>)
      modifies this
      ensures bytes == old(bytes) + Encode(Tuple(values))
      decreases values, 1
    {
      PutTupleHead(|values|);
      PutAll(values);
    }

    method PutMap(entries: seq<Entry>)
      modifies this
      ensures bytes == old(bytes) + Encode(Map(entries))
      decreases entries, 1
    {
      Push(MAP_EXT);
      Extend(Length32(|entries|));
      PutEntries(entries);
    }

    method PutList(items: seq<Value>)
      modifies this
      ensures bytes == old(bytes) + Encode(List(items))
      decreases items, 1
    {
      if items == [] {
        Push(NIL_EXT);
      } else {
        Push(LIST_EXT);
        Extend(Length32(|items|));
        PutAll(items);
        Push(NIL_EXT);
      }
    }

    method PutAll(values: seq<Value>)
      modifies this
      ensures bytes == old(bytes) + EncodeAll(values)
      decreases values, 0
    {
      assert values[0..] == values;
      for i := 0 to |values|
        invariant bytes + EncodeAll(values[i..]) == old(bytes) + EncodeAll(values)
      {
        ghost var before := bytes;
        assert values[i..][0] == values[i] && values[i..][1..] == values[i + 1..];
        assert before + (Encode(values[i]) + EncodeAll(values[i + 1..])) == before + Encode(values[i]) + EncodeAll(values[i + 1..]);
        Put(values[i]);
      }
      assert bytes + EncodeAll([]) == bytes;
    }

    method PutEntries(entries: seq<Entry>)
      modifies this
      ensures bytes == old(bytes) + EncodeEntries(entries)
      decreases entries, 0
    {
      assert entries[0..] == entries;
      for i := 0 to |entries|
        invariant bytes + EncodeEntries(entries[i..]) == old(bytes) + EncodeEntries(entries)
      {
        ghost var before, rest := bytes, EncodeEntries(entries[i + 1..]);
        assert entries[i..][0] == entries[i] && entries[i..][1..] == entries[i + 1..];
        assert before + (EncodeEntry(entries[i]) + rest) == before + EncodeEntry(entries[i]) + rest;
        PutEntry(entries[i]);
      }
      assert bytes + EncodeEntries([]) == bytes;
    }

    method PutEntry(entry: Entry)
      modifies this
      ensures bytes == old(bytes) + EncodeEntry(entry)
      decreases entry, 0
    {
      Put(entry.key);
      Put(entry.value);
    }
  }

  // -- Decoder ----------------------------------------------------------------------------------------

  /** What the rest of a collection adds to the elements decoded so far. */
  function Behind<T>(done: seq<T>, r: Result<seq<T>>): Result<seq<T>> {
    match r
    case Ok(rest, next) => Ok(done + rest, next)
    case Err(error) => Err(error)
  }

  class Decoder {
    const input: Buffer
    var position: nat

    constructor (input: Buffer)
      ensures this.input == input && position == 0
    {
      this.input := input;
      position := 0;
    }

    ghost predicate Valid()
      reads this
    {
      position <= |input|
    }

    // After an error the decoder is not used again, so only a successful read says where the position is.

    method TakeBytes(n: nat) returns (r: Result<Buffer>)
      requires Valid()
      modifies this
      ensures r == Take(input, old(position), n) && Valid() && (r.Ok? ==> position == r.next)
    {
      r := Take(input, position, n);
      if r.Ok? { position := r.next; }
    }

    method NumberOf(size: nat) returns (r: Result<nat>)
      requires Valid()
      modifies this
      ensures r == TakeNumber(input, old(position), size) && Valid() && (r.Ok? ==> position == r.next)
    {
      var bytes := TakeBytes(size);
      r := if bytes.Ok? then Ok(FromBigEndian(bytes.value), bytes.next) else Err(bytes.error);
    }

    /** Room for the elements of a collection; never for more than the bytes that are left. */
    method Reserve(n: nat)
      requires Valid() && n <= |input| - position
    {
    }

    method ReadAtom(length: Result<nat>) returns (r: Result<Value>)
      requires Valid() && (length.Ok? ==> position == length.next)
      modifies this
      ensures r == DecodeAtom(input, length) && Valid() && (r.Ok? ==> position == r.next)
    {
      if length.Err? { return Err(length.error); }
      var name := TakeBytes(length.value);
      if name.Err? { return Err(name.error); }
      if !IsUtf8(name.value) { return Err(NotUtf8); }
      r := Ok(CanonicalAtom(name.value), position);
    }

    /** Each byte goes in above the bits set so far, so setting its bits is adding it. */
    static method Accumulate(bytes: Buffer) returns (magnitude: nat)
      ensures magnitude == FromLittleEndian(bytes)
    {
      magnitude := 0;
      for shift := 0 to |bytes|
        invariant magnitude == FromLittleEndian(bytes[..shift])
      {
        LittleEndianGrows(bytes[..shift], bytes[shift]);
        assert bytes[..shift] + [bytes[shift]] == bytes[..shift + 1];
        magnitude := magnitude + bytes[shift] as nat * Power256(shift);
      }
      assert bytes[..|bytes|] == bytes;
    }

    static lemma {:induction false} LittleEndianGrows(bytes: Buffer, byte: Byte)
      ensures FromLittleEndian(bytes + [byte]) == FromLittleEndian(bytes) + byte as nat * Power256(|bytes|)
    {
      if bytes == [] {
        assert FromLittleEndian([byte][1..]) == 0;
      } else {
        LittleEndianGrows(bytes[1..], byte);
        assert (bytes + [byte])[1..] == bytes[1..] + [byte];
        Distribute(byte, Power256(|bytes| - 1));
      }
    }

    static lemma Distribute(byte: nat, power: nat)
      ensures 256 * (byte * power) == byte * (256 * power)
    {
    }

    method ReadBig(length: Result<nat>) returns (r: Result<Value>)
      requires Valid() && (length.Ok? ==> position == length.next)
      modifies this
      ensures r == DecodeBig(input, length) && Valid() && (r.Ok? ==> position == r.next)
    {
      if length.Err? { return Err(length.error); }
      if length.value > 8 { return Err(TooBig); }
      if position == |input| { return Err(Truncated); }
      var sign := input[position];
      position := position + 1;
      if sign > 1 { return Err(InvalidSign); }
      var bytes := TakeBytes(length.value);
      if bytes.Err? { return Err(bytes.error); }
      var magnitude := Accumulate(bytes.value);
      if sign == 0 { return Ok(Unsigned(magnitude), position); }
      r := if magnitude <= INT64_MAX + 1 then Ok(Signed(0 - magnitude), position) else Err(BelowInt64);
    }

    method ReadBytes(size: nat) returns (r: Result<Buffer>)
      requires Valid()
      modifies this
      ensures r == (match TakeNumber(input, old(position), size)
                    case Err(error) => Err(error)
                    case Ok(length, next) => Take(input, next, length))
      ensures Valid() && (r.Ok? ==> position == r.next)
    {
      var length := NumberOf(size);
      if length.Err? { return Err(length.error); }
      r := TakeBytes(length.value);
    }

    method Scalar(tag: Byte) returns (r: Result<Value>)
      requires Valid()
      modifies this
      ensures r == DecodeScalar(input, old(position), tag) && Valid() && (r.Ok? ==> position == r.next)
    {
      if tag == SMALL_INTEGER_EXT || tag == INTEGER_EXT {
        var number := NumberOf(if tag == SMALL_INTEGER_EXT then 1 else 4);
        if number.Err? { return Err(number.error); }
        return Ok(if tag == SMALL_INTEGER_EXT then Unsigned(number.value) else Signed(Signed32(number.value)), position);
      }
      if tag == NEW_FLOAT_EXT {
        var bits := TakeBytes(8);
        return if bits.Ok? then Ok(Float(bits.value), bits.next) else Err(bits.error);
      }
      if tag == ATOM_EXT || tag == ATOM_UTF8_EXT || tag == SMALL_ATOM_EXT || tag == SMALL_ATOM_UTF8_EXT {
        var length := NumberOf(if tag == ATOM_EXT || tag == ATOM_UTF8_EXT then 2 else 1);
        r := ReadAtom(length);
        return;
      }
      if tag == NIL_EXT { return Ok(List([]), position); }
      if tag == STRING_EXT || tag == BINARY_EXT {
        var bytes := ReadBytes(if tag == STRING_EXT then 2 else 4);
        if bytes.Err? { return Err(bytes.error); }
        return Ok(if tag == STRING_EXT then List(Numbers(bytes.value)) else Binary(bytes.value), position);
      }
      if tag == SMALL_BIG_EXT || tag == LARGE_BIG_EXT {
        var length := NumberOf(if tag == SMALL_BIG_EXT then 1 else 4);
        r := ReadBig(length);
        return;
      }
      r := Err(UnknownTag);
    }

    /** The value at the position. */
    method ReadValue(depth: nat) returns (r: Result<Value>)
      requires Valid()
      modifies this
      ensures r == Decode(input, old(position), depth) && Valid() && (r.Ok? ==> position == r.next)
      decreases |input| - position, 0
    {
      if depth > MAXIMUM_NESTING { return Err(TooDeep); }
      if position == |input| { return Err(Truncated); }
      var tag := input[position];
      position := position + 1;
      if tag == SMALL_TUPLE_EXT { r := ReadTuple(depth, 1); }
      else if tag == LARGE_TUPLE_EXT { r := ReadTuple(depth, 4); }
      else if tag == LIST_EXT { r := ReadList(depth); }
      else if tag == MAP_EXT { r := ReadMap(depth); }
      else { r := Scalar(tag); }
    }

    method ReadTuple(depth: nat, size: nat) returns (r: Result<Value>)
      requires Valid()
      modifies this
      ensures r == DecodeTuple(input, old(position), depth, size) && Valid() && (r.Ok? ==> position == r.next)
      decreases |input| - position, 3
    {
      var length := NumberOf(size);
      if length.Err? { return Err(length.error); }
      if length.value > |input| - position { return Err(TooLong); }
      var values := ReadAll(length.value, depth + 1);
      r := if values.Ok? then Ok(Tuple(values.value), position) else Err(values.error);
    }

    method ReadList(depth: nat) returns (r: Result<Value>)
      requires Valid()
      modifies this
      ensures r == DecodeList(input, old(position), depth) && Valid() && (r.Ok? ==> position == r.next)
      decreases |input| - position, 3
    {
      var length := NumberOf(4);
      if length.Err? { return Err(length.error); }
      if length.value > |input| - position { return Err(TooLong); }
      var items := ReadAll(length.value, depth + 1);
      if items.Err? { return Err(items.error); }
      if position == |input| { return Err(Truncated); }
      if input[position] != NIL_EXT { return Err(ImproperList); }
      position := position + 1;
      r := Ok(List(items.value), position);
    }

    method ReadMap(depth: nat) returns (r: Result<Value>)
      requires Valid()
      modifies this
      ensures r == DecodeMap(input, old(position), depth) && Valid() && (r.Ok? ==> position == r.next)
      decreases |input| - position, 3
    {
      var length := NumberOf(4);
      if length.Err? { return Err(length.error); }
      if length.value > (|input| - position) / 2 { return Err(TooLong); }
      var entries := ReadEntries(length.value, depth + 1);
      r := if entries.Ok? then Ok(Map(entries.value), position) else Err(entries.error);
    }

    method ReadAll(length: nat, depth: nat) returns (r: Result<seq<Value>>)
      requires Valid() && length <= |input| - position
      modifies this
      ensures r == DecodeAll(input, old(position), depth, length) && Valid() && (r.Ok? ==> position == r.next)
      decreases |input| - position, 2
    {
      Reserve(length);
      var values: seq<Value> := [];
      ghost var start := position;
      BehindNothing(DecodeAll(input, start, depth, length));
      for i := 0 to length
        invariant Valid() && start <= position && (i == 0 ==> position == start)
        invariant DecodeAll(input, start, depth, length) == Behind(values, DecodeAll(input, position, depth, length - i))
      {
        var value := ReadValue(depth);
        if value.Err? { return Err(value.error); }
        BehindOne(values, value.value, DecodeAll(input, position, depth, length - i - 1));
        values := values + [value.value];
      }
      assert values + [] == values;
      r := Ok(values, position);
    }

    static lemma BehindNothing<T>(r: Result<seq<T>>)
      ensures Behind([], r) == r
    {
      if r.Ok? { assert [] + r.value == r.value; }
    }

    static lemma BehindOne<T>(done: seq<T>, one: T, r: Result<seq<T>>)
      ensures Behind(done, Behind([one], r)) == Behind(done + [one], r)
    {
      if r.Ok? { assert done + ([one] + r.value) == done + [one] + r.value; }
    }

    method ReadEntry(depth: nat) returns (r: Result<Entry>)
      requires Valid()
      modifies this
      ensures r == DecodeEntry(input, old(position), depth) && Valid() && (r.Ok? ==> position == r.next)
      decreases |input| - position, 1
    {
      var key := ReadValue(depth);
      if key.Err? { return Err(key.error); }
      var value := ReadValue(depth);
      r := if value.Ok? then Ok(Entry(key.value, value.value), position) else Err(value.error);
    }

    method ReadEntries(length: nat, depth: nat) returns (r: Result<seq<Entry>>)
      requires Valid() && length <= |input| - position
      modifies this
      ensures r == DecodeEntries(input, old(position), depth, length) && Valid() && (r.Ok? ==> position == r.next)
      decreases |input| - position, 2
    {
      Reserve(length);
      var entries: seq<Entry> := [];
      ghost var start := position;
      BehindNothing(DecodeEntries(input, start, depth, length));
      for i := 0 to length
        invariant Valid() && start <= position && (i == 0 ==> position == start)
        invariant DecodeEntries(input, start, depth, length)
                  == Behind(entries, DecodeEntries(input, position, depth, length - i))
      {
        var entry := ReadEntry(depth);
        if entry.Err? { return Err(entry.error); }
        BehindOne(entries, entry.value, DecodeEntries(input, position, depth, length - i - 1));
        entries := entries + [entry.value];
      }
      assert entries + [] == entries;
      r := Ok(entries, position);
    }
  }
}
