/** Which values become JSON, and what they become: every value that may arrive, not only those made from JSON. */
module JsonMeanings {
  import opened Bytes
  import opened Json
  import opened Options
  import opened Wire

  // -- Base64 -----------------------------------------------------------------------------------------

  /** The six bits that a character stands for. */
  function Sextet(c: Byte): nat {
    if 65 <= c <= 90 then c - 65
    else if 97 <= c <= 122 then c - 97 + 26
    else if 48 <= c <= 57 then c - 48 + 52
    else if c == 43 then 62 else 63
  }

  /** Four characters are three bytes; `=` at the end stands for nothing. */
  function Unbase64(text: Buffer): seq<nat>
    decreases |text|
  {
    if |text| < 4 then []
    else
      var bits := ((Sextet(text[0]) * 64 + Sextet(text[1])) * 64 + Sextet(text[2])) * 64 + Sextet(text[3]);
      if text[2] == 61 then [(Sextet(text[0]) * 64 + Sextet(text[1])) / 16]
      else if text[3] == 61 then
        [Sextet(text[0]) * 4 + Sextet(text[1]) / 16, ((Sextet(text[0]) * 64 + Sextet(text[1])) * 64 + Sextet(text[2])) / 4 % 256]
      else [bits / 65536, bits / 256 % 256, bits % 256] + Unbase64(text[4..])
  }

  lemma DigitIsSextet(n: nat)
    requires n < 64
    ensures Sextet(Base64Digit(n)) == n && Base64Digit(n) != 61
  {
  }

  lemma BitsOfThree(a: nat, b: nat, c: nat)
    requires a < 256 && b < 256 && c < 256
    ensures ((a / 4 * 64 + a % 4 * 16 + b / 16) * 64 + b % 16 * 4 + c / 64) * 64 + c % 64 == a * 65536 + b * 256 + c
  {
  }

  lemma BytesOfThree(a: nat, b: nat, c: nat)
    requires a < 256 && b < 256 && c < 256
    ensures var bits := a * 65536 + b * 256 + c; bits / 65536 == a && bits / 256 % 256 == b && bits % 256 == c
  {
  }

  lemma OneByteDecodes(a: Byte)
    ensures Unbase64(Base64([a])) == [a]
  {
    DigitIsSextet(a / 4);
    DigitIsSextet(a % 4 * 16);
    assert Base64([a]) == [Base64Digit(a / 4), Base64Digit(a % 4 * 16), 61, 61];
  }

  lemma BitsOfTwo(a: nat, b: nat)
    requires a < 256 && b < 256
    ensures a / 4 * 4 + (a % 4 * 16 + b / 16) / 16 == a
    ensures ((a / 4 * 64 + a % 4 * 16 + b / 16) * 64 + b % 16 * 4) / 4 % 256 == b
  {
    assert (a / 4 * 64 + a % 4 * 16 + b / 16) * 64 + b % 16 * 4 == (a * 256 + b) * 4;
  }

  lemma TwoBytesDecode(a: Byte, b: Byte)
    ensures Unbase64(Base64([a, b])) == [a, b]
  {
    DigitIsSextet(a / 4);
    DigitIsSextet(a % 4 * 16 + b / 16);
    DigitIsSextet(b % 16 * 4);
    BitsOfTwo(a, b);
    assert Base64([a, b]) == [Base64Digit(a / 4), Base64Digit(a % 4 * 16 + b / 16), Base64Digit(b % 16 * 4), 61];
  }

  lemma ThreeBytesDecode(a: Byte, b: Byte, c: Byte, rest: Buffer)
    ensures Unbase64([Base64Digit(a / 4), Base64Digit(a % 4 * 16 + b / 16), Base64Digit(b % 16 * 4 + c / 64), Base64Digit(c % 64)] + rest)
            == [a, b, c] + Unbase64(rest)
  {
    DigitIsSextet(a / 4);
    DigitIsSextet(a % 4 * 16 + b / 16);
    DigitIsSextet(b % 16 * 4 + c / 64);
    DigitIsSextet(c % 64);
    BitsOfThree(a, b, c);
    BytesOfThree(a, b, c);
    var text := [Base64Digit(a / 4), Base64Digit(a % 4 * 16 + b / 16), Base64Digit(b % 16 * 4 + c / 64), Base64Digit(c % 64)] + rest;
    assert text[4..] == rest;
  }

  lemma EncodesThreeFirst(bytes: Buffer)
    requires |bytes| >= 3
    ensures var a: nat, b: nat, c: nat := bytes[0], bytes[1], bytes[2];
            Base64(bytes)
            == [Base64Digit(a / 4), Base64Digit(a % 4 * 16 + b / 16), Base64Digit(b % 16 * 4 + c / 64), Base64Digit(c % 64)]
               + Base64(bytes[3..])
  {
  }

  /** What has been encoded can be decoded. */
  lemma {:induction false} Base64Decodes(bytes: Buffer)
    ensures Unbase64(Base64(bytes)) == bytes
    decreases |bytes|
  {
    if |bytes| == 1 {
      assert bytes == [bytes[0]];
      OneByteDecodes(bytes[0]);
    } else if |bytes| == 2 {
      assert bytes == [bytes[0], bytes[1]];
      TwoBytesDecode(bytes[0], bytes[1]);
    } else if |bytes| >= 3 {
      EncodesThreeFirst(bytes);
      Base64Decodes(bytes[3..]);
      ThreeBytesDecode(bytes[0], bytes[1], bytes[2], Base64(bytes[3..]));
      assert bytes == [bytes[0], bytes[1], bytes[2]] + bytes[3..];
    }
  }

  // -- What becomes JSON ------------------------------------------------------------------------------

  function KeyText(key: Value): Option<Buffer> {
    match key
    case Binary(bytes) => if IsUtf8(bytes) then Some(bytes) else None
    case Atom(name) => Some(name)
    case _ => None
  }

  /** Every float is finite, and the keys of every map are different texts. */
  predicate Converts(v: Value)
    decreases v
  {
    match v
    case Float(bits) => IsFinite(bits)
    case Tuple(values) => AllConvert(values)
    case List(items) => AllConvert(items)
    case Map(entries) => EntriesConvert(entries, {})
    case _ => true
  }

  predicate AllConvert(values: seq<Value>)
    decreases values
  {
    values == [] || (Converts(values[0]) && AllConvert(values[1..]))
  }

  predicate EntryConverts(entry: Entry, taken: set<Buffer>)
    decreases entry
  {
    KeyText(entry.key).Some? && KeyText(entry.key).value !in taken && Converts(entry.value)
  }

  predicate EntriesConvert(entries: seq<Entry>, taken: set<Buffer>)
    decreases entries
  {
    entries == []
    || (EntryConverts(entries[0], taken) && EntriesConvert(entries[1..], taken + {KeyText(entries[0].key).value}))
  }

  // -- What it becomes --------------------------------------------------------------------------------

  /** `json` is what a value stands for: atoms are text but for the constants, and bytes that are no text are encoded. */
  predicate Denotes(v: Value, json: Json)
    decreases v
  {
    match v
    case Null => json == JsonNull
    case Bool(truth) => json == JsonBool(truth)
    case Unsigned(n) => json == JsonNumber(Natural(n))
    case Signed(n) => json == JsonNumber(if n < 0 then Negative(n) else Natural(n))
    case Float(bits) => json == JsonNumber(Real(bits))
    case Binary(bytes) =>
      if IsUtf8(bytes) then json == JsonString(bytes)
      else
        && json.JsonObject? && |json.members| == 1 && json.members[0].key == [98, 97, 115, 101, 54, 52]
        && json.members[0].value.JsonString? && Unbase64(json.members[0].value.text) == bytes
    case Atom(name) =>
      if name == [110, 105, 108] || name == [110, 117, 108, 108] then json == JsonNull
      else if name == [116, 114, 117, 101] then json == JsonBool(true)
      else if name == [102, 97, 108, 115, 101] then json == JsonBool(false)
      else json == JsonString(name)
    case Tuple(values) => json.JsonArray? && AllDenote(values, json.elements)
    case List(items) => json.JsonArray? && AllDenote(items, json.elements)
    case Map(entries) =>
      json.JsonObject? && |json.members| == |entries| && KeysAscend(json.members) && EntriesDenote(entries, json.members)
  }

  predicate AllDenote(values: seq<Value>, elements: seq<Json>)
    decreases values
  {
    |values| == |elements|
    && (values == [] || (Denotes(values[0], elements[0]) && AllDenote(values[1..], elements[1..])))
  }

  /** Some member has the entry's key and value. */
  predicate EntryDenotes(entry: Entry, members: seq<Member>)
    decreases entry
  {
    exists j :: 0 <= j < |members| && Some(members[j].key) == KeyText(entry.key) && Denotes(entry.value, members[j].value)
  }

  predicate EntriesDenote(entries: seq<Entry>, members: seq<Member>)
    decreases entries
  {
    entries == [] || (EntryDenotes(entries[0], members) && EntriesDenote(entries[1..], members))
  }

  // -- Members in order -------------------------------------------------------------------------------

  lemma {:induction false} BeforeIsTotal(a: Buffer, b: Buffer)
    ensures Before(a, b) || a == b || Before(b, a)
  {
    if a != [] && b != [] && a[0] == b[0] {
      BeforeIsTotal(a[1..], b[1..]);
      assert a == [a[0]] + a[1..] && b == [b[0]] + b[1..];
    }
  }

  lemma {:induction false} BeforeIsTransitive(a: Buffer, b: Buffer, c: Buffer)
    requires Before(a, b) && Before(b, c)
    ensures Before(a, c)
  {
    if a != [] && a[0] == b[0] == c[0] { BeforeIsTransitive(a[1..], b[1..], c[1..]); }
  }

  function KeysOf(members: seq<Member>): set<Buffer> {
    set m | m in members :: m.key
  }

  lemma ConsAscends(first: Member, rest: seq<Member>)
    requires KeysAscend(rest) && (rest != [] ==> Before(first.key, rest[0].key))
    ensures KeysAscend([first] + rest)
  {
    var all := [first] + rest;
    forall i, j | 0 <= i < j < |all| ensures Before(all[i].key, all[j].key) {
      if i == 0 {
        if j > 1 {
          assert Before(rest[0].key, rest[j - 1].key);
          BeforeIsTransitive(first.key, rest[0].key, rest[j - 1].key);
        }
      } else {
        assert Before(rest[i - 1].key, rest[j - 1].key);
      }
    }
  }

  lemma NotAmongLater(members: seq<Member>, key: Buffer)
    requires KeysAscend(members) && members != [] && Before(key, members[0].key)
    ensures key !in KeysOf(members)
  {
    if key in KeysOf(members) {
      var m :| m in members && m.key == key;
      var j :| 0 <= j < |members| && members[j] == m;
      if j > 0 {
        assert Before(members[0].key, members[j].key);
        BeforeIsTransitive(key, members[0].key, key);
      }
      BeforeIsStrict(key, key);
    }
  }

  lemma {:induction false} InsertKeepsOrder(members: seq<Member>, member: Member)
    requires KeysAscend(members)
    ensures Insert(members, member).Done? <==> member.key !in KeysOf(members)
    ensures Insert(members, member).Done? ==>
              var more := Insert(members, member).result;
              && KeysAscend(more) && |more| == |members| + 1
              && (forall m :: m in more <==> m in members || m == member)
              && (more[0] == member || (members != [] && more[0] == members[0]))
  {
    if members == [] {
    } else if Before(member.key, members[0].key) {
      NotAmongLater(members, member.key);
      ConsAscends(member, members);
    } else if member.key != members[0].key {
      BeforeIsTotal(member.key, members[0].key);
      var rest := members[1..];
      assert members == [members[0]] + rest;
      assert KeysAscend(rest) by { forall i, j | 0 <= i < j < |rest| ensures Before(rest[i].key, rest[j].key) { assert Before(members[i + 1].key, members[j + 1].key); } }
      InsertKeepsOrder(rest, member);
      if Insert(rest, member).Done? {
        if rest != [] { assert Before(members[0].key, members[1].key); }
        ConsAscends(members[0], Insert(rest, member).result);
      }
      assert KeysOf(members) == {members[0].key} + KeysOf(rest);
    }
  }

  // -- The conversion ---------------------------------------------------------------------------------

  lemma KeyIsText(key: Value)
    ensures IntoKey(key).Done? <==> KeyText(key).Some?
    ensures IntoKey(key).Done? ==> KeyText(key) == Some(IntoKey(key).result)
  {
  }

  lemma BinaryDenotes(bytes: Buffer)
    ensures Denotes(Binary(bytes), BinaryJson(bytes))
  {
    Base64Decodes(bytes);
  }

  /** A value becomes JSON exactly if its floats are finite and its keys are texts that differ, and then what it stands for. */
  lemma {:induction false} JsonIsMeant(v: Value)
    ensures IntoJson(v).Done? <==> Converts(v)
    ensures IntoJson(v).Done? ==> Denotes(v, IntoJson(v).result)
    decreases v
  {
    match v
    case Binary(bytes) => BinaryDenotes(bytes);
    case Tuple(values) => AllAreMeant(values);
    case List(items) => AllAreMeant(items);
    case Map(entries) =>
      MembersAreMeant(entries, []);
      assert KeysOf([]) == {};
    case _ =>
  }

  lemma {:induction false} AllAreMeant(values: seq<Value>)
    ensures IntoAll(values).Done? <==> AllConvert(values)
    ensures IntoAll(values).Done? ==> AllDenote(values, IntoAll(values).result)
    decreases values
  {
    if values != [] {
      JsonIsMeant(values[0]);
      AllAreMeant(values[1..]);
    }
  }

  lemma {:induction false} MemberIsMeant(entry: Entry)
    ensures IntoMember(entry).Done? <==> KeyText(entry.key).Some? && Converts(entry.value)
    ensures IntoMember(entry).Done? ==>
              var member := IntoMember(entry).result;
              KeyText(entry.key) == Some(member.key) && Denotes(entry.value, member.value)
    decreases entry
  {
    KeyIsText(entry.key);
    JsonIsMeant(entry.value);
  }

  lemma {:induction false} MembersAreMeant(entries: seq<Entry>, inserted: seq<Member>)
    requires KeysAscend(inserted)
    ensures IntoMembers(entries, inserted).Done? <==> EntriesConvert(entries, KeysOf(inserted))
    ensures IntoMembers(entries, inserted).Done? ==>
              var members := IntoMembers(entries, inserted).result;
              && KeysAscend(members) && |members| == |inserted| + |entries|
              && (forall m :: m in inserted ==> m in members) && EntriesDenote(entries, members)
    decreases entries
  {
    if entries != [] {
      MemberIsMeant(entries[0]);
      if IntoMember(entries[0]).Done? {
        var member := IntoMember(entries[0]).result;
        InsertKeepsOrder(inserted, member);
        if Insert(inserted, member).Done? {
          var more := Insert(inserted, member).result;
          assert KeysOf(more) == KeysOf(inserted) + {member.key};
          MembersAreMeant(entries[1..], more);
          if IntoMembers(entries, inserted).Done? {
            MemberIsAmong(entries[0], member, IntoMembers(entries, inserted).result);
          }
        }
      }
    }
  }

  lemma MemberIsAmong(entry: Entry, member: Member, members: seq<Member>)
    requires member in members && KeyText(entry.key) == Some(member.key) && Denotes(entry.value, member.value)
    ensures EntryDenotes(entry, members)
  {
    var j :| 0 <= j < |members| && members[j] == member;
  }
}
