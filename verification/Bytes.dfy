/** Bytes as small numbers, their bits, validity bitmaps, and little-endian 32-bit integers. */
module Bytes {
  import opened Words

  type Byte = b: nat | b < 256
  type Buffer = seq<Byte>

  // -- Bits -------------------------------------------------------------------------------------------

  /** Bit `k` of a number: what `number & (1 << k)` tests. */
  predicate BitOf(number: nat, k: nat) {
    if k == 0 then number % 2 == 1 else BitOf(number / 2, k - 1)
  }

  /** `number | (1 << k)`. */
  function WithBit(number: nat, k: nat): nat {
    if k == 0 then (if number % 2 == 1 then number else number + 1)
    else 2 * WithBit(number / 2, k - 1) + number % 2
  }

  lemma {:induction false} WithBitFits(number: nat, k: nat, n: nat)
    requires number < PowerOf2(n) && k < n
    ensures WithBit(number, k) < PowerOf2(n)
  {
    if k > 0 { WithBitFits(number / 2, k - 1, n - 1); }
  }

  lemma {:induction false} WithBitSetsOne(number: nat, k: nat, j: nat)
    ensures BitOf(WithBit(number, k), j) <==> j == k || BitOf(number, j)
  {
    if k > 0 && j > 0 { WithBitSetsOne(number / 2, k - 1, j - 1); }
  }

  lemma {:induction false} NoBitIsSet(k: nat)
    ensures !BitOf(0, k)
  {
    if k > 0 { NoBitIsSet(k - 1); }
  }

  function SetBit(byte: Byte, k: nat): Byte
    requires k < 8
  {
    assert PowerOf2(8) == 256 by { assert PowerOf2(4) == 16; }
    WithBitFits(byte, k, 8);
    WithBit(byte, k)
  }

  /** Bit `i` of a bitmap: `bitmap[i / 8] & (1 << (i % 8))`. */
  predicate Bit(bitmap: Buffer, i: nat)
    requires i / 8 < |bitmap|
  {
    BitOf(bitmap[i / 8], i % 8)
  }

  function BitmapSize(count: nat): nat {
    (count + 7) / 8
  }

  // -- Bitmaps ----------------------------------------------------------------------------------------

  /** The number whose low `n` bits are `bits[at..at + n]`, with clear bits past the end. */
  function Packed(bits: seq<bool>, at: nat, n: nat): (number: nat)
    ensures number < PowerOf2(n)
    decreases n
  {
    if n == 0 then 0 else (if at < |bits| && bits[at] then 1 else 0) + 2 * Packed(bits, at + 1, n - 1)
  }

  lemma {:induction false} PackedBit(bits: seq<bool>, at: nat, n: nat, k: nat)
    requires k < n
    ensures BitOf(Packed(bits, at, n), k) <==> at + k < |bits| && bits[at + k]
    decreases n
  {
    var rest := Packed(bits, at + 1, n - 1);
    assert Packed(bits, at, n) / 2 == rest;
    if k > 0 { PackedBit(bits, at + 1, n - 1, k - 1); }
  }

  lemma {:induction false} PackedOneMore(bits: seq<bool>, bit: bool, at: nat, n: nat)
    ensures Packed(bits + [bit], at, n)
            == if bit && at <= |bits| < at + n then WithBit(Packed(bits, at, n), |bits| - at) else Packed(bits, at, n)
    decreases n
  {
    if n > 0 {
      PackedOneMore(bits, bit, at + 1, n - 1);
      assert Packed(bits, at, n) / 2 == Packed(bits, at + 1, n - 1);
    }
  }

  /** Bits from the least significant of the first byte on, in `size` bytes. */
  function Pack(bits: seq<bool>, size: nat): (bitmap: Buffer)
    ensures |bitmap| == size
  {
    seq(size, i requires 0 <= i < size => PackByte(bits, i))
  }

  function PackByte(bits: seq<bool>, i: nat): Byte {
    assert PowerOf2(8) == 256 by { assert PowerOf2(4) == 16; }
    Packed(bits, 8 * i, 8)
  }

  function Unpack(bitmap: Buffer, count: nat): (bits: seq<bool>)
    requires BitmapSize(count) <= |bitmap|
    ensures |bits| == count
  {
    seq(count, i requires 0 <= i < count => Bit(bitmap, i))
  }

  lemma PackKeepsBits(bits: seq<bool>, size: nat, i: nat)
    requires i < 8 * size
    ensures Bit(Pack(bits, size), i) <==> i < |bits| && bits[i]
  {
    PackedBit(bits, 8 * (i / 8), 8, i % 8);
  }

  /** Setting one bit in place is appending one bit to the packed list. */
  lemma PackOneMore(bits: seq<bool>, bit: bool, size: nat)
    requires |bits| < 8 * size
    ensures var n := |bits|;
            Pack(bits + [bit], size)
            == if bit then Pack(bits, size)[n / 8 := SetBit(Pack(bits, size)[n / 8], n % 8)] else Pack(bits, size)
  {
    forall i | 0 <= i < size
      ensures PackByte(bits + [bit], i)
              == if bit && i == |bits| / 8 then SetBit(PackByte(bits, i), |bits| % 8) else PackByte(bits, i)
    {
      ByteOneMore(bits, bit, i);
    }
  }

  lemma ByteOneMore(bits: seq<bool>, bit: bool, i: nat)
    ensures PackByte(bits + [bit], i)
            == if bit && i == |bits| / 8 then SetBit(PackByte(bits, i), |bits| % 8) else PackByte(bits, i)
  {
    PackedOneMore(bits, bit, 8 * i, 8);
  }

  // -- Integers ---------------------------------------------------------------------------------------

  function ReadU32(bytes: Buffer, at: nat): (n: nat)
    requires at + 4 <= |bytes|
    ensures n < UINT32
  {
    var a: nat, b: nat, c: nat, d: nat := bytes[at], bytes[at + 1], bytes[at + 2], bytes[at + 3];
    a + 0x100 * b + 0x1_0000 * c + 0x100_0000 * d
  }

  function U32Bytes(n: nat): (bytes: Buffer)
    requires n < UINT32
    ensures |bytes| == 4
  {
    [n % 0x100, n / 0x100 % 0x100, n / 0x1_0000 % 0x100, n / 0x100_0000]
  }

  lemma Digits(n: nat)
    ensures n == n % 0x100 + 0x100 * (n / 0x100 % 0x100) + 0x1_0000 * (n / 0x1_0000 % 0x100) + 0x100_0000 * (n / 0x100_0000)
  {
    var a := n / 0x100;
    var b := a / 0x100;
    assert n / 0x1_0000 == b && n / 0x100_0000 == b / 0x100;
  }

  lemma U32RoundTrip(n: nat, before: Buffer, after: Buffer)
    requires n < UINT32
    ensures ReadU32(before + U32Bytes(n) + after, |before|) == n
  {
    var all := before + U32Bytes(n) + after;
    assert all[|before|] == U32Bytes(n)[0] && all[|before| + 1] == U32Bytes(n)[1];
    assert all[|before| + 2] == U32Bytes(n)[2] && all[|before| + 3] == U32Bytes(n)[3];
    Digits(n);
  }

  // -- Parts of a buffer ------------------------------------------------------------------------------

  predicate ByteHeld(data: Buffer, start: nat, part: Buffer, i: nat)
    requires i < |part| && start + i < |data|
  {
    data[start + i] == part[i]
  }

  /** `part` is in `data` at `start`. */
  ghost predicate Holds(data: Buffer, start: nat, part: Buffer) {
    start + |part| <= |data| && forall i :: 0 <= i < |part| ==> ByteHeld(data, start, part, i)
  }

  lemma HoldsBehind(front: Buffer, data: Buffer, start: nat, part: Buffer)
    requires Holds(data, start, part)
    ensures Holds(front + data, |front| + start, part)
  {
    var all, at := front + data, |front| + start;
    forall i | 0 <= i < |part| ensures ByteHeld(all, at, part, i) { assert ByteHeld(data, start, part, i); }
  }

  lemma HoldsInFront(data: Buffer, back: Buffer, start: nat, part: Buffer)
    requires Holds(data, start, part)
    ensures Holds(data + back, start, part)
  {
    forall i | 0 <= i < |part| ensures ByteHeld(data + back, start, part, i) {
      assert ByteHeld(data, start, part, i);
    }
  }

  lemma HoldsBetween(front: Buffer, part: Buffer, back: Buffer)
    ensures Holds(front + part, |front|, part) && Holds(part + back, 0, part)
  {
    forall i | 0 <= i < |part| ensures ByteHeld(front + part, |front|, part, i) && ByteHeld(part + back, 0, part, i) {
    }
  }

  lemma HeldSlice(data: Buffer, start: nat, end: nat, part: Buffer)
    requires Holds(data, start, part) && end == start + |part|
    ensures end <= |data| && data[start..end] == part
  {
    forall i | 0 <= i < |part| ensures data[start..end][i] == part[i] { assert ByteHeld(data, start, part, i); }
  }

  lemma HoldsParts(data: Buffer, at: nat, part: Buffer, more: Buffer)
    requires Holds(data, at, part + more)
    ensures Holds(data, at, part) && Holds(data, at + |part|, more)
  {
    forall i | 0 <= i < |part| ensures ByteHeld(data, at, part, i) { assert ByteHeld(data, at, part + more, i); }
    var start := at + |part|;
    forall i | 0 <= i < |more| ensures ByteHeld(data, start, more, i) {
      assert ByteHeld(data, at, part + more, |part| + i);
    }
  }
}
