/** Counting the values of a column by the set bits of its validity bitmap, a byte at a time. */
module BitCounts {
  import opened Bytes
  import opened Blocks

  /** `a & b`. */
  function And(a: nat, b: nat): nat {
    if a == 0 || b == 0 then 0 else Both(a % 2, b % 2) + 2 * And(a / 2, b / 2)
  }

  function Both(p: nat, q: nat): nat {
    if p == 1 && q == 1 then 1 else 0
  }

  /** The set bits of a byte, by adding neighbouring groups of one, two and four bits in place. */
  function PopCount(byte: Byte): nat {
    Folded(byte - And(byte / 2, 0x55))
  }

  /** The last two folds, of a byte that holds four two-bit counts. */
  function Folded(pairs: int): nat {
    if pairs < 0 then 0
    else
      var nibbles := And(pairs, 0x33) + And(pairs / 4, 0x33);
      And(nibbles + nibbles / 16, 0x0F)
  }

  /** How many of the lowest `n` bits are set. */
  function Ones(number: nat, n: nat): nat {
    if n == 0 then 0 else number % 2 + Ones(number / 2, n - 1)
  }

  // -- One bit and the rest ---------------------------------------------------------------------------

  lemma AndBit(p: nat, x: nat, q: nat, y: nat)
    requires p < 2 && q < 2
    ensures And(p + 2 * x, q + 2 * y) == Both(p, q) + 2 * And(x, y)
  {
    var a, b := p + 2 * x, q + 2 * y;
    assert a / 2 == x && a % 2 == p && b / 2 == y && b % 2 == q;
  }

  lemma {:induction false} AndAtMost(a: nat, b: nat)
    ensures And(a, b) <= a
  {
    if a != 0 && b != 0 { AndAtMost(a / 2, b / 2); }
  }

  lemma KeepTwo(p: nat, q: nat, x: nat, y: nat)
    requires p < 2 && q < 2
    ensures And(p + 2 * q + 4 * x, 3 + 4 * y) == p + 2 * q + 4 * And(x, y)
  {
    AndBit(p, q + 2 * x, 1, 1 + 2 * y);
    AndBit(q, x, 1, y);
  }

  lemma DropTwo(r: nat, s: nat, x: nat, y: nat)
    requires r < 2 && s < 2
    ensures And(r + 2 * s + 4 * x, 4 * y) == 4 * And(x, y)
  {
    AndBit(r, s + 2 * x, 0, 2 * y);
    AndBit(s, x, 0, y);
  }

  /** Every second bit, from the lowest on. */
  lemma AndFive(p: nat, q: nat, x: nat, y: nat)
    requires p < 2 && q < 2
    ensures And(p + 2 * q + 4 * x, 1 + 4 * y) == p + 4 * And(x, y)
  {
    AndBit(p, q + 2 * x, 1, 2 * y);
    AndBit(q, x, 0, y);
  }

  lemma AndOne(p: nat)
    requires p < 2
    ensures And(p, 1) == p
  {
    AndBit(p, 0, 1, 0);
  }

  // -- Folding ----------------------------------------------------------------------------------------

  lemma FirstFold(b: nat, c: nat, d: nat, e: nat, f: nat, g: nat, h: nat)
    requires b < 2 && c < 2 && d < 2 && e < 2 && f < 2 && g < 2 && h < 2
    ensures And(b + 2 * c + 4 * d + 8 * e + 16 * f + 32 * g + 64 * h, 0x55) == b + 4 * d + 16 * f + 64 * h
  {
    var high := f + 2 * g + 4 * h;
    var middle := d + 2 * e + 4 * high;
    AndFive(b, c, middle, 0x15);
    AndFive(d, e, high, 5);
    AndFive(f, g, h, 1);
    AndOne(h);
  }

  /** A count of at most two in two bits. */
  function Low(count: nat): nat {
    if count == 1 then 1 else 0
  }

  function High(count: nat): nat {
    if count == 2 then 1 else 0
  }

  lemma SecondFold(w: nat, x: nat, y: nat, z: nat)
    requires w <= 2 && x <= 2 && y <= 2 && z <= 2
    ensures And(w + 4 * x + 16 * y + 64 * z, 0x33) == w + 16 * y
    ensures And(x + 4 * y + 16 * z, 0x33) == x + 16 * z
  {
    AndPair(w, x, y + 4 * z, 3);
    AndPair(y, z, 0, 0);
    AndPair(x, y, z, 3);
    AndPair(z, 0, 0, 0);
  }

  lemma AndPair(w: nat, x: nat, rest: nat, y: nat)
    requires w <= 2 && x <= 2
    ensures And(w + 4 * x + 16 * rest, 3 + 16 * y) == w + 16 * And(rest, y)
  {
    KeepTwo(Low(w), High(w), x + 4 * rest, 4 * y);
    DropTwo(Low(x), High(x), rest, y);
  }

  lemma KeepFour(p: nat, q: nat, r: nat, s: nat, x: nat)
    requires p < 2 && q < 2 && r < 2 && s < 2
    ensures And(p + 2 * q + 4 * r + 8 * s + 16 * x, 15) == p + 2 * q + 4 * r + 8 * s
  {
    KeepTwo(p, q, r + 2 * s + 4 * x, 3);
    KeepTwo(r, s, x, 0);
  }

  lemma ThirdFold(low: nat, high: nat)
    requires low < 16
    ensures And(low + 16 * high, 0x0F) == low
  {
    var p, q, r, s := low % 2, low / 2 % 2, low / 4 % 2, low / 8;
    assert low == p + 2 * q + 4 * r + 8 * s;
    KeepFour(p, q, r, s, high);
  }

  lemma LastFold(pairs: nat, low: nat, high: nat)
    requires And(pairs, 0x33) + And(pairs / 4, 0x33) == low + 16 * high && low + high < 16
    ensures Folded(pairs) == low + high
  {
    var nibbles := low + 16 * high;
    assert nibbles / 16 == high && nibbles + high == (low + high) + 16 * high;
    ThirdFold(low + high, high);
  }

  lemma FoldsAdd(w: nat, x: nat, y: nat, z: nat)
    requires w <= 2 && x <= 2 && y <= 2 && z <= 2
    ensures Folded(w + 4 * x + 16 * y + 64 * z) == w + x + y + z
  {
    var pairs: nat := w + 4 * x + 16 * y + 64 * z;
    SecondFold(w, x, y, z);
    assert pairs / 4 == x + 4 * y + 16 * z;
    LastFold(pairs, w + x, y + z);
  }

  lemma OnesOfBits(a: nat, x: nat, n: nat)
    requires a < 2
    ensures Ones(a + 2 * x, n + 1) == a + Ones(x, n)
  {
    assert (a + 2 * x) % 2 == a && (a + 2 * x) / 2 == x;
  }

  lemma TwoOnes(number: nat, n: nat)
    ensures Ones(number, n + 2) == number % 2 + number / 2 % 2 + Ones(number / 2 / 2, n)
  {
    assert Ones(number, n + 2) == number % 2 + Ones(number / 2, n + 1);
  }

  /** The four counts of two bits each that the first fold leaves. */
  lemma FirstPairs(a: nat, b: nat, c: nat, d: nat, e: nat, f: nat, g: nat, h: nat, byte: nat)
    requires a < 2 && b < 2 && c < 2 && d < 2 && e < 2 && f < 2 && g < 2 && h < 2
    requires byte == a + 2 * b + 4 * c + 8 * d + 16 * e + 32 * f + 64 * g + 128 * h
    ensures byte - And(byte / 2, 0x55) == (a + b) + 4 * (c + d) + 16 * (e + f) + 64 * (g + h)
  {
    var half := b + 2 * c + 4 * d + 8 * e + 16 * f + 32 * g + 64 * h;
    assert byte / 2 == half;
    FirstFold(b, c, d, e, f, g, h);
  }

  lemma PopCountOfBits(a: nat, b: nat, c: nat, d: nat, e: nat, f: nat, g: nat, h: nat, byte: Byte)
    requires a < 2 && b < 2 && c < 2 && d < 2 && e < 2 && f < 2 && g < 2 && h < 2
    requires byte == a + 2 * b + 4 * c + 8 * d + 16 * e + 32 * f + 64 * g + 128 * h
    ensures PopCount(byte) == a + b + c + d + e + f + g + h
  {
    var w, x, y, z := a + b, c + d, e + f, g + h;
    FirstPairs(a, b, c, d, e, f, g, h, byte);
    FoldsAdd(w, x, y, z);
  }

  lemma FourOnes(number: nat, n: nat)
    ensures var x1, x2, x3 := number / 2, number / 2 / 2, number / 2 / 2 / 2;
            Ones(number, n + 4) == number % 2 + x1 % 2 + x2 % 2 + x3 % 2 + Ones(x3 / 2, n)
  {
    TwoOnes(number, n + 2);
    TwoOnes(number / 2 / 2, n);
  }

  /** The folds count the set bits of every byte. */
  lemma PopCountIsOnes(byte: Byte)
    ensures PopCount(byte) == Ones(byte, 8)
  {
    var x1: nat := byte / 2;
    var x2: nat := x1 / 2;
    var x3: nat := x2 / 2;
    var x4: nat := x3 / 2;
    var x5: nat := x4 / 2;
    var x6: nat := x5 / 2;
    var x7: nat := x6 / 2;
    FourOnes(byte, 4);
    FourOnes(x4, 0);
    PopCountOfBits(byte % 2, x1 % 2, x2 % 2, x3 % 2, x4 % 2, x5 % 2, x6 % 2, x7, byte);
  }

  // -- Bitmaps ----------------------------------------------------------------------------------------

  /** `(1 << n) - 1`. */
  function Mask(n: nat): nat {
    if n == 0 then 0 else 1 + 2 * Mask(n - 1)
  }

  /** The set bits of the first `n` rows, a byte at a time; of the last byte only the bits that belong to rows. */
  function ValidBits(bitmap: Buffer, n: nat): nat
    requires BitmapSize(n) <= |bitmap|
  {
    if n == 0 then 0
    else
      var bits := if n < 8 then n else 8;
      AndAtMost(bitmap[0], Mask(bits));
      PopCount(And(bitmap[0], Mask(bits))) + ValidBits(bitmap[1..], n - bits)
  }

  function ValidCount(batch: Batch, field: nat): nat
    requires HasColumn(batch, field)
  {
    ValidBits(batch.validity[field], batch.count)
  }

  /** The rows before `n` in which a field reads as something. */
  function Readable(batch: Batch, field: nat, n: nat): nat
    requires HasColumn(batch, field) && n <= batch.count
  {
    if n == 0 then 0 else Readable(batch, field, n - 1) + if Value(batch, field, n - 1) == Absent then 0 else 1
  }

  function SetBits(bitmap: Buffer, n: nat): nat
    requires BitmapSize(n) <= |bitmap|
  {
    if n == 0 then 0 else SetBits(bitmap, n - 1) + if Bit(bitmap, n - 1) then 1 else 0
  }

  lemma {:induction false} MaskedOnes(number: nat, n: nat, m: nat)
    requires n <= m
    ensures Ones(And(number, Mask(n)), m) == Ones(number, n)
  {
    if m > 0 {
      if n == 0 {
        MaskedOnes(0, 0, m - 1);
      } else {
        var low, rest := number % 2, number / 2;
        AndBit(low, rest, 1, Mask(n - 1));
        MaskedOnes(rest, n - 1, m - 1);
        OnesOfBits(low, And(rest, Mask(n - 1)), m - 1);
        assert low + 2 * rest == number && Both(low, 1) == low;
      }
    }
  }

  lemma {:induction false} OnesOneMore(number: nat, n: nat)
    ensures Ones(number, n + 1) == Ones(number, n) + if BitOf(number, n) then 1 else 0
  {
    if n > 0 { OnesOneMore(number / 2, n - 1); }
  }

  lemma {:induction false} FirstByte(bitmap: Buffer, n: nat)
    requires n <= 8 && BitmapSize(n) <= |bitmap| && bitmap != []
    ensures SetBits(bitmap, n) == Ones(bitmap[0], n)
  {
    if n > 0 {
      FirstByte(bitmap, n - 1);
      OnesOneMore(bitmap[0], n - 1);
    }
  }

  lemma {:induction false} BytesAdd(bitmap: Buffer, n: nat)
    requires n >= 8 && BitmapSize(n) <= |bitmap|
    ensures SetBits(bitmap, n) == SetBits(bitmap, 8) + SetBits(bitmap[1..], n - 8)
  {
    if n > 8 {
      BytesAdd(bitmap, n - 1);
      assert Bit(bitmap[1..], n - 9) == Bit(bitmap, n - 1);
    }
  }

  lemma {:induction false} ValidBitsAreSetBits(bitmap: Buffer, n: nat)
    requires BitmapSize(n) <= |bitmap|
    ensures ValidBits(bitmap, n) == SetBits(bitmap, n)
  {
    if n > 0 {
      var bits := if n < 8 then n else 8;
      AndAtMost(bitmap[0], Mask(bits));
      PopCountIsOnes(And(bitmap[0], Mask(bits)));
      MaskedOnes(bitmap[0], bits, 8);
      FirstByte(bitmap, bits);
      if n >= 8 {
        BytesAdd(bitmap, n);
        ValidBitsAreSetBits(bitmap[1..], n - 8);
      }
    }
  }

  lemma {:induction false} SetBitsAreReadable(batch: Batch, field: nat, n: nat)
    requires HasColumn(batch, field) && n <= batch.count
    ensures SetBits(batch.validity[field], n) == Readable(batch, field, n)
  {
    if n > 0 { SetBitsAreReadable(batch, field, n - 1); }
  }

  /** The count by bytes is the number of rows in which the field has a value. */
  lemma ValidCountIsReadable(batch: Batch, field: nat)
    requires HasColumn(batch, field)
    ensures ValidCount(batch, field) == Readable(batch, field, batch.count)
  {
    ValidBitsAreSetBits(batch.validity[field], batch.count);
    SetBitsAreReadable(batch, field, batch.count);
  }
}
