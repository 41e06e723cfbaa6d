/**
 BrowserBitStorage: one field of a packed array is read or replaced, in Java's int and long arithmetic, for
 every argument.
 */
module BitStorage {
  import opened Common
  import opened Bits
  import opened BitFields
  import opened PackedStorage

  /** A Java int with its sign. Values read and written are unsigned patterns. */
  type JavaInt = x: int | -0x8000_0000 <= x < 0x8000_0000

  function Wrap32(v: int): JavaInt {
    (v + 0x8000_0000) % 0x1_0000_0000 - 0x8000_0000
  }

  // ------------------------------------------------- Java's arithmetic

  /** Division rounds towards zero. */
  function Quotient(a: int, b: int): int
    requires b != 0
  {
    var q := (if a < 0 then -a else a) / (if b < 0 then -b else b);
    if (a < 0) == (b < 0) then q else -q
  }

  function CellOf(index: JavaInt, valuesPerLong: JavaInt): JavaInt
    requires valuesPerLong != 0
  {
    Wrap32(Quotient(index, valuesPerLong))
  }

  /** A shift of a long counts modulo 64. */
  function ShiftOf(index: JavaInt, valuesPerLong: JavaInt, bits: JavaInt): nat
    requires valuesPerLong != 0
  {
    Wrap32(Wrap32(index - Wrap32(CellOf(index, valuesPerLong) * valuesPerLong)) * bits) % 64
  }

  function WidthOf(bits: JavaInt): nat {
    bits % 64
  }

  /** Java's >> on a long. */
  function ShiftRightSigned(w: Long, k: nat): nat
    requires k < 64
  {
    if w < 0x8000_0000_0000_0000 then Shr(w, k) else Shr(w, k) + Shl(Ones(k), 64 - k)
  }

  /** Java's << on a long. */
  function ShiftLeft(v: nat, k: nat): Long {
    Shl(v, k) % 0x1_0000_0000_0000_0000
  }

  /** The sign extension of an int to a long. */
  function Extend(v: Int): Long {
    if v < 0x8000_0000 then v else v + 0xffff_ffff_0000_0000
  }

  // --------------------------------------------- what the fields mean

  /** A long as a two's complement number of 128 digits. */
  function Wide(w: Long): nat {
    if w < 0x8000_0000_0000_0000 then w else 0xffff_ffff_ffff_ffff_0000_0000_0000_0000 + w
  }

  /** How a call ends: the division by zero, an index outside the array, or a value. */
  datatype Access = ByZero | Fault | Read(value: Int)

  /** A field that reaches past the top of its long reads copies of the sign. */
  function ReadAt(packed: seq<Long>, index: JavaInt, valuesPerLong: JavaInt, bits: JavaInt): Access {
    if valuesPerLong == 0 then ByZero
    else if !(0 <= CellOf(index, valuesPerLong) < |packed|) then Fault
    else
      var w := packed[CellOf(index, valuesPerLong)];
      Read(Field(Wide(w), ShiftOf(index, valuesPerLong, bits), WidthOf(bits)) % 0x1_0000_0000)
  }

  /** A field that would reach past the top of its long is cut off there. */
  function Written(w: Long, shift: nat, width: nat, value: Int): Long
    requires shift < 64
  {
    var room := Min(width, 64 - shift);
    LongIs64Bits();
    LowBound(Extend(value), room);
    WithFieldBound(w, shift, room, Low(Extend(value), room), 64);
    WithField(w, shift, room, Low(Extend(value), room))
  }

  function SetAt(packed: seq<Long>, index: JavaInt, value: Int, valuesPerLong: JavaInt, bits: JavaInt): seq<Long> {
    if valuesPerLong == 0 || !(0 <= CellOf(index, valuesPerLong) < |packed|) then packed
    else
      var cell := CellOf(index, valuesPerLong);
      packed[cell := Written(packed[cell], ShiftOf(index, valuesPerLong, bits), WidthOf(bits), value)]
  }

  // ------------------------------------------ the operations agree with it

  /** Digits filled in from the top do not reach a field that fits into n digits. */
  lemma FillStaysAbove(w: nat, o: nat, bits: nat, n: nat)
    requires w < Pow2(n) && o + bits <= n
    ensures Low(Shr(w, o) + Shl(Ones(o), n - o), bits) == Field(w, o, bits)
  {
    ShrBound(w, o, n - o);
    Decompose(Ones(o), Shr(w, o), n - o);
    LowLow(Shl(Ones(o), n - o) + Shr(w, o), n - o, bits);
  }

  /** The digits that the arithmetic shift fills in are masked away. */
  lemma SignedShiftMasked(w: Long, o: nat, bits: nat)
    requires o + bits <= 64 && o < 64
    ensures And(ShiftRightSigned(w, o), Ones(bits)) == Field(w, o, bits)
  {
    LongIs64Bits();
    AndOnes(ShiftRightSigned(w, o), bits);
    FillStaysAbove(w, o, bits, 64);
  }

  lemma ExtendMasked(v: Int, bits: nat)
    requires bits <= 32
    ensures And(Extend(v), Ones(bits)) == Low(v, bits)
  {
    LongIs64Bits();
    AndOnes(Extend(v), bits);
    ShlIsProduct(0xffff_ffff, 32);
    Decompose(0xffff_ffff, v, 32);
    LowLow(Extend(v), 32, bits);
    LowSmall(v, 32);
  }

  lemma {:induction false} ShlIsProduct(a: nat, k: nat)
    ensures Shl(a, k) == Pow2(k) * a
    decreases k
  {
    if k != 0 {
      ShlIsProduct(a, k - 1);
      assert 2 * (Pow2(k - 1) * a) == 2 * Pow2(k - 1) * a;
    }
  }

  lemma {:induction false} ShlShl(a: nat, j: nat, k: nat)
    ensures Shl(Shl(a, j), k) == Shl(a, j + k)
    decreases k
  {
    if k != 0 { ShlShl(a, j, k - 1); }
  }

  /** Digits above k stay above when a number is shifted right by less. */
  lemma ShrAbove(h: nat, l: nat, s: nat, m: nat)
    requires l < Pow2(s + m)
    ensures Shr(Shl(h, s + m) + l, s) == Shl(h, m) + Shr(l, s)
  {
    Recompose(l, s);
    LowBound(l, s);
    ShlShl(h, m, s);
    ShlDistributes(Shl(h, m), Shr(l, s), s);
    Decompose(Shl(h, m) + Shr(l, s), Low(l, s), s);
  }

  /** The arithmetic shift reads the wide number. */
  lemma WideField(w: Long, s: nat, b: nat)
    requires s < 64 && b < 64
    ensures And(ShiftRightSigned(w, s), Ones(b)) == Field(Wide(w), s, b)
  {
    AndOnes(ShiftRightSigned(w, s), b);
    if w >= 0x8000_0000_0000_0000 {
      LongIs64Bits();
      ShlIsProduct(Ones(64), 64);
      NegativeField(w, s, 64 - s, 64, b);
    }
  }

  lemma NegativeField(w: nat, s: nat, m: nat, n: nat, b: nat)
    requires s + m == n && w < Pow2(n) && b <= n
    ensures Low(Shr(w, s) + Shl(Ones(s), m), b) == Low(Shr(Shl(Ones(n), n) + w, s), b)
  {
    var low := Shl(Ones(s), m) + Shr(w, s);
    ShiftedOnes(w, s, m, n);
    ShrBound(w, s, m);
    Bounded(Ones(s), Shr(w, s), s, m);
    Decompose(Ones(m), low, n);
    LowLow(Shl(Ones(m), n) + low, n, b);
  }

  lemma ShiftedOnes(w: nat, s: nat, m: nat, n: nat)
    requires s + m == n && w < Pow2(n)
    ensures Shr(Shl(Ones(n), n) + w, s) == Shl(Ones(m), n) + (Shl(Ones(s), m) + Shr(w, s))
  {
    ShrAbove(Ones(n), w, s, m);
    ShlOnes(m, s);
    ShlDistributes(Shl(Ones(m), s), Ones(s), m);
    ShlShl(Ones(m), s, m);
  }

  lemma {:induction false} LowOfShl(v: nat, s: nat, m: nat)
    ensures Low(Shl(v, s), s + m) == Shl(Low(v, m), s)
    decreases s
  {
    if s != 0 {
      Digit(0, Shl(v, s - 1));
      LowOfShl(v, s - 1, m);
    }
  }

  lemma {:induction false} LowOfOnes(b: nat, m: nat)
    ensures Low(Ones(b), m) == Ones(Min(b, m))
    decreases m
  {
    if m != 0 && b != 0 {
      Digit(1, Ones(b - 1));
      LowOfOnes(b - 1, m - 1);
    } else if b == 0 {
      LowSmall(0, m);
    }
  }

  lemma LowTwice(v: nat, b: nat, m: nat)
    ensures Low(Low(v, b), m) == Low(v, Min(b, m))
  {
    if m <= b {
      LowLow(v, b, m);
    } else {
      LowBound(v, b);
      PowGrows(b, m);
      LowSmall(Low(v, b), m);
    }
  }

  /** The word that getAndSet stores. */
  function Stored(word: Long, s: nat, b: nat, value: Int): nat
    requires ShiftLeft(Ones(b), s) <= Ones(64)
  {
    Or(And(word, Ones(64) - ShiftLeft(Ones(b), s)), ShiftLeft(And(Extend(value), Ones(b)), s))
  }

  lemma StoredIsWritten(word: Long, s: nat, b: nat, value: Int)
    requires s < 64
    ensures ShiftLeft(Ones(b), s) <= Ones(64)
    ensures Stored(word, s, b, value) == Written(word, s, b, value)
  {
    LongIs64Bits();
    AndOnes(Extend(value), b);
    CutOff(word, s, 64 - s, b, Extend(value), 64);
  }

  lemma LowIsRemainder(a: nat, k: nat)
    ensures a % Pow2(k) == Low(a, k)
  {
    Recompose(a, k);
    LowBound(a, k);
    ShlIsProduct(Shr(a, k), k);
    DivUnique(a, Pow2(k), Shr(a, k), Low(a, k));
  }

  /** The same for words of any number of digits. */
  lemma CutOff(word: nat, s: nat, m: nat, b: nat, v: nat, n: nat)
    requires s + m == n && word < Pow2(n)
    ensures Shl(Ones(b), s) % Pow2(n) <= Ones(n)
    ensures Or(And(word, Ones(n) - Shl(Ones(b), s) % Pow2(n)), Shl(Low(v, b), s) % Pow2(n)) ==
      WithField(word, s, Min(b, m), Low(v, Min(b, m)))
  {
    var room := Min(b, m);
    LowIsRemainder(Shl(Ones(b), s), n);
    LowIsRemainder(Shl(Low(v, b), s), n);
    LowOfShl(Ones(b), s, m);
    LowOfOnes(b, m);
    LowOfShl(Low(v, b), s, m);
    LowTwice(v, b, m);
    LowBound(v, room);
    MaskedUpdate(word, s, room, Low(v, room), n);
  }

  // ----------------------------------------------------- the two methods

  method Get(packed: array<Long>, index: JavaInt, valuesPerLong: JavaInt, bits: JavaInt) returns (r: Access)
    ensures r == ReadAt(packed[..], index, valuesPerLong, bits)
  {
    if valuesPerLong == 0 { return ByZero; }
    var cell := CellOf(index, valuesPerLong);
    if cell < 0 || cell >= packed.Length { return Fault; }
    r := ReadWord(packed[cell], ShiftOf(index, valuesPerLong, bits), WidthOf(bits));
  }

  /** The masked shifted word, cast to int. */
  method ReadWord(word: Long, s: nat, b: nat) returns (r: Access)
    requires s < 64 && b < 64
    ensures r == Read(Field(Wide(word), s, b) % 0x1_0000_0000)
  {
    WideField(word, s, b);
    r := Read(And(ShiftRightSigned(word, s), Ones(b)) % 0x1_0000_0000);
  }

  method GetAndSet(packed: array<Long>, index: JavaInt, value: Int, valuesPerLong: JavaInt, bits: JavaInt)
    returns (previous: Access)
    modifies packed
    ensures previous == old(ReadAt(packed[..], index, valuesPerLong, bits))
    ensures packed[..] == old(SetAt(packed[..], index, value, valuesPerLong, bits))
  {
    if valuesPerLong == 0 { return ByZero; }
    var cell := CellOf(index, valuesPerLong);
    if cell < 0 || cell >= packed.Length { return Fault; }
    var s, b, word := ShiftOf(index, valuesPerLong, bits), WidthOf(bits), packed[cell];
    previous := ReadWord(word, s, b);
    StoredIsWritten(word, s, b, value);
    packed[cell] := Stored(word, s, b, value);
  }

  // ------------------------------------ values that do not span two longs

  datatype Spot = Nowhere | Spot(cell: nat, offset: nat)

  /**
   A slot number means its slot. A small negative one means a field counted from the top of the first
   long, since the negative shift count wraps; any other index is outside the array.
   */
  function SpotOf(index: int, valuesPerLong: nat, bits: nat, longs: nat): Spot
    requires Fits(bits, valuesPerLong)
  {
    if index >= 0 then
      if Cell(index, valuesPerLong) < longs
      then Spot(Cell(index, valuesPerLong), Offset(Place(index, valuesPerLong), bits)) else Nowhere
    else if -index < valuesPerLong && longs > 0 then FromTop(-index, valuesPerLong, bits)
    else Nowhere
  }

  function FromTop(k: nat, valuesPerLong: nat, bits: nat): Spot
    requires Fits(bits, valuesPerLong) && k < valuesPerLong
  {
    OffsetGrows(k, valuesPerLong, bits);
    Spot(0, 64 - Offset(k, bits))
  }

  /** Where the values of a long fit into it, the arithmetic finds this place. */
  lemma SpotIsShift(index: JavaInt, valuesPerLong: nat, bits: nat, longs: nat)
    requires Fits(bits, valuesPerLong)
    ensures valuesPerLong <= 64
    ensures match SpotOf(index, valuesPerLong, bits, longs)
      case Nowhere => !(0 <= CellOf(index, valuesPerLong) < longs)
      case Spot(cell, offset) =>
        && CellOf(index, valuesPerLong) == cell < longs && ShiftOf(index, valuesPerLong, bits) == offset
        && offset + bits <= 64 && offset < 64
  {
    FewValues(valuesPerLong, bits);
    CellAndShift(index, valuesPerLong, bits, Magnitude(index));
  }

  /** The quotient and the wrapped shift, for indices of both signs. */
  lemma CellAndShift(index: JavaInt, valuesPerLong: nat, bits: nat, k: nat)
    requires Fits(bits, valuesPerLong) && valuesPerLong <= 64 && k == Magnitude(index)
    ensures var cell, o := Cell(k, valuesPerLong), Offset(Place(k, valuesPerLong), bits);
      && CellOf(index, valuesPerLong) == (if index < 0 then -(cell as int) else cell)
      && ShiftOf(index, valuesPerLong, bits) == (if index < 0 && o > 0 then 64 - o else o)
      && o + bits <= 64 && o < 64 && (Place(k, valuesPerLong) > 0 ==> o >= bits)
  {
    CellIsQuotient(k, valuesPerLong);
    var r := Place(k, valuesPerLong);
    CellAndRemainder(index, valuesPerLong, Cell(k, valuesPerLong), r);
    OffsetFits(r, valuesPerLong, bits);
    if r > 0 {
      OffsetGrows(0, r, bits);
    }
    OffsetIsProduct(r, bits);
    ShiftOfRemainder(index, valuesPerLong, bits, if index < 0 then -(r as int) else r);
    NegatedProduct(r, bits);
    WrappedOffset(Offset(r, bits));
  }

  lemma WrappedOffset(o: int)
    requires 0 <= o < 64
    ensures o % 64 == o && -o % 64 == if o > 0 then 64 - o else 0
  {
  }

  function Magnitude(index: JavaInt): nat {
    if index < 0 then -(index as int) else index
  }

  lemma NegatedProduct(r: int, bits: int)
    ensures -r * bits == -(r * bits)
  {
  }

  lemma FewValues(valuesPerLong: nat, bits: nat)
    requires Fits(bits, valuesPerLong)
    ensures valuesPerLong <= 64
  {
    OffsetIsProduct(valuesPerLong, bits);
    ProductGrows(valuesPerLong, bits);
  }

  lemma ProductGrows(a: nat, b: nat)
    requires b >= 1
    ensures a * b >= a
  {
    assert a * b == a + a * (b - 1);
  }

  /** The division does not wrap, and the remainder has the sign of the index. */
  lemma CellAndRemainder(index: JavaInt, valuesPerLong: nat, cell: nat, r: nat)
    requires 1 <= valuesPerLong <= 64 && r < valuesPerLong
    requires Magnitude(index) / valuesPerLong == cell && Magnitude(index) - cell * valuesPerLong == r
    ensures CellOf(index, valuesPerLong) == if index < 0 then -(cell as int) else cell
    ensures index - CellOf(index, valuesPerLong) * valuesPerLong == if index < 0 then -(r as int) else r
  {
    ProductGrows(cell, valuesPerLong);
    NegatedProduct(cell, valuesPerLong);
  }

  lemma ShiftOfRemainder(index: JavaInt, valuesPerLong: nat, bits: nat, r: int)
    requires 1 <= valuesPerLong <= 64 && bits <= 32
    requires if index < 0 then index <= r <= 0 && -64 < r else 0 <= r <= index && r < 64
    requires index - CellOf(index, valuesPerLong) * valuesPerLong == r
    ensures ShiftOf(index, valuesPerLong, bits) == r * bits % 64
  {
    SmallProduct(r, bits);
    NoWrap(CellOf(index, valuesPerLong) * valuesPerLong);
    NoWrap(r);
    NoWrap(r * bits);
  }

  lemma NoWrap(v: int)
    requires -0x8000_0000 <= v < 0x8000_0000
    ensures Wrap32(v) == v
  {
  }

  lemma SmallProduct(r: int, bits: nat)
    requires -64 < r < 64 && bits <= 32
    ensures -2048 <= r * bits <= 2048
  {
    assert r * bits <= 64 * bits && r * bits >= -64 * bits;
  }

  /** A field inside its long needs no sign, and no more than an int. */
  lemma FieldInside(w: Long, s: nat, b: nat)
    requires s < 64 && s + b <= 64 && b <= 32
    ensures Field(w, s, b) < 0x1_0000_0000 && Field(Wide(w), s, b) % 0x1_0000_0000 == Field(w, s, b)
  {
    WideField(w, s, b);
    SignedShiftMasked(w, s, b);
    FieldIsInt(w, s, b);
  }

  lemma WrittenInside(w: Long, s: nat, b: nat, value: Int)
    requires s < 64 && s + b <= 64 && b <= 32
    ensures Written(w, s, b, value) == WithField(w, s, b, Low(value, b))
  {
    ExtendMasked(value, b);
    AndOnes(Extend(value), b);
  }

  lemma SmallWidth(bits: JavaInt)
    requires 0 <= bits < 64
    ensures WidthOf(bits) == bits
  {
  }

  /** There a read is the read of a field. */
  lemma ReadFits(packed: seq<Long>, index: JavaInt, valuesPerLong: nat, bits: nat)
    requires Fits(bits, valuesPerLong)
    ensures valuesPerLong <= 64
    ensures match SpotOf(index, valuesPerLong, bits, |packed|)
      case Nowhere => ReadAt(packed, index, valuesPerLong, bits) == Fault
      case Spot(cell, offset) =>
        && cell < |packed| && Field(packed[cell], offset, bits) < 0x1_0000_0000
        && ReadAt(packed, index, valuesPerLong, bits) == Read(Field(packed[cell], offset, bits))
  {
    SpotIsShift(index, valuesPerLong, bits, |packed|);
    SmallWidth(bits);
    match SpotOf(index, valuesPerLong, bits, |packed|)
    case Nowhere =>
    case Spot(cell, offset) => FieldInside(packed[cell], offset, bits);
  }

  /** There a write is the write of a field. */
  lemma WriteFits(packed: seq<Long>, index: JavaInt, value: Int, valuesPerLong: nat, bits: nat)
    requires Fits(bits, valuesPerLong)
    ensures valuesPerLong <= 64
    ensures match SpotOf(index, valuesPerLong, bits, |packed|)
      case Nowhere => SetAt(packed, index, value, valuesPerLong, bits) == packed
      case Spot(cell, offset) =>
        && cell < |packed| && WithField(packed[cell], offset, bits, Low(value, bits)) < 0x1_0000_0000_0000_0000
        && SetAt(packed, index, value, valuesPerLong, bits) ==
             packed[cell := WithField(packed[cell], offset, bits, Low(value, bits))]
  {
    SpotIsShift(index, valuesPerLong, bits, |packed|);
    SmallWidth(bits);
    match SpotOf(index, valuesPerLong, bits, |packed|)
    case Nowhere =>
    case Spot(cell, offset) => WrittenInside(packed[cell], offset, bits, value);
  }

  /**
   With a slot number and the storage layout, a read answers the slot and a write replaces it by the low digits
   of the value and leaves every other slot alone; past the end of the array both fault.
   */
  lemma LayoutSlots(packed: seq<Long>, index: JavaInt, value: Int, valuesPerLong: nat, bits: nat)
    requires Layout(bits, valuesPerLong) && index >= 0
    ensures 0 < valuesPerLong <= 64
    ensures var after := SetAt(packed, index, value, valuesPerLong, bits);
      if Cell(index, valuesPerLong) >= |packed| then
        ReadAt(packed, index, valuesPerLong, bits) == Fault && after == packed
      else
        && Slot(packed, index, valuesPerLong, bits) < 0x1_0000_0000
        && ReadAt(packed, index, valuesPerLong, bits) == Read(Slot(packed, index, valuesPerLong, bits))
        && |after| == |packed| && Slot(after, index, valuesPerLong, bits) == Low(value, bits)
        && forall i: nat :: i != index && Cell(i, valuesPerLong) < |packed| ==>
             Slot(after, i, valuesPerLong, bits) == Slot(packed, i, valuesPerLong, bits)
  {
    LayoutFits(bits, valuesPerLong);
    ReadFits(packed, index, valuesPerLong, bits);
    WriteFits(packed, index, value, valuesPerLong, bits);
    if Cell(index, valuesPerLong) < |packed| {
      var cell, offset := Cell(index, valuesPerLong), Offset(Place(index, valuesPerLong), bits);
      FieldIsInt(packed[cell], offset, bits);
      var word := WithField(packed[cell], offset, bits, Low(value, bits));
      OneSlotChanges(packed, index, value, word, valuesPerLong, bits);
    }
  }

  lemma OneSlotChanges(before: seq<Long>, index: nat, value: Int, word: Long, valuesPerLong: nat, bits: nat)
    requires Fits(bits, valuesPerLong) && Cell(index, valuesPerLong) < |before|
    requires word ==
      WithField(before[Cell(index, valuesPerLong)], Offset(Place(index, valuesPerLong), bits), bits, Low(value, bits))
    ensures var after := before[Cell(index, valuesPerLong) := word];
      && Slot(after, index, valuesPerLong, bits) == Low(value, bits)
      && forall i: nat :: i != index && Cell(i, valuesPerLong) < |before| ==>
           Slot(after, i, valuesPerLong, bits) == Slot(before, i, valuesPerLong, bits)
  {
    var cell, r := Cell(index, valuesPerLong), Place(index, valuesPerLong);
    LowBound(value, bits);
    FieldOfWith(before[cell], Offset(r, bits), bits, Low(value, bits));
    forall i: nat | i != index && Cell(i, valuesPerLong) < |before|
      ensures Slot(before[cell := word], i, valuesPerLong, bits) == Slot(before, i, valuesPerLong, bits)
    {
      if Cell(i, valuesPerLong) == cell {
        SamePlace(i, index, valuesPerLong);
        OffsetsApart(Place(i, valuesPerLong), r, bits);
        OtherField(before[cell], Offset(r, bits), bits, Low(value, bits), Offset(Place(i, valuesPerLong), bits));
      }
    }
  }
}
