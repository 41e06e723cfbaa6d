/**
 Packed bit storage: fixed-width values that never span two longs. gaius_unpack_bit_storage reads all of
 them.
 */
module PackedStorage {
  import opened Common
  import opened Bits
  import opened BitFields

  /** A 64-bit word and a 32-bit word, as unsigned patterns. */
  type Long = x: nat | x < 0x1_0000_0000_0000_0000
  type Int = x: nat | x < 0x1_0000_0000

  const MAX_VALUES: nat := 0x10_0000
  const MAX_LONGS: nat := 0x8_0000

  lemma LongIs64Bits()
    ensures Pow2(64) == 0x1_0000_0000_0000_0000 && Pow2(32) == 0x1_0000_0000
  {
    assert Pow2(8) == 0x100;
    PowAdd(8, 8);
    PowAdd(16, 16);
    PowAdd(32, 32);
  }

  /** The storage layout: values of the given width, as many to a long as fit. */
  predicate Layout(bits: nat, valuesPerLong: nat) {
    1 <= bits <= 32 && valuesPerLong == 64 / bits
  }

  /** The long that holds slot i, and the place of the slot there: quotient and remainder. */
  function Cell(i: nat, valuesPerLong: nat): nat
    requires valuesPerLong > 0
    decreases i
  {
    if i < valuesPerLong then 0 else 1 + Cell(i - valuesPerLong, valuesPerLong)
  }

  function Place(i: nat, valuesPerLong: nat): (r: nat)
    requires valuesPerLong > 0
    ensures r < valuesPerLong
    decreases i
  {
    if i < valuesPerLong then i else Place(i - valuesPerLong, valuesPerLong)
  }

  /** The product of a place and the width. */
  function Offset(r: nat, bits: nat): nat
    decreases r
  {
    if r == 0 then 0 else Offset(r - 1, bits) + bits
  }

  /** The value in slot i. */
  function Slot(packed: seq<Long>, i: nat, valuesPerLong: nat, bits: nat): nat
    requires valuesPerLong > 0 && Cell(i, valuesPerLong) < |packed|
  {
    Field(packed[Cell(i, valuesPerLong)], Offset(Place(i, valuesPerLong), bits), bits)
  }

  lemma {:induction false} CellIsQuotient(i: nat, valuesPerLong: nat)
    requires valuesPerLong > 0
    ensures i / valuesPerLong == Cell(i, valuesPerLong)
    ensures i - i / valuesPerLong * valuesPerLong == Place(i, valuesPerLong)
    decreases i
  {
    if i < valuesPerLong {
      DivUnique(i, valuesPerLong, 0, i);
    } else {
      var q, r := Cell(i - valuesPerLong, valuesPerLong), Place(i - valuesPerLong, valuesPerLong);
      CellIsQuotient(i - valuesPerLong, valuesPerLong);
      assert i - valuesPerLong == valuesPerLong * q + r;
      assert i == valuesPerLong * (q + 1) + r;
      DivUnique(i, valuesPerLong, q + 1, r);
    }
  }

  lemma {:induction false} OffsetIsProduct(r: nat, bits: nat)
    ensures Offset(r, bits) == r * bits
  {
    if r != 0 {
      OffsetIsProduct(r - 1, bits);
      assert r * bits == (r - 1) * bits + bits;
    }
  }

  lemma {:induction false} OffsetGrows(r: nat, q: nat, bits: nat)
    requires r < q
    ensures Offset(r, bits) + bits <= Offset(q, bits)
    decreases q
  {
    if r < q - 1 { OffsetGrows(r, q - 1, bits); }
  }

  /** Values that do not span two longs; the storage layout packs as many as fit. */
  predicate Fits(bits: nat, valuesPerLong: nat) {
    1 <= bits <= 32 && 1 <= valuesPerLong && Offset(valuesPerLong, bits) <= 64
  }

  lemma QuotientFits(bits: nat)
    requires bits >= 1
    ensures 64 / bits * bits <= 64
  {
    assert 64 / bits * bits + 64 % bits == 64;
  }

  lemma LayoutFits(bits: nat, valuesPerLong: nat)
    requires Layout(bits, valuesPerLong)
    ensures Fits(bits, valuesPerLong)
  {
    AtLeastTwo(bits, valuesPerLong);
    OffsetIsProduct(valuesPerLong, bits);
    QuotientFits(bits);
  }

  /** A slot lies inside its long. */
  lemma OffsetFits(r: nat, valuesPerLong: nat, bits: nat)
    requires Fits(bits, valuesPerLong) && r < valuesPerLong
    ensures Offset(r, bits) + bits <= 64
  {
    OffsetGrows(r, valuesPerLong, bits);
  }

  /** Different slots of one long do not overlap. */
  lemma OffsetsApart(r: nat, q: nat, bits: nat)
    requires r != q
    ensures Offset(r, bits) + bits <= Offset(q, bits) || Offset(q, bits) + bits <= Offset(r, bits)
  {
    if r < q { OffsetGrows(r, q, bits); } else { OffsetGrows(q, r, bits); }
  }

  lemma {:induction false} SamePlace(i: nat, j: nat, valuesPerLong: nat)
    requires valuesPerLong > 0 && i != j && Cell(i, valuesPerLong) == Cell(j, valuesPerLong)
    ensures Place(i, valuesPerLong) != Place(j, valuesPerLong)
    decreases i
  {
    if i >= valuesPerLong && j >= valuesPerLong { SamePlace(i - valuesPerLong, j - valuesPerLong, valuesPerLong); }
  }

  /** The slot numbers of one long are consecutive. */
  lemma {:induction false} IndexOf(start: nat, r: nat, valuesPerLong: nat)
    requires r < valuesPerLong && Place(start, valuesPerLong) == 0
    ensures Cell(start + r, valuesPerLong) == Cell(start, valuesPerLong)
    ensures Place(start + r, valuesPerLong) == r
    ensures Cell(start + valuesPerLong, valuesPerLong) == Cell(start, valuesPerLong) + 1
    ensures Place(start + valuesPerLong, valuesPerLong) == 0
    decreases start
  {
    if start >= valuesPerLong { IndexOf(start - valuesPerLong, r, valuesPerLong); }
  }

  lemma FieldIsInt(w: nat, o: nat, bits: nat)
    requires bits <= 32
    ensures Field(w, o, bits) < Pow2(bits) <= 0x1_0000_0000
  {
    LongIs64Bits();
    LowBound(Shr(w, o), bits);
    PowGrows(bits, 32);
  }

  lemma {:induction false} PowGrows(j: nat, k: nat)
    requires j <= k
    ensures Pow2(j) <= Pow2(k)
    decreases k
  {
    if j < k { PowGrows(j, k - 1); }
  }

  // ------------------------------------------------------ all slots

  /** The static buffers of the hot path module. */
  class BitUnpacker {
    const input: array<Long>
    const output: array<Int>
    var lastValues: nat

    constructor ()
      ensures input.Length == MAX_LONGS && output.Length == MAX_VALUES
    {
      input, output, lastValues := new Long[MAX_LONGS], new Int[MAX_VALUES], 0;
    }

    predicate Accepted(size: nat, bits: nat, valuesPerLong: nat) {
      1 <= size <= MAX_VALUES && Layout(bits, valuesPerLong)
    }

    /** The first n slots have been unpacked. */
    ghost predicate Unpacked(from: nat, to: nat, valuesPerLong: nat, bits: nat)
      requires valuesPerLong > 0 && to <= output.Length
      reads input, output
    {
      forall i: nat :: from <= i < to ==>
        (Cell(i, valuesPerLong) < input.Length && output[i] == Slot(input[..], i, valuesPerLong, bits))
    }

    /** gaius_unpack_bit_storage. The check on the number of longs never rejects. */
    method Unpack(size: Int, bits: Int, valuesPerLong: Int) returns (ok: bool)
      requires input.Length == MAX_LONGS && output.Length == MAX_VALUES
      modifies this`lastValues, output
      ensures ok <==> Accepted(size, bits, valuesPerLong)
      ensures ok ==> lastValues == size && Unpacked(0, size, valuesPerLong, bits)
      ensures forall i :: (if ok then size else 0) <= i < MAX_VALUES ==> output[i] == old(output[i])
      ensures !ok ==> lastValues == old(lastValues)
    {
      if size == 0 || size > MAX_VALUES || bits == 0 || bits > 32 || valuesPerLong == 0
         || valuesPerLong != 64 / bits {
        AtLeastTwo(bits, valuesPerLong);
        return false;
      }
      var longCount := (size + valuesPerLong - 1) / valuesPerLong;
      LongCountFits(size, bits, valuesPerLong);
      if longCount == 0 || longCount > MAX_LONGS {
        return false;
      }
      var fullCells := size / valuesPerLong;
      CellIsQuotient(size, valuesPerLong);
      var out := UnpackFullCells(size, fullCells, valuesPerLong, bits);
      LastCell(out, size, valuesPerLong);
      var remaining := size - out;
      if remaining > 0 {
        LastIndexFits(size, valuesPerLong);
        UnpackCell(fullCells, out, remaining, valuesPerLong, bits);
      }
      lastValues := size;
      return true;
    }

    method UnpackFullCells(size: nat, fullCells: nat, valuesPerLong: nat, bits: nat) returns (out: nat)
      requires input.Length == MAX_LONGS && output.Length == MAX_VALUES
      requires Layout(bits, valuesPerLong) && 2 <= valuesPerLong && size <= MAX_VALUES
      requires fullCells == Cell(size, valuesPerLong)
      modifies output
      ensures out <= size && Place(out, valuesPerLong) == 0 && Cell(out, valuesPerLong) == fullCells
      ensures Unpacked(0, out, valuesPerLong, bits)
      ensures forall i :: out <= i < MAX_VALUES ==> output[i] == old(output[i])
    {
      out := 0;
      CellBound(size, valuesPerLong);
      for cell := 0 to fullCells
        invariant out <= size && Place(out, valuesPerLong) == 0 && Cell(out, valuesPerLong) == cell
        invariant Unpacked(0, out, valuesPerLong, bits)
        invariant forall i :: out <= i < MAX_VALUES ==> output[i] == old(output[i])
      {
        WholeCellLeft(out, size, valuesPerLong);
        IndexOf(out, 0, valuesPerLong);
        UnpackCell(cell, out, valuesPerLong, valuesPerLong, bits);
        out := out + valuesPerLong;
      }
    }

    /** The inner loop: the first count values of one long. */
    method UnpackCell(cell: nat, out: nat, count: nat, valuesPerLong: nat, bits: nat)
      requires cell < input.Length && Layout(bits, valuesPerLong) && count <= valuesPerLong
      requires out + count <= output.Length && Place(out, valuesPerLong) == 0 && Cell(out, valuesPerLong) == cell
      modifies output
      ensures Unpacked(out, out + count, valuesPerLong, bits)
      ensures forall i :: 0 <= i < output.Length && !(out <= i < out + count) ==> output[i] == old(output[i])
    {
      var value: nat := input[cell];
      for i := 0 to count
        invariant value == Shr(input[cell], Offset(i, bits))
        invariant Unpacked(out, out + i, valuesPerLong, bits)
        invariant forall k :: 0 <= k < output.Length && !(out <= k < out + i) ==> output[k] == old(output[k])
      {
        AndOnes(value, bits);
        FieldIsInt(input[cell], Offset(i, bits), bits);
        IndexOf(out, i, valuesPerLong);
        output[out + i] := And(value, Ones(bits));
        ShrShr(input[cell], Offset(i, bits), bits);
        value := Shr(value, bits);
      }
    }
  }

  lemma AtLeastTwo(bits: nat, valuesPerLong: nat)
    ensures Layout(bits, valuesPerLong) ==> valuesPerLong >= 2
  {
    if 1 <= bits <= 32 {
      var q := 64 / bits;
      assert q * bits + 64 % bits == 64;
    }
  }

  lemma {:induction false} CellBound(i: nat, valuesPerLong: nat)
    requires valuesPerLong >= 2
    ensures 2 * Cell(i, valuesPerLong) <= i
    decreases i
  {
    if i >= valuesPerLong { CellBound(i - valuesPerLong, valuesPerLong); }
  }

  lemma {:induction false} CellMonotone(i: nat, j: nat, valuesPerLong: nat)
    requires valuesPerLong > 0 && i <= j
    ensures Cell(i, valuesPerLong) <= Cell(j, valuesPerLong)
    decreases i
  {
    if i >= valuesPerLong { CellMonotone(i - valuesPerLong, j - valuesPerLong, valuesPerLong); }
  }

  /** size values fill at least one and at most MAX_LONGS longs. */
  lemma LongCountFits(size: nat, bits: nat, valuesPerLong: nat)
    requires 1 <= size <= MAX_VALUES && Layout(bits, valuesPerLong) && valuesPerLong > 0
    ensures 1 <= (size + valuesPerLong - 1) / valuesPerLong <= MAX_LONGS
  {
    AtLeastTwo(bits, valuesPerLong);
    var n := size - 1;
    CellIsQuotient(n + valuesPerLong, valuesPerLong);
    CellBound(n, valuesPerLong);
  }

  /** A partly filled last cell is within the buffer. */
  lemma LastIndexFits(size: nat, valuesPerLong: nat)
    requires 1 <= size <= MAX_VALUES && valuesPerLong >= 2
    ensures Place(size, valuesPerLong) > 0 ==> Cell(size, valuesPerLong) < MAX_LONGS
  {
    PartialCell(size, valuesPerLong);
  }

  lemma {:induction false} PartialCell(i: nat, valuesPerLong: nat)
    requires valuesPerLong >= 2
    ensures 2 * Cell(i, valuesPerLong) + Place(i, valuesPerLong) <= i
    decreases i
  {
    if i >= valuesPerLong { PartialCell(i - valuesPerLong, valuesPerLong); }
  }

  /** Before the last cell a whole cell is left. */
  lemma {:induction false} WholeCellLeft(out: nat, size: nat, valuesPerLong: nat)
    requires valuesPerLong > 0 && Place(out, valuesPerLong) == 0 && Cell(out, valuesPerLong) < Cell(size, valuesPerLong)
    ensures out + valuesPerLong <= size
    decreases out
  {
    if out >= valuesPerLong { WholeCellLeft(out - valuesPerLong, size - valuesPerLong, valuesPerLong); }
  }

  lemma {:induction false} LastCell(out: nat, size: nat, valuesPerLong: nat)
    requires valuesPerLong > 0 && Place(out, valuesPerLong) == 0
    requires Cell(out, valuesPerLong) == Cell(size, valuesPerLong)
    ensures out <= size < out + valuesPerLong && Place(size, valuesPerLong) == size - out
    decreases out
  {
    if out >= valuesPerLong { LastCell(out - valuesPerLong, size - valuesPerLong, valuesPerLong); }
  }
}
