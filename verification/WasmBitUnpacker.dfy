/**
 The bulk unpacker as the generator emits it: one linear memory, 64-bit loads from the input region and
 32-bit stores to the output region. It meets the contract of the C version.
 */
module WasmBitUnpacker {
  import opened Bits
  import opened BitFields
  import opened Common
  import opened PackedStorage
  import I = IndexShift
  import R = Repack

  type Byte = I.Byte

  const INPUT_PTR: nat := R.LAYOUTS_PTR + 16 * R.MAX_LAYOUTS
  const OUTPUT_PTR: nat := INPUT_PTR + 8 * MAX_LONGS
  const OUTPUT_END: nat := OUTPUT_PTR + 4 * MAX_VALUES

  /** A 64-bit load, low word first. */
  function LongAt(m: seq<Byte>, cell: nat): Long
    requires |m| == I.MEMORY_BYTES && cell < MAX_LONGS
  {
    Wide(I.Element(m, INPUT_PTR, I.UINT, 2 * cell), I.Element(m, INPUT_PTR, I.UINT, 2 * cell + 1))
  }

  function Wide(low: I.U32, high: I.U32): Long {
    low + 0x1_0000_0000 * high
  }

  /** The packed longs in the input region. */
  function Longs(m: seq<Byte>): (r: seq<Long>)
    requires |m| == I.MEMORY_BYTES
    ensures |r| == MAX_LONGS
  {
    seq(MAX_LONGS, cell requires 0 <= cell < MAX_LONGS => LongAt(m, cell))
  }

  /** Output elements from..to hold the slots. */
  ghost predicate Unpacked(m: seq<Byte>, longs: seq<Long>, from: nat, to: nat, valuesPerLong: nat, bits: nat)
    requires |m| == I.MEMORY_BYTES && valuesPerLong > 0 && to <= MAX_VALUES
  {
    forall i: nat :: from <= i < to ==>
      Cell(i, valuesPerLong) < |longs| && I.Element(m, OUTPUT_PTR, I.UINT, i) == Slot(longs, i, valuesPerLong, bits)
  }

  /** A store to element `to` keeps the elements before it. */
  lemma UnpackedGrows(was: seq<Byte>, now: seq<Byte>, longs: seq<Long>, from: nat, to: nat, valuesPerLong: nat,
                      bits: nat)
    requires |was| == I.MEMORY_BYTES && valuesPerLong > 0 && to < MAX_VALUES && from <= to
    requires Unpacked(was, longs, from, to, valuesPerLong, bits)
    requires I.OnlyWithin(was, now, OUTPUT_PTR + 4 * to, OUTPUT_PTR + 4 * (to + 1))
    requires Cell(to, valuesPerLong) < |longs|
    requires I.Element(now, OUTPUT_PTR, I.UINT, to) == Slot(longs, to, valuesPerLong, bits)
    ensures Unpacked(now, longs, from, to + 1, valuesPerLong, bits)
  {
    forall i: nat | from <= i < to
      ensures I.Element(now, OUTPUT_PTR, I.UINT, i) == I.Element(was, OUTPUT_PTR, I.UINT, i)
    {
      I.SameElement(was, now, OUTPUT_PTR, I.UINT, i, OUTPUT_PTR + 4 * to, OUTPUT_PTR + 4 * (to + 1));
    }
  }

  lemma LongKept(before: seq<Byte>, now: seq<Byte>, cell: nat)
    requires |before| == I.MEMORY_BYTES && cell < MAX_LONGS && I.OnlyWithin(before, now, OUTPUT_PTR, OUTPUT_END)
    ensures LongAt(now, cell) == LongAt(before, cell)
  {
    I.SameElement(before, now, INPUT_PTR, I.UINT, 2 * cell, OUTPUT_PTR, OUTPUT_END);
    I.SameElement(before, now, INPUT_PTR, I.UINT, 2 * cell + 1, OUTPUT_PTR, OUTPUT_END);
  }

  class WasmModule {
    const memory: array<Byte>
    var lastValues: nat

    predicate Valid()
    {
      memory.Length == I.MEMORY_BYTES
    }

    constructor ()
      ensures Valid() && fresh(memory)
    {
      memory, lastValues := new Byte[I.MEMORY_BYTES], 0;
    }

    method Unpack(size: Int, bits: Int, valuesPerLong: Int) returns (ok: bool)
      requires Valid()
      modifies this, memory
      ensures ok <==> 1 <= size <= MAX_VALUES && Layout(bits, valuesPerLong)
      ensures ok ==>
        lastValues == size && valuesPerLong > 0 && Unpacked(memory[..], Longs(old(memory[..])), 0, size,
          valuesPerLong, bits)
      ensures I.OnlyWithin(old(memory[..]), memory[..], OUTPUT_PTR, OUTPUT_PTR + (if ok then 4 * size else 0))
      ensures !ok ==> unchanged(this)
    {
      if size == 0 {
        return false;
      }
      if size > MAX_VALUES || bits == 0 || bits > 32 || valuesPerLong == 0 || valuesPerLong != 64 / bits {
        AtLeastTwo(bits, valuesPerLong);
        return false;
      }
      var longCount := (size + valuesPerLong - 1) / valuesPerLong;
      LongCountFits(size, bits, valuesPerLong);
      if longCount == 0 || longCount > MAX_LONGS {
        return false;
      }
      ghost var before := memory[..];
      var fullCells := size / valuesPerLong;
      CellIsQuotient(size, valuesPerLong);
      AtLeastTwo(bits, valuesPerLong);
      var out := UnpackFullCells(size, fullCells, valuesPerLong, bits, before);
      LastCell(out, size, valuesPerLong);
      var remaining := size - out;
      if remaining > 0 {
        LastIndexFits(size, valuesPerLong);
        UnpackCell(fullCells, out, remaining, valuesPerLong, bits, before);
      }
      lastValues := size;
      ok := true;
    }

    method UnpackFullCells(size: nat, fullCells: nat, valuesPerLong: nat, bits: nat, ghost before: seq<Byte>)
      returns (out: nat)
      requires Valid() && before == memory[..] && size <= MAX_VALUES
      requires Layout(bits, valuesPerLong) && 2 <= valuesPerLong && fullCells == Cell(size, valuesPerLong)
      modifies memory
      ensures out <= size && Place(out, valuesPerLong) == 0 && Cell(out, valuesPerLong) == fullCells
      ensures Unpacked(memory[..], Longs(before), 0, out, valuesPerLong, bits)
      ensures I.OnlyWithin(before, memory[..], OUTPUT_PTR, OUTPUT_PTR + 4 * out)
    {
      out := 0;
      CellBound(size, valuesPerLong);
      for cell := 0 to fullCells
        invariant out <= size && Place(out, valuesPerLong) == 0 && Cell(out, valuesPerLong) == cell
        invariant Unpacked(memory[..], Longs(before), 0, out, valuesPerLong, bits)
        invariant I.OnlyWithin(before, memory[..], OUTPUT_PTR, OUTPUT_PTR + 4 * out)
      {
        WholeCellLeft(out, size, valuesPerLong);
        IndexOf(out, 0, valuesPerLong);
        UnpackCell(cell, out, valuesPerLong, valuesPerLong, bits, before);
        out := out + valuesPerLong;
      }
    }

    /** The inner loop: the first count values of one long. */
    method UnpackCell(cell: nat, out: nat, count: nat, valuesPerLong: nat, bits: nat, ghost before: seq<Byte>)
      requires Valid() && |before| == I.MEMORY_BYTES
      requires cell < MAX_LONGS && Layout(bits, valuesPerLong) && count <= valuesPerLong
      requires out + count <= MAX_VALUES && Place(out, valuesPerLong) == 0 && Cell(out, valuesPerLong) == cell
      requires Unpacked(memory[..], Longs(before), 0, out, valuesPerLong, bits)
      requires I.OnlyWithin(before, memory[..], OUTPUT_PTR, OUTPUT_PTR + 4 * out)
      modifies memory
      ensures Unpacked(memory[..], Longs(before), 0, out + count, valuesPerLong, bits)
      ensures I.OnlyWithin(before, memory[..], OUTPUT_PTR, OUTPUT_PTR + 4 * (out + count))
    {
      ghost var longs := Longs(before);
      var value: nat := LoadLong(cell, before);
      for i := 0 to count
        invariant value == Shr(longs[cell], Offset(i, bits))
        invariant Unpacked(memory[..], longs, 0, out + i, valuesPerLong, bits)
        invariant I.OnlyWithin(before, memory[..], OUTPUT_PTR, OUTPUT_PTR + 4 * (out + i))
      {
        value := UnpackOne(cell, out, i, value, valuesPerLong, bits, longs, before);
      }
    }

    method UnpackOne(cell: nat, out: nat, i: nat, value: nat, ghost valuesPerLong: nat, bits: nat,
                     ghost longs: seq<Long>, ghost before: seq<Byte>)
      returns (rest: nat)
      requires Valid() && |before| == I.MEMORY_BYTES && cell < |longs| && Layout(bits, valuesPerLong)
      requires i < valuesPerLong
      requires out + i < MAX_VALUES && Place(out, valuesPerLong) == 0 && Cell(out, valuesPerLong) == cell
      requires value == Shr(longs[cell], Offset(i, bits))
      requires Unpacked(memory[..], longs, 0, out + i, valuesPerLong, bits)
      requires I.OnlyWithin(before, memory[..], OUTPUT_PTR, OUTPUT_PTR + 4 * (out + i))
      modifies memory
      ensures rest == Shr(longs[cell], Offset(i + 1, bits))
      ensures Unpacked(memory[..], longs, 0, out + (i + 1), valuesPerLong, bits)
      ensures I.OnlyWithin(before, memory[..], OUTPUT_PTR, OUTPUT_PTR + 4 * (out + (i + 1)))
    {
      SlotOf(longs, cell, out, i, value, valuesPerLong, bits);
      StoreSlot(out + i, And(value, Ones(bits)), longs, valuesPerLong, bits, before);
      ShrShr(longs[cell], Offset(i, bits), bits);
      rest := Shr(value, bits);
    }

    method LoadLong(cell: nat, ghost before: seq<Byte>) returns (value: Long)
      requires Valid() && cell < MAX_LONGS && |before| == I.MEMORY_BYTES
      requires I.OnlyWithin(before, memory[..], OUTPUT_PTR, OUTPUT_END)
      ensures value == Longs(before)[cell]
    {
      LongKept(before, memory[..], cell);
      var low := I.Load(memory, INPUT_PTR, I.UINT, 2 * cell);
      var high := I.Load(memory, INPUT_PTR, I.UINT, 2 * cell + 1);
      value := Wide(low, high);
    }

    method StoreSlot(i: nat, value: Int, ghost longs: seq<Long>, ghost valuesPerLong: nat, ghost bits: nat,
                     ghost before: seq<Byte>)
      requires Valid() && |before| == I.MEMORY_BYTES && i < MAX_VALUES && valuesPerLong > 0
      requires Cell(i, valuesPerLong) < |longs| && value == Slot(longs, i, valuesPerLong, bits)
      requires Unpacked(memory[..], longs, 0, i, valuesPerLong, bits)
      requires I.OnlyWithin(before, memory[..], OUTPUT_PTR, OUTPUT_PTR + 4 * i)
      modifies memory
      ensures Unpacked(memory[..], longs, 0, i + 1, valuesPerLong, bits)
      ensures I.OnlyWithin(before, memory[..], OUTPUT_PTR, OUTPUT_PTR + 4 * (i + 1))
    {
      ghost var was := memory[..];
      I.Store(memory, OUTPUT_PTR, I.UINT, i, value);
      UnpackedGrows(was, memory[..], longs, 0, i, valuesPerLong, bits);
    }
  }

  /** The masked low part of the shifted long is the slot. */
  lemma SlotOf(longs: seq<Long>, cell: nat, out: nat, i: nat, value: nat, valuesPerLong: nat, bits: nat)
    requires cell < |longs| && Layout(bits, valuesPerLong) && i < valuesPerLong
    requires Place(out, valuesPerLong) == 0 && Cell(out, valuesPerLong) == cell
    requires value == Shr(longs[cell], Offset(i, bits))
    ensures Cell(out + i, valuesPerLong) == cell
    ensures And(value, Ones(bits)) == Slot(longs, out + i, valuesPerLong, bits) < 0x1_0000_0000
  {
    AndOnes(value, bits);
    FieldIsInt(longs[cell], Offset(i, bits), bits);
    IndexOf(out, i, valuesPerLong);
  }
}
