/**
 gaius_shift_indices: what both implementations of it must do with a buffer of vertex indices.
 */
module IndexShift {

  type Byte = x: nat | x < 256
  type U32 = x: nat | x < 0x1_0000_0000
  type I32 = x: int | -0x8000_0000 <= x < 0x8000_0000

  const UBYTE: U32 := 0x1401
  const USHORT: U32 := 0x1403
  const UINT: U32 := 0x1405
  const MAX_INDICES: nat := 0x10_0000
  const U32_MAX: U32 := 0xffff_ffff

  predicate IsType(t: U32) {
    t == UBYTE || t == USHORT || t == UINT
  }

  /** Byte offset of element k in a buffer of the given element type. */
  function At(t: U32, k: nat): nat
    requires IsType(t)
  {
    if t == UBYTE then k else if t == USHORT then 2 * k else 4 * k
  }

  function Join(b0: nat, b1: nat, b2: nat, b3: nat): nat {
    b0 + 0x100 * b1 + 0x1_0000 * b2 + 0x100_0000 * b3
  }

  /** Little-endian element k of a buffer that starts at `base`. */
  function Element(s: seq<Byte>, base: nat, t: U32, k: nat): (v: U32)
    requires IsType(t) && base + At(t, k + 1) <= |s|
    ensures t == UBYTE ==> v < 0x100
    ensures t == USHORT ==> v < 0x1_0000
  {
    var a := base + At(t, k);
    if t == UBYTE then s[a]
    else if t == USHORT then Join(s[a], s[a + 1], 0, 0)
    else Join(s[a], s[a + 1], s[a + 2], s[a + 3])
  }

  /** The truncation of a store to the element type. */
  function Truncate(t: U32, v: nat): nat
    requires IsType(t)
  {
    if t == UBYTE then v % 0x100 else if t == USHORT then v % 0x1_0000 else v
  }

  /** A typed read, in C through a cast pointer, in Wasm i32.load8_u, i32.load16_u or i32.load. */
  method Load(m: array<Byte>, base: nat, t: U32, k: nat) returns (v: U32)
    requires IsType(t) && base + At(t, k + 1) <= m.Length
    ensures v == Element(m[..], base, t, k)
  {
    var a := base + At(t, k);
    if t == UBYTE { return m[a]; }
    if t == USHORT { return Join(m[a], m[a + 1], 0, 0); }
    return Join(m[a], m[a + 1], m[a + 2], m[a + 3]);
  }

  lemma SplitWord(v: U32)
    ensures v % 0x1_0000 == Join(v % 0x100, v / 0x100 % 0x100, 0, 0)
    ensures v == Join(v % 0x100, v / 0x100 % 0x100, v / 0x1_0000 % 0x100, v / 0x100_0000)
  {
    assert v / 0x100 / 0x100 == v / 0x1_0000 && v / 0x1_0000 / 0x100 == v / 0x100_0000;
  }

  /** A typed write: a cast pointer, or i32.store8, i32.store16, i32.store. */
  method Store(m: array<Byte>, base: nat, t: U32, k: nat, v: U32)
    requires IsType(t) && base + At(t, k + 1) <= m.Length
    modifies m
    ensures Element(m[..], base, t, k) == Truncate(t, v)
    ensures OnlyWithin(old(m[..]), m[..], base + At(t, k), base + At(t, k + 1))
  {
    var a := base + At(t, k);
    SplitWord(v);
    m[a] := v % 0x100;
    if t != UBYTE {
      m[a + 1] := v / 0x100 % 0x100;
      if t == UINT {
        m[a + 2] := v / 0x1_0000 % 0x100;
        m[a + 3] := v / 0x100_0000;
      }
    }
  }

  /** The two buffers agree outside [lo, hi). */
  ghost predicate OnlyWithin(s: seq<Byte>, t: seq<Byte>, lo: nat, hi: nat) {
    |s| == |t| && forall a :: 0 <= a < |s| && !(lo <= a < hi) ==> s[a] == t[a]
  }

  // ------------------------------------------------------ the result

  /** The shifted indices, before any range check. */
  function Shifted(s: seq<Byte>, base: nat, t: U32, count: nat, baseVertex: I32): seq<int>
    requires IsType(t) && base + At(t, count) <= |s|
  {
    seq(count, k requires 0 <= k < count => Element(s, base, t, k) as int + baseVertex as int)
  }

  predicate InRange(v: int) {
    0 <= v <= U32_MAX
  }

  function MinOf(v: seq<int>): int {
    if v == [] then U32_MAX
    else
      var m := MinOf(v[..|v| - 1]);
      if v[|v| - 1] < m then v[|v| - 1] else m
  }

  function MaxOf(v: seq<int>): int {
    if v == [] then 0
    else
      var m := MaxOf(v[..|v| - 1]);
      if v[|v| - 1] > m then v[|v| - 1] else m
  }

  lemma Longer(v: seq<int>, i: nat)
    requires i < |v|
    ensures MinOf(v[..i + 1]) == if v[i] < MinOf(v[..i]) then v[i] else MinOf(v[..i])
    ensures MaxOf(v[..i + 1]) == if v[i] > MaxOf(v[..i]) then v[i] else MaxOf(v[..i])
  {
    assert v[..i + 1][..i] == v[..i];
  }

  lemma {:induction false} MinMaxAttained(v: seq<int>)
    requires v != [] && AllInRange(v)
    ensures MinOf(v) in v && MaxOf(v) in v
    ensures forall k :: 0 <= k < |v| ==> MinOf(v) <= v[k] <= MaxOf(v)
  {
    var front := v[..|v| - 1];
    if front != [] {
      MinMaxAttained(front);
      assert v == front + [v[|v| - 1]];
    }
  }

  /** The element type of the output. */
  function OutputType(t: U32, max: int): U32 {
    if max <= 255 && t == UBYTE then UBYTE
    else if max <= 65535 && t != UINT then USHORT
    else UINT
  }

  /** A type is no narrower than the input's and holds every index up to max. */
  predicate Suits(u: U32, t: U32, max: int)
    requires IsType(t)
  {
    && IsType(u) && At(u, 1) >= At(t, 1)
    && max < if At(u, 1) == 1 then 0x100 else if At(u, 1) == 2 then 0x1_0000 else 0x1_0000_0000
  }

  /** The chosen type is the narrowest one that does. */
  lemma NarrowestType(t: U32, max: int)
    requires IsType(t) && InRange(max)
    ensures Suits(OutputType(t, max), t, max)
    ensures forall u :: Suits(u, t, max) ==> At(OutputType(t, max), 1) <= At(u, 1)
  {
  }

  /** Every shifted index survives the store in the chosen type. */
  lemma NoTruncation(t: U32, v: seq<int>, k: nat)
    requires IsType(t) && k < |v| && AllInRange(v)
    ensures InRange(v[k])
    ensures Truncate(OutputType(t, MaxOf(v)), v[k]) == v[k]
  {
    MinMaxAttained(v);
    Fits(OutputType(t, MaxOf(v)), v[k]);
  }

  lemma Fits(t: U32, x: nat)
    requires IsType(t) && (t == UBYTE ==> x < 0x100) && (t == USHORT ==> x < 0x1_0000)
    ensures Truncate(t, x) == x
  {
  }

  ghost predicate AllInRange(v: seq<int>) {
    forall k :: 0 <= k < |v| ==> InRange(v[k])
  }

  /** The first i shifted indices are in range and have these extremes. */
  ghost predicate Scanned(v: seq<int>, i: nat, min: int, max: int)
    requires i <= |v|
  {
    AllInRange(v[..i]) && min == MinOf(v[..i]) && max == MaxOf(v[..i])
  }

  /** A call is accepted. */
  ghost predicate Accepted(s: seq<Byte>, base: nat, t: U32, count: U32, baseVertex: I32)
    requires base + 4 * MAX_INDICES <= |s|
  {
    1 <= count <= MAX_INDICES && IsType(t) && AllInRange(Shifted(s, base, t, count, baseVertex))
  }

  /** The output buffer of an accepted call. */
  ghost predicate Written(out: seq<Byte>, base: nat, t: U32, v: seq<int>) {
    && IsType(t) && base + At(t, |v|) <= |out|
    && forall k :: 0 <= k < |v| ==> Element(out, base, t, k) == v[k]
  }

  /** An element outside the written range keeps its value. */
  lemma SameElement(s: seq<Byte>, m: seq<Byte>, base: nat, t: U32, k: nat, lo: nat, hi: nat)
    requires IsType(t) && base + At(t, k + 1) <= |s| && OnlyWithin(s, m, lo, hi)
    requires base + At(t, k + 1) <= lo || hi <= base + At(t, k)
    ensures Element(m, base, t, k) == Element(s, base, t, k)
  {
  }

  /** Storing the next element. */
  lemma WrittenGrows(was: seq<Byte>, now: seq<Byte>, base: nat, t: U32, v: seq<int>, i: nat)
    requires i < |v| && Written(was, base, t, v[..i]) && base + At(t, i + 1) <= |was|
    requires OnlyWithin(was, now, base + At(t, i), base + At(t, i + 1)) && Element(now, base, t, i) == v[i]
    ensures Written(now, base, t, v[..i + 1])
  {
    var longer := v[..i + 1];
    forall k | 0 <= k < |longer|
      ensures Element(now, base, t, k) == longer[k]
    {
      if k < i {
        SameElement(was, now, base, t, k, base + At(t, i), base + At(t, i + 1));
        assert v[..i][k] == longer[k];
      }
    }
  }

  lemma WithinGrows(before: seq<Byte>, was: seq<Byte>, now: seq<Byte>, lo: nat, hi: nat, from: nat, to: nat)
    requires OnlyWithin(before, was, lo, hi) && OnlyWithin(was, now, from, to) && lo <= from && to <= hi
    ensures OnlyWithin(before, now, lo, hi)
  {
  }

  // ------------------------------------------- the two ways to add

  datatype Sum = Sum(value: U32) | OutOfRange

  /** C: a 64-bit sum and a range check. */
  function AddWide(v: U32, baseVertex: I32): Sum {
    var shifted := v as int + baseVertex as int;
    if shifted < 0 || shifted > 0xffff_ffff then OutOfRange else Sum(shifted)
  }

  /** An i32 as the u32 of the same bits. */
  function Unsigned(b: I32): U32 {
    if b < 0 then b as int + 0x1_0000_0000 else b
  }

  function WrapSub(a: U32, b: U32): U32 { (a as int - b as int) % 0x1_0000_0000 }

  function WrapAdd(a: U32, b: U32): U32 { (a as int + b as int) % 0x1_0000_0000 }

  /** Wasm: wrapping 32-bit arithmetic with an unsigned comparison. */
  function AddWrapping(v: U32, baseVertex: I32): Sum {
    if baseVertex < 0 then
      var threshold := WrapSub(0, Unsigned(baseVertex));
      if v < threshold then OutOfRange else Sum(WrapSub(v, threshold))
    else
      var moved := WrapAdd(v, Unsigned(baseVertex));
      if moved < v then OutOfRange else Sum(moved)
  }

  /** The two agree for every index and every base, down to -2^31. */
  lemma AdditionsAgree(v: U32, baseVertex: I32)
    ensures AddWrapping(v, baseVertex) == AddWide(v, baseVertex)
  {
    var sum: int := v as int + baseVertex as int;
    if baseVertex < 0 {
      var threshold: int := -(baseVertex as int);
      WrapUnique(0 as int - Unsigned(baseVertex) as int, -1, threshold);
      if v >= threshold {
        WrapUnique(v as int - threshold, 0, sum);
      }
    } else {
      WrapUnique(sum, if sum < 0x1_0000_0000 then 0 else 1, if sum < 0x1_0000_0000 then sum else sum - 0x1_0000_0000);
    }
  }

  lemma WrapUnique(x: int, k: int, r: int)
    requires x == 0x1_0000_0000 * k + r && 0 <= r < 0x1_0000_0000
    ensures x % 0x1_0000_0000 == r
  {
  }

  // ------------------------------------------------- the C version

  class CModule {
    const indexInput: array<Byte>
    const indexOutput: array<Byte>
    const indexScratch: array<U32>
    var lastOutputType: U32
    var lastOutputBytes: nat
    var lastMinIndex: int
    var lastMaxIndex: int

    predicate Valid()
    {
      && indexInput.Length == indexOutput.Length == 4 * MAX_INDICES && indexScratch.Length == MAX_INDICES
      && indexInput != indexOutput
      && (var s: object := indexScratch; s != indexInput && s != indexOutput)
    }

    constructor ()
      ensures Valid() && fresh(indexOutput) && fresh(indexScratch)
    {
      indexInput, indexOutput := new Byte[4 * MAX_INDICES], new Byte[4 * MAX_INDICES];
      indexScratch := new U32[MAX_INDICES];
      lastOutputType, lastOutputBytes, lastMinIndex, lastMaxIndex := 0, 0, 0, 0;
    }

    method ShiftIndices(t: U32, count: U32, baseVertex: I32) returns (ok: bool)
      requires Valid()
      modifies this, indexScratch, indexOutput
      ensures ok <==> Accepted(indexInput[..], 0, t, count, baseVertex)
      ensures !ok ==> indexOutput[..] == old(indexOutput[..]) && unchanged(this)
      ensures ok ==>
        var v := Shifted(indexInput[..], 0, t, count, baseVertex);
        && lastOutputType == OutputType(t, MaxOf(v)) && lastOutputBytes == At(lastOutputType, count)
        && lastMinIndex == MinOf(v) && lastMaxIndex == MaxOf(v)
        && Written(indexOutput[..], 0, lastOutputType, v)
        && OnlyWithin(old(indexOutput[..]), indexOutput[..], 0, lastOutputBytes)
    {
      if count == 0 || count > MAX_INDICES {
        return false;
      }
      if t != UBYTE && t != USHORT && t != UINT {
        return false;
      }
      ghost var v := Shifted(indexInput[..], 0, t, count, baseVertex);
      var minIndex, maxIndex;
      ok, minIndex, maxIndex := Scan(t, count, baseVertex, v);
      if !ok {
        return false;
      }
      var outputType := UINT;
      if maxIndex <= 255 && t == UBYTE {
        outputType := UBYTE;
      } else if maxIndex <= 65535 && t != UINT {
        outputType := USHORT;
      }
      WriteIndices(outputType, count, t, v);
      lastOutputBytes := if outputType == UBYTE then count else if outputType == USHORT then count * 2 else count * 4;
      lastOutputType, lastMinIndex, lastMaxIndex := outputType, minIndex, maxIndex;
    }

    /** The first loop: fills the scratch buffer and finds the extremes. */
    method Scan(t: U32, count: U32, baseVertex: I32, ghost v: seq<int>) returns (ok: bool, minIndex: U32, maxIndex: U32)
      requires Valid() && IsType(t) && count <= MAX_INDICES && v == Shifted(indexInput[..], 0, t, count, baseVertex)
      modifies indexScratch
      ensures ok <==> AllInRange(v)
      ensures ok ==> minIndex == MinOf(v) && maxIndex == MaxOf(v)
      ensures ok ==> forall k :: 0 <= k < count ==> indexScratch[k] == v[k]
    {
      minIndex, maxIndex := U32_MAX, 0;
      for i := 0 to count
        invariant forall k :: 0 <= k < i ==> InRange(v[k]) && indexScratch[k] == v[k]
        invariant minIndex == MinOf(v[..i]) && maxIndex == MaxOf(v[..i])
      {
        var inside, shifted := ShiftOne(t, count, baseVertex, i, v);
        if !inside {
          return false, minIndex, maxIndex;
        }
        Longer(v, i);
        if shifted < minIndex { minIndex := shifted; }
        if shifted > maxIndex { maxIndex := shifted; }
      }
      assert v[..count] == v;
      ok := true;
    }

    /** One index, shifted in 64 bits and stored if it fits 32. */
    method ShiftOne(t: U32, count: U32, baseVertex: I32, i: nat, ghost v: seq<int>) returns (inside: bool, word: U32)
      requires Valid() && IsType(t) && i < count <= MAX_INDICES
      requires v == Shifted(indexInput[..], 0, t, count, baseVertex)
      modifies indexScratch
      ensures inside <==> InRange(v[i])
      ensures inside ==> word == v[i] && indexScratch[i] == v[i]
      ensures forall k :: 0 <= k < indexScratch.Length && k != i ==> indexScratch[k] == old(indexScratch[k])
    {
      word := 0;
      var value := Load(indexInput, 0, t, i);
      var shifted := value as int + baseVertex as int;
      assert v[i] == shifted;
      inside := 0 <= shifted <= 0xffff_ffff;
      if inside {
        word := shifted;
        indexScratch[i] := word;
      }
    }

    /** The three output loops. */
    method WriteIndices(outputType: U32, count: U32, ghost t: U32, ghost v: seq<int>)
      requires Valid() && count <= MAX_INDICES && |v| == count && IsType(t) && AllInRange(v)
      requires forall k :: 0 <= k < count ==> indexScratch[k] == v[k]
      requires outputType == OutputType(t, MaxOf(v))
      modifies indexOutput
      ensures Written(indexOutput[..], 0, outputType, v)
      ensures OnlyWithin(old(indexOutput[..]), indexOutput[..], 0, At(outputType, count))
    {
      for i := 0 to count
        invariant Written(indexOutput[..], 0, outputType, v[..i])
        invariant OnlyWithin(old(indexOutput[..]), indexOutput[..], 0, At(outputType, count))
      {
        NoTruncation(t, v, i);
        WriteIndex(outputType, i, indexScratch[i], v);
      }
      assert v[..count] == v;
    }

    method WriteIndex(outputType: U32, i: nat, word: U32, ghost v: seq<int>)
      requires Valid() && i < |v| <= MAX_INDICES && IsType(outputType)
      requires Written(indexOutput[..], 0, outputType, v[..i]) && Truncate(outputType, word) == v[i]
      modifies indexOutput
      ensures Written(indexOutput[..], 0, outputType, v[..i + 1])
      ensures OnlyWithin(old(indexOutput[..]), indexOutput[..], At(outputType, i), At(outputType, i + 1))
    {
      ghost var was := indexOutput[..];
      Store(indexOutput, 0, outputType, i, word);
      WrittenGrows(was, indexOutput[..], 0, outputType, v, i);
    }
  }

  // ---------------------------------------------- the Wasm version

  const INPUT_PTR: nat := 0
  const OUTPUT_PTR: nat := INPUT_PTR + 4 * MAX_INDICES
  const SCRATCH_PTR: nat := OUTPUT_PTR + 4 * MAX_INDICES
  const MEMORY_BYTES: nat := 1024 * 0x1_0000

  /** One linear memory and four globals. The emitted body, with its locals named. */
  class WasmModule {
    const memory: array<Byte>
    var lastOutputType: U32
    var lastOutputBytes: nat
    var lastMinIndex: U32
    var lastMaxIndex: U32

    predicate Valid()
    {
      memory.Length == MEMORY_BYTES
    }

    constructor ()
      ensures Valid() && fresh(memory)
    {
      memory := new Byte[MEMORY_BYTES];
      lastOutputType, lastOutputBytes, lastMinIndex, lastMaxIndex := 0, 0, 0, 0;
    }

    method ShiftIndices(t: U32, count: U32, baseVertex: I32) returns (ok: bool)
      requires Valid()
      modifies this, memory
      ensures ok <==> Accepted(old(memory[..]), INPUT_PTR, t, count, baseVertex)
      ensures !ok ==>
        unchanged(this) && OnlyWithin(old(memory[..]), memory[..], SCRATCH_PTR, SCRATCH_PTR + 4 * MAX_INDICES)
      ensures ok ==>
        var v := Shifted(old(memory[..]), INPUT_PTR, t, count, baseVertex);
        && lastOutputType == OutputType(t, MaxOf(v)) && lastOutputBytes == At(lastOutputType, count)
        && lastMinIndex == MinOf(v) && lastMaxIndex == MaxOf(v)
        && Written(memory[..], OUTPUT_PTR, lastOutputType, v)
        && OnlyTwo(old(memory[..]), memory[..], OUTPUT_PTR, OUTPUT_PTR + lastOutputBytes, SCRATCH_PTR,
          SCRATCH_PTR + 4 * count)
    {
      if count == 0 {
        return false;
      }
      if count > MAX_INDICES {
        return false;
      }
      if t != UBYTE && t != USHORT && t != UINT {
        return false;
      }
      ghost var v := Shifted(memory[..], INPUT_PTR, t, count, baseVertex);
      var minIndex, maxIndex;
      ok, minIndex, maxIndex := Scan(t, count, baseVertex, v);
      if !ok {
        return false;
      }
      var outputType := UINT;
      if maxIndex <= 255 && t == UBYTE {
        outputType := UBYTE;
      } else if maxIndex <= 65535 && t != UINT {
        outputType := USHORT;
      }
      WriteIndices(outputType, count, t, v);
      lastOutputType := outputType;
      lastOutputBytes := if outputType == UBYTE then count else if outputType == USHORT then count * 2 else count * 4;
      lastMinIndex, lastMaxIndex := minIndex, maxIndex;
    }

    /** The first loop. */
    method Scan(t: U32, count: U32, baseVertex: I32, ghost v: seq<int>) returns (ok: bool, minIndex: U32, maxIndex: U32)
      requires Valid() && IsType(t) && count <= MAX_INDICES && v == Shifted(memory[..], INPUT_PTR, t, count, baseVertex)
      modifies memory
      ensures ok <==> AllInRange(v)
      ensures ok ==> minIndex == MinOf(v) && maxIndex == MaxOf(v)
      ensures ok ==> Written(memory[..], SCRATCH_PTR, UINT, v)
      ensures OnlyWithin(old(memory[..]), memory[..], SCRATCH_PTR, SCRATCH_PTR + 4 * count)
    {
      minIndex, maxIndex := U32_MAX, 0;
      ghost var before := memory[..];
      ok := true;
      for i := 0 to count
        invariant Scanned(v, i, minIndex, maxIndex)
        invariant Written(memory[..], SCRATCH_PTR, UINT, v[..i])
        invariant OnlyWithin(before, memory[..], SCRATCH_PTR, SCRATCH_PTR + 4 * count)
      {
        ok, minIndex, maxIndex := ScanOne(t, i, baseVertex, minIndex, maxIndex, before, v);
        if !ok {
          return;
        }
      }
      assert v[..count] == v;
    }

    method ScanOne(t: U32, i: nat, baseVertex: I32, lo: U32, hi: U32, ghost before: seq<Byte>, ghost v: seq<int>)
      returns (ok: bool, minIndex: U32, maxIndex: U32)
      requires Valid() && IsType(t) && i < |v| <= MAX_INDICES && |before| == memory.Length
      requires v == Shifted(before, INPUT_PTR, t, |v|, baseVertex)
      requires OnlyWithin(before, memory[..], SCRATCH_PTR, SCRATCH_PTR + 4 * |v|)
      requires Scanned(v, i, lo, hi) && Written(memory[..], SCRATCH_PTR, UINT, v[..i])
      modifies memory
      ensures OnlyWithin(before, memory[..], SCRATCH_PTR, SCRATCH_PTR + 4 * |v|)
      ensures !ok ==> !AllInRange(v)
      ensures ok ==> Scanned(v, i + 1, minIndex, maxIndex) && Written(memory[..], SCRATCH_PTR, UINT, v[..i + 1])
    {
      minIndex, maxIndex := lo, hi;
      var sum := ShiftIndex(t, i, baseVertex, before, v);
      match sum
      case OutOfRange => ok := false;
      case Sum(shifted) =>
        Append(SCRATCH_PTR, UINT, i, shifted, before, v);
        Longer(v, i);
        if shifted < minIndex { minIndex := shifted; }
        if shifted > maxIndex { maxIndex := shifted; }
        ok := true;
    }

    method ShiftIndex(t: U32, i: nat, baseVertex: I32, ghost before: seq<Byte>, ghost v: seq<int>) returns (sum: Sum)
      requires Valid() && IsType(t) && i < |v| <= MAX_INDICES && |before| == memory.Length
      requires v == Shifted(before, INPUT_PTR, t, |v|, baseVertex)
      requires OnlyWithin(before, memory[..], SCRATCH_PTR, SCRATCH_PTR + 4 * |v|)
      ensures sum == if InRange(v[i]) then Sum(v[i]) else OutOfRange
    {
      var value := Load(memory, INPUT_PTR, t, i);
      SameElement(before, memory[..], INPUT_PTR, t, i, SCRATCH_PTR, SCRATCH_PTR + 4 * |v|);
      assert v[i] == value as int + baseVertex as int;
      AdditionsAgree(value, baseVertex);
      sum := AddWrapping(value, baseVertex);
    }

    method Append(base: nat, outputType: U32, i: nat, word: U32, ghost before: seq<Byte>, ghost v: seq<int>)
      requires Valid() && i < |v| && IsType(outputType) && base + At(outputType, |v|) <= memory.Length
      requires Written(memory[..], base, outputType, v[..i]) && Truncate(outputType, word) == v[i]
      requires OnlyWithin(before, memory[..], base, base + At(outputType, |v|))
      modifies memory
      ensures Written(memory[..], base, outputType, v[..i + 1])
      ensures OnlyWithin(before, memory[..], base, base + At(outputType, |v|))
    {
      ghost var was := memory[..];
      Store(memory, base, outputType, i, word);
      WrittenGrows(was, memory[..], base, outputType, v, i);
      WithinGrows(before, was, memory[..], base, base + At(outputType, |v|), base + At(outputType, i),
        base + At(outputType, i + 1));
    }

    method NarrowWord(outputType: U32, i: nat, ghost before: seq<Byte>, ghost v: seq<int>)
      requires Valid() && i < |v| <= MAX_INDICES && IsType(outputType) && |before| == memory.Length
      requires Written(before, SCRATCH_PTR, UINT, v)
      requires Written(memory[..], OUTPUT_PTR, outputType, v[..i])
      requires OnlyWithin(before, memory[..], OUTPUT_PTR, OUTPUT_PTR + At(outputType, |v|))
      requires InRange(v[i]) && Truncate(outputType, v[i]) == v[i]
      modifies memory
      ensures Written(memory[..], OUTPUT_PTR, outputType, v[..i + 1])
      ensures OnlyWithin(before, memory[..], OUTPUT_PTR, OUTPUT_PTR + At(outputType, |v|))
    {
      var word := Load(memory, SCRATCH_PTR, UINT, i);
      SameElement(before, memory[..], SCRATCH_PTR, UINT, i, OUTPUT_PTR, OUTPUT_PTR + At(outputType, |v|));
      assert word == v[i];
      Append(OUTPUT_PTR, outputType, i, word, before, v);
    }

    /** The second loop. */
    method WriteIndices(outputType: U32, count: U32, ghost t: U32, ghost v: seq<int>)
      requires Valid() && count <= MAX_INDICES && |v| == count && IsType(t) && AllInRange(v)
      requires Written(memory[..], SCRATCH_PTR, UINT, v)
      requires outputType == OutputType(t, MaxOf(v))
      modifies memory
      ensures Written(memory[..], OUTPUT_PTR, outputType, v)
      ensures OnlyWithin(old(memory[..]), memory[..], OUTPUT_PTR, OUTPUT_PTR + At(outputType, count))
    {
      ghost var before := memory[..];
      for i := 0 to count
        invariant Written(memory[..], OUTPUT_PTR, outputType, v[..i])
        invariant OnlyWithin(before, memory[..], OUTPUT_PTR, OUTPUT_PTR + At(outputType, count))
      {
        NoTruncation(t, v, i);
        NarrowWord(outputType, i, before, v);
      }
      assert v[..count] == v;
    }
  }

  /** The two buffers agree outside two ranges. */
  ghost predicate OnlyTwo(s: seq<Byte>, t: seq<Byte>, lo: nat, hi: nat, lo2: nat, hi2: nat) {
    |s| == |t| && forall a :: 0 <= a < |s| && !(lo <= a < hi) && !(lo2 <= a < hi2) ==> s[a] == t[a]
  }

  // ------------------------------------------------ the two agree

  /** Two memories with the same input bytes accept the same calls and shift to the same values. */
  lemma SameInput(s: seq<Byte>, m: seq<Byte>, t: U32, count: U32, baseVertex: I32)
    requires 4 * MAX_INDICES <= |s| && 4 * MAX_INDICES <= |m| && s[..4 * MAX_INDICES] == m[INPUT_PTR..4 * MAX_INDICES]
    ensures Accepted(s, 0, t, count, baseVertex) <==> Accepted(m, INPUT_PTR, t, count, baseVertex)
    ensures 1 <= count <= MAX_INDICES && IsType(t) ==>
      Shifted(s, 0, t, count, baseVertex) == Shifted(m, INPUT_PTR, t, count, baseVertex)
  {
    if 1 <= count <= MAX_INDICES && IsType(t) {
      var cut := s[..4 * MAX_INDICES];
      forall k | 0 <= k < count
        ensures Element(s, 0, t, k) == Element(m, INPUT_PTR, t, k)
      {
        assert forall a :: 0 <= a < |cut| ==> s[a] == cut[a] == m[a];
      }
      assert Shifted(s, 0, t, count, baseVertex) == Shifted(m, INPUT_PTR, t, count, baseVertex);
    }
  }

  /** A buffer that holds given elements of a given type holds given bytes. */
  lemma SameOutput(s: seq<Byte>, base: nat, m: seq<Byte>, mBase: nat, t: U32, v: seq<int>)
    requires Written(s, base, t, v) && Written(m, mBase, t, v)
    ensures s[base..base + At(t, |v|)] == m[mBase..mBase + At(t, |v|)]
  {
    var bytes, mBytes := s[base..base + At(t, |v|)], m[mBase..mBase + At(t, |v|)];
    forall a | 0 <= a < At(t, |v|)
      ensures bytes[a] == mBytes[a]
    {
      var k := if t == UBYTE then a else if t == USHORT then a / 2 else a / 4;
      SameBytes(s, base, m, mBase, t, k, a - At(t, k));
    }
  }

  lemma SameBytes(s: seq<Byte>, base: nat, m: seq<Byte>, mBase: nat, t: U32, k: nat, j: nat)
    requires IsType(t) && base + At(t, k + 1) <= |s| && mBase + At(t, k + 1) <= |m|
    requires Element(s, base, t, k) == Element(m, mBase, t, k) && j < At(t, 1)
    ensures s[base + At(t, k) + j] == m[mBase + At(t, k) + j]
  {
    var a, b := base + At(t, k), mBase + At(t, k);
    if t == USHORT {
      JoinUnique(s[a], s[a + 1], 0, 0, m[b], m[b + 1], 0, 0);
    } else if t == UINT {
      JoinUnique(s[a], s[a + 1], s[a + 2], s[a + 3], m[b], m[b + 1], m[b + 2], m[b + 3]);
    }
  }

  lemma JoinUnique(a0: Byte, a1: Byte, a2: Byte, a3: Byte, b0: Byte, b1: Byte, b2: Byte, b3: Byte)
    requires Join(a0, a1, a2, a3) == Join(b0, b1, b2, b3)
    ensures a0 == b0 && a1 == b1 && a2 == b2 && a3 == b3
  {
    LowByteUnique(a0, a1 + 0x100 * a2 + 0x1_0000 * a3, b0, b1 + 0x100 * b2 + 0x1_0000 * b3);
    LowByteUnique(a1, a2 + 0x100 * a3, b1, b2 + 0x100 * b3);
    LowByteUnique(a2, a3, b2, b3);
  }

  lemma LowByteUnique(a: Byte, high: int, b: Byte, high': int)
    requires a + 0x100 * high == b + 0x100 * high'
    ensures a == b && high == high'
  {
  }
}
