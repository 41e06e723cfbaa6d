/**
 gaius_repack_interleaved: copies attributes of every vertex from a source buffer into an interleaved
 output buffer. Copies may overlap, so the order of the copies matters.
 */
module Repack {
  import I = IndexShift

  type Byte = I.Byte
  type U32 = I.U32
  type U64 = x: nat | x < 0x1_0000_0000_0000_0000

  const MAX_SOURCE_BYTES: nat := 0x100_0000
  const MAX_OUTPUT_BYTES: nat := 0x100_0000
  const MAX_LAYOUTS: nat := 64

  datatype Layout = Layout(sourceOffset: U32, sourceStride: U32, bytes: U32, targetOffset: U32)

  datatype Call = Call(sourceBytes: U32, vertexCount: U32, outputStride: U32)

  /** The product, as repeated addition. */
  function Times(a: nat, b: nat): nat
    decreases a
  {
    if a == 0 then 0 else Times(a - 1, b) + b
  }

  lemma {:induction false} TimesIsProduct(a: nat, b: nat)
    ensures Times(a, b) == a * b
  {
    if a > 0 {
      TimesIsProduct(a - 1, b);
      assert a * b == (a - 1) * b + b;
    }
  }

  lemma {:induction false} TimesMonotone(a: nat, b: nat, c: nat)
    requires a <= b
    ensures Times(a, c) <= Times(b, c)
    decreases b
  {
    if a < b {
      TimesMonotone(a, b - 1, c);
    }
  }

  // ------------------------------------------------- one attribute copy

  function SourceAt(l: Layout, vertex: nat): nat {
    l.sourceOffset + Times(vertex, l.sourceStride)
  }

  function TargetAt(l: Layout, vertex: nat, stride: nat): nat {
    Times(vertex, stride) + l.targetOffset
  }

  /** The copy of a vertex's attribute stays within both buffers. */
  predicate Fits(l: Layout, vertex: nat, c: Call) {
    && l.bytes != 0 && l.sourceStride != 0
    && SourceAt(l, vertex) + l.bytes <= c.sourceBytes
    && TargetAt(l, vertex, c.outputStride) + l.bytes <= Times(c.vertexCount, c.outputStride)
  }

  lemma FitsEarlier(l: Layout, early: nat, late: nat, c: Call)
    requires early <= late && Fits(l, late, c)
    ensures Fits(l, early, c)
  {
    TimesMonotone(early, late, l.sourceStride);
    TimesMonotone(early, late, c.outputStride);
  }

  /** The copy writes output byte p. */
  predicate Covers(l: Layout, vertex: nat, stride: nat, p: nat) {
    TargetAt(l, vertex, stride) <= p < TargetAt(l, vertex, stride) + l.bytes
  }

  /** The source byte that the copy puts at p. Copies that fit stay in range. */
  function SourceByte(source: seq<Byte>, l: Layout, vertex: nat, stride: nat, p: nat): Byte {
    var a := SourceAt(l, vertex) + p - TargetAt(l, vertex, stride);
    if 0 <= a < |source| then source[a] else 0
  }

  // ------------------------------------------------------ all copies

  /** Output byte p after all layouts of the vertices before `vertex` and the first k of `vertex`. */
  function ByteAfter(output: seq<Byte>, source: seq<Byte>, layouts: seq<Layout>, stride: nat,
                     vertex: nat, k: nat, p: nat): Byte
    requires p < |output| && k <= |layouts|
    decreases vertex, k
  {
    if k > 0 then
      if Covers(layouts[k - 1], vertex, stride, p) then SourceByte(source, layouts[k - 1], vertex, stride, p)
      else ByteAfter(output, source, layouts, stride, vertex, k - 1, p)
    else if vertex > 0 then ByteAfter(output, source, layouts, stride, vertex - 1, |layouts|, p)
    else output[p]
  }

  /** Copy (v, i) is made before the point (vertex, k). */
  predicate Before(v: nat, i: nat, vertex: nat, k: nat) {
    v < vertex || (v == vertex && i < k)
  }

  /** Of the copies made before (vertex, k), copy (v, i) is the last to write p. */
  ghost predicate LastToWrite(layouts: seq<Layout>, stride: nat, vertex: nat, k: nat, p: nat, v: nat, i: nat) {
    && i < |layouts| && Before(v, i, vertex, k) && Covers(layouts[i], v, stride, p)
    && forall w, j :: 0 <= j < |layouts| && Before(v, i + 1, w, j + 1) && Before(w, j, vertex, k) ==>
      !Covers(layouts[j], w, stride, p)
  }

  ghost predicate NoneWrites(layouts: seq<Layout>, stride: nat, vertex: nat, k: nat, p: nat) {
    forall w, j :: 0 <= j < |layouts| && Before(w, j, vertex, k) ==> !Covers(layouts[j], w, stride, p)
  }

  /** The last copy over a byte decides it. */
  lemma {:induction false} LastCopyWins(
      output: seq<Byte>, source: seq<Byte>, layouts: seq<Layout>, stride: nat, vertex: nat, k: nat, p: nat,
      v: nat, i: nat)
    requires p < |output| && k <= |layouts| && LastToWrite(layouts, stride, vertex, k, p, v, i)
    ensures ByteAfter(output, source, layouts, stride, vertex, k, p) == SourceByte(source, layouts[i], v, stride, p)
    decreases vertex, k
  {
    if k == 0 {
      LastCopyWins(output, source, layouts, stride, vertex - 1, |layouts|, p, v, i);
    } else if vertex != v || k - 1 != i {
      LastCopyWins(output, source, layouts, stride, vertex, k - 1, p, v, i);
    }
  }

  /** A byte under no copy keeps its value. */
  lemma {:induction false} UncoveredKept(
      output: seq<Byte>, source: seq<Byte>, layouts: seq<Layout>, stride: nat, vertex: nat, k: nat, p: nat)
    requires p < |output| && k <= |layouts| && NoneWrites(layouts, stride, vertex, k, p)
    ensures ByteAfter(output, source, layouts, stride, vertex, k, p) == output[p]
    decreases vertex, k
  {
    if k > 0 {
      UncoveredKept(output, source, layouts, stride, vertex, k - 1, p);
    } else if vertex > 0 {
      UncoveredKept(output, source, layouts, stride, vertex - 1, |layouts|, p);
    }
  }

  /** Every byte is of one of the two kinds. */
  lemma {:induction false} CoveredOrNot(layouts: seq<Layout>, stride: nat, vertex: nat, k: nat, p: nat)
    requires k <= |layouts|
    ensures NoneWrites(layouts, stride, vertex, k, p) || exists v, i :: LastToWrite(layouts, stride, vertex, k, p, v, i)
    decreases vertex, k
  {
    if k > 0 {
      if Covers(layouts[k - 1], vertex, stride, p) {
        assert LastToWrite(layouts, stride, vertex, k, p, vertex, k - 1);
      } else {
        CoveredOrNot(layouts, stride, vertex, k - 1, p);
        if !NoneWrites(layouts, stride, vertex, k - 1, p) {
          var v, i :| LastToWrite(layouts, stride, vertex, k - 1, p, v, i);
          assert LastToWrite(layouts, stride, vertex, k, p, v, i);
        }
      }
    } else if vertex > 0 {
      CoveredOrNot(layouts, stride, vertex - 1, |layouts|, p);
      if !NoneWrites(layouts, stride, vertex - 1, |layouts|, p) {
        var v, i :| LastToWrite(layouts, stride, vertex - 1, |layouts|, p, v, i);
        assert LastToWrite(layouts, stride, vertex, k, p, v, i);
      }
    }
  }

  // ------------------------------------------------- what a call does

  predicate Limits(c: Call, layoutCount: nat) {
    && c.sourceBytes <= MAX_SOURCE_BYTES && 1 <= layoutCount <= MAX_LAYOUTS && c.outputStride != 0
    && Times(c.vertexCount, c.outputStride) <= MAX_OUTPUT_BYTES
  }

  /** A call succeeds when every layout fits at the last vertex, if there is one. */
  predicate Accepted(layouts: seq<Layout>, c: Call) {
    Limits(c, |layouts|) && (c.vertexCount > 0 ==> forall l :: l in layouts ==> Fits(l, c.vertexCount - 1, c))
  }

  /** All copies before (vertex, k) fit. */
  ghost predicate FitBefore(layouts: seq<Layout>, c: Call, vertex: nat, k: nat) {
    forall w, j :: 0 <= j < |layouts| && Before(w, j, vertex, k) ==> Fits(layouts[j], w, c)
  }

  /** The output holds exactly the copies made before (vertex, k). */
  ghost predicate Filled(before: seq<Byte>, now: seq<Byte>, source: seq<Byte>, layouts: seq<Layout>, stride: nat,
                         vertex: nat, k: nat)
    requires k <= |layouts|
  {
    && |now| == |before|
    && forall p :: 0 <= p < |now| ==> now[p] == ByteAfter(before, source, layouts, stride, vertex, k, p)
  }

  /** A call that stops at its first copy that does not fit leaves the copies before it in place. */
  ghost predicate Stopped(before: seq<Byte>, now: seq<Byte>, source: seq<Byte>, layouts: seq<Layout>, c: Call,
                          vertex: nat, k: nat) {
    && vertex < c.vertexCount && k < |layouts| && !Fits(layouts[k], vertex, c)
    && FitBefore(layouts, c, vertex, k) && Filled(before, now, source, layouts, c.outputStride, vertex, k)
  }

  /** Checking every copy is checking the copies of the last vertex. */
  lemma LastVertexDecides(layouts: seq<Layout>, c: Call)
    requires Limits(c, |layouts|)
    ensures Accepted(layouts, c) <==> FitBefore(layouts, c, c.vertexCount, 0)
  {
    if Accepted(layouts, c) {
      forall w, j | 0 <= j < |layouts| && Before(w, j, c.vertexCount, 0)
        ensures Fits(layouts[j], w, c)
      {
        assert layouts[j] in layouts;
        FitsEarlier(layouts[j], w, c.vertexCount - 1, c);
      }
    } else {
      var j :| 0 <= j < |layouts| && !Fits(layouts[j], c.vertexCount - 1, c);
      assert Before(c.vertexCount - 1, j, c.vertexCount, 0);
    }
  }

  lemma OneMisfitDecides(layouts: seq<Layout>, c: Call, vertex: nat, k: nat)
    requires vertex < c.vertexCount && k < |layouts| && !Fits(layouts[k], vertex, c)
    ensures !Accepted(layouts, c)
  {
    if Accepted(layouts, c) {
      assert layouts[k] in layouts;
      FitsEarlier(layouts[k], vertex, c.vertexCount - 1, c);
    }
  }

  /** The end of a vertex is the beginning of the next one. */
  lemma NextVertex(before: seq<Byte>, now: seq<Byte>, source: seq<Byte>, layouts: seq<Layout>, c: Call, vertex: nat)
    requires FitBefore(layouts, c, vertex, |layouts|)
    requires Filled(before, now, source, layouts, c.outputStride, vertex, |layouts|)
    ensures FitBefore(layouts, c, vertex + 1, 0)
    ensures Filled(before, now, source, layouts, c.outputStride, vertex + 1, 0)
  {
  }

  /** A single copy. */
  ghost predicate Copied(was: seq<Byte>, now: seq<Byte>, source: seq<Byte>, l: Layout, vertex: nat, stride: nat) {
    && |now| == |was|
    && forall p :: 0 <= p < |now| ==>
         now[p] == if Covers(l, vertex, stride, p) then SourceByte(source, l, vertex, stride, p) else was[p]
  }

  lemma NextLayout(before: seq<Byte>, was: seq<Byte>, now: seq<Byte>, source: seq<Byte>, layouts: seq<Layout>,
                   c: Call, vertex: nat, k: nat)
    requires k < |layouts| && FitBefore(layouts, c, vertex, k) && Fits(layouts[k], vertex, c)
    requires Filled(before, was, source, layouts, c.outputStride, vertex, k)
    requires Copied(was, now, source, layouts[k], vertex, c.outputStride)
    ensures FitBefore(layouts, c, vertex, k + 1)
    ensures Filled(before, now, source, layouts, c.outputStride, vertex, k + 1)
  {
  }

  /** Two calls on the same data stop at the same copy with the same output. */
  lemma StopsAgree(before: seq<Byte>, one: seq<Byte>, two: seq<Byte>, source: seq<Byte>, layouts: seq<Layout>, c: Call,
                   v: nat, k: nat, w: nat, j: nat)
    requires Stopped(before, one, source, layouts, c, v, k) && Stopped(before, two, source, layouts, c, w, j)
    ensures v == w && k == j && one == two
  {
    assert !Before(v, k, w, j) && !Before(w, j, v, k);
  }

  /** No 64-bit sum of the source can wrap, whatever its 32-bit operands. */
  lemma NoOverflow(a: U32, b: U32, c: U32, d: U32)
    ensures a + b * c + d < 0x1_0000_0000_0000_0000
  {
    ProductGrows(b, 0xffff_ffff, c);
    assert 0xffff_ffff * c <= 0xffff_ffff * 0xffff_ffff;
  }

  lemma ProductGrows(a: nat, b: nat, c: nat)
    requires a <= b
    ensures a * c <= b * c
  {
    assert b * c == a * c + (b - a) * c;
  }

  /** The Wasm test by division is the C test by a 64-bit product. */
  lemma DivisionTest(vertexCount: U32, stride: U32)
    requires vertexCount > 0
    ensures stride > MAX_OUTPUT_BYTES / vertexCount <==> vertexCount * stride > MAX_OUTPUT_BYTES
  {
    var q, r := MAX_OUTPUT_BYTES / vertexCount, MAX_OUTPUT_BYTES % vertexCount;
    assert MAX_OUTPUT_BYTES == vertexCount * q + r;
    if stride > q {
      ProductGrows(q + 1, stride, vertexCount);
      assert (q + 1) * vertexCount == vertexCount * q + vertexCount;
    } else {
      ProductGrows(stride, q, vertexCount);
    }
  }

  // ---------------------------------------------------- the C version

  class CModule {
    const repackSource: array<Byte>
    const repackOutput: array<Byte>
    const repackLayouts: array<Layout>
    var lastRepackBytes: U32

    predicate Valid()
    {
      && repackSource.Length == MAX_SOURCE_BYTES && repackOutput.Length == MAX_OUTPUT_BYTES
      && repackLayouts.Length == MAX_LAYOUTS && repackSource != repackOutput
    }

    constructor ()
      ensures Valid() && fresh(repackOutput)
    {
      repackSource, repackOutput := new Byte[MAX_SOURCE_BYTES], new Byte[MAX_OUTPUT_BYTES];
      repackLayouts := new Layout[MAX_LAYOUTS](_ => Layout(0, 0, 0, 0));
      lastRepackBytes := 0;
    }

    method RepackInterleaved(c: Call, layoutCount: U32) returns (ok: bool)
      requires Valid()
      modifies this, repackOutput
      ensures ok <==> layoutCount <= MAX_LAYOUTS && Accepted(repackLayouts[..layoutCount], c)
      ensures ok ==>
        && lastRepackBytes == Times(c.vertexCount, c.outputStride)
        && Filled(old(repackOutput[..]), repackOutput[..], repackSource[..], repackLayouts[..layoutCount],
          c.outputStride, c.vertexCount, 0)
      ensures !ok ==> unchanged(this)
      ensures !Limits(c, layoutCount) ==> unchanged(repackOutput)
      ensures !ok && Limits(c, layoutCount) ==> exists v: nat, k: nat ::
        Stopped(old(repackOutput[..]), repackOutput[..], repackSource[..], repackLayouts[..layoutCount], c, v, k)
    {
      TimesIsProduct(c.vertexCount, c.outputStride);
      if c.sourceBytes > MAX_SOURCE_BYTES || layoutCount == 0 || layoutCount > MAX_LAYOUTS || c.outputStride == 0 {
        return false;
      }
      NoOverflow(0, c.vertexCount, c.outputStride, 0);
      var outputBytes64: U64 := c.vertexCount * c.outputStride;
      if outputBytes64 > MAX_OUTPUT_BYTES {
        return false;
      }
      var outputBytes: U32 := outputBytes64;
      ghost var layouts, source, before := repackLayouts[..layoutCount], repackSource[..], repackOutput[..];
      for vertex := 0 to c.vertexCount
        invariant unchanged(this)
        invariant FitBefore(layouts, c, vertex, 0)
        invariant Filled(before, repackOutput[..], source, layouts, c.outputStride, vertex, 0)
      {
        for k := 0 to layoutCount
          invariant unchanged(this)
          invariant FitBefore(layouts, c, vertex, k)
          invariant Filled(before, repackOutput[..], source, layouts, c.outputStride, vertex, k)
        {
          ghost var was := repackOutput[..];
          ok := CopyAttribute(repackLayouts[k], vertex, c, outputBytes);
          if !ok {
            assert Stopped(before, repackOutput[..], repackSource[..], repackLayouts[..layoutCount], c, vertex, k);
            OneMisfitDecides(layouts, c, vertex, k);
            return;
          }
          NextLayout(before, was, repackOutput[..], source, layouts, c, vertex, k);
        }
        NextVertex(before, repackOutput[..], source, layouts, c, vertex);
      }
      LastVertexDecides(layouts, c);
      lastRepackBytes := outputBytes;
      ok := true;
    }

    /** The body of the inner loop: one attribute of one vertex. */
    method CopyAttribute(l: Layout, vertex: U32, c: Call, outputBytes: U32) returns (ok: bool)
      requires Valid() && Limits(c, 1) && outputBytes == Times(c.vertexCount, c.outputStride)
      modifies repackOutput
      ensures ok <==> Fits(l, vertex, c)
      ensures ok ==> Copied(old(repackOutput[..]), repackOutput[..], repackSource[..], l, vertex, c.outputStride)
      ensures !ok ==> unchanged(repackOutput)
    {
      if l.bytes == 0 || l.sourceStride == 0 {
        return false;
      }
      TimesIsProduct(vertex, l.sourceStride);
      TimesIsProduct(vertex, c.outputStride);
      NoOverflow(l.sourceOffset, vertex, l.sourceStride, l.bytes);
      NoOverflow(l.targetOffset, vertex, c.outputStride, l.bytes);
      var sourceOffset: U64 := l.sourceOffset + vertex * l.sourceStride;
      var targetOffset: U64 := vertex * c.outputStride + l.targetOffset;
      var sourceEnd: U64, targetEnd: U64 := sourceOffset + l.bytes, targetOffset + l.bytes;
      if sourceEnd > c.sourceBytes || targetEnd > outputBytes {
        return false;
      }
      CopyBytes(targetOffset, sourceOffset, l.bytes);
      ok := true;
    }

    /** Small counts are unrolled; the cases for 8, 12 and 16 repeat the general loop. */
    method CopyBytes(target: U32, source: U32, count: U32)
      requires Valid() && source + count <= repackSource.Length && target + count <= repackOutput.Length
      modifies repackOutput
      ensures forall p :: 0 <= p < repackOutput.Length ==>
        repackOutput[p] ==
        if target <= p < target + count then repackSource[p - target + source] else old(repackOutput[p])
    {
      match count
      case 1 =>
        repackOutput[target] := repackSource[source];
      case 2 =>
        repackOutput[target] := repackSource[source];
        repackOutput[target + 1] := repackSource[source + 1];
      case 3 =>
        repackOutput[target] := repackSource[source];
        repackOutput[target + 1] := repackSource[source + 1];
        repackOutput[target + 2] := repackSource[source + 2];
      case 4 =>
        repackOutput[target] := repackSource[source];
        repackOutput[target + 1] := repackSource[source + 1];
        repackOutput[target + 2] := repackSource[source + 2];
        repackOutput[target + 3] := repackSource[source + 3];
      case _ =>
        for i := 0 to count
          invariant forall p :: 0 <= p < repackOutput.Length ==>
            repackOutput[p] ==
            if target <= p < target + i then repackSource[p - target + source] else old(repackOutput[p])
        {
          repackOutput[target + i] := repackSource[source + i];
        }
    }
  }

  // ------------------------------------------------- the Wasm version

  const SOURCE_PTR: nat := I.SCRATCH_PTR + 4 * I.MAX_INDICES
  const OUTPUT_PTR: nat := SOURCE_PTR + MAX_SOURCE_BYTES
  const LAYOUTS_PTR: nat := OUTPUT_PTR + MAX_OUTPUT_BYTES

  function SourceOf(m: seq<Byte>): seq<Byte>
    requires |m| == I.MEMORY_BYTES
  {
    m[SOURCE_PTR..OUTPUT_PTR]
  }

  function OutputOf(m: seq<Byte>): seq<Byte>
    requires |m| == I.MEMORY_BYTES
  {
    m[OUTPUT_PTR..LAYOUTS_PTR]
  }

  /** Sixteen bytes a layout, four little-endian words. */
  function LayoutAt(m: seq<Byte>, k: nat): Layout
    requires |m| == I.MEMORY_BYTES && k < MAX_LAYOUTS
  {
    var p := LAYOUTS_PTR + 16 * k;
    Layout(I.Element(m, p, I.UINT, 0), I.Element(m, p, I.UINT, 1), I.Element(m, p, I.UINT, 2),
      I.Element(m, p, I.UINT, 3))
  }

  function LayoutsOf(m: seq<Byte>, count: nat): seq<Layout>
    requires |m| == I.MEMORY_BYTES && count <= MAX_LAYOUTS
  {
    seq(count, k requires 0 <= k < count => LayoutAt(m, k))
  }

  /** A write into the output region leaves the source bytes and the layouts alone. */
  lemma InputsKept(before: seq<Byte>, now: seq<Byte>, k: nat)
    requires |before| == I.MEMORY_BYTES && k < MAX_LAYOUTS && I.OnlyWithin(before, now, OUTPUT_PTR, LAYOUTS_PTR)
    ensures LayoutAt(now, k) == LayoutAt(before, k) && SourceOf(now) == SourceOf(before)
  {
  }

  class WasmModule {
    const memory: array<Byte>
    var lastRepackBytes: U32

    predicate Valid()
    {
      memory.Length == I.MEMORY_BYTES
    }

    constructor ()
      ensures Valid() && fresh(memory)
    {
      memory := new Byte[I.MEMORY_BYTES];
      lastRepackBytes := 0;
    }

    method RepackInterleaved(c: Call, layoutCount: U32) returns (ok: bool)
      requires Valid()
      modifies this, memory
      ensures ok <==> layoutCount <= MAX_LAYOUTS && Accepted(LayoutsOf(old(memory[..]), layoutCount), c)
      ensures ok ==>
        && lastRepackBytes == Times(c.vertexCount, c.outputStride)
        && Filled(OutputOf(old(memory[..])), OutputOf(memory[..]), SourceOf(old(memory[..])),
          LayoutsOf(old(memory[..]), layoutCount),
                  c.outputStride, c.vertexCount, 0)
      ensures !ok ==> unchanged(this)
      ensures !Limits(c, layoutCount) ==> unchanged(memory)
      ensures !ok && Limits(c, layoutCount) ==> exists v: nat, k: nat ::
        Stopped(OutputOf(old(memory[..])), OutputOf(memory[..]), SourceOf(old(memory[..])),
          LayoutsOf(old(memory[..]), layoutCount), c, v, k)
      ensures I.OnlyWithin(old(memory[..]), memory[..], OUTPUT_PTR, LAYOUTS_PTR)
    {
      TimesIsProduct(c.vertexCount, c.outputStride);
      if c.sourceBytes > MAX_SOURCE_BYTES {
        return false;
      }
      if layoutCount == 0 {
        return false;
      }
      if layoutCount > MAX_LAYOUTS {
        return false;
      }
      if c.outputStride == 0 {
        return false;
      }
      var outputBytes: U32 := 0;
      if c.vertexCount != 0 {
        DivisionTest(c.vertexCount, c.outputStride);
        if c.outputStride > MAX_OUTPUT_BYTES / c.vertexCount {
          return false;
        }
        outputBytes := c.vertexCount * c.outputStride;
      }
      ghost var before := memory[..];
      ghost var layouts, source := LayoutsOf(before, layoutCount), SourceOf(before);
      for vertex := 0 to c.vertexCount
        invariant unchanged(this) && I.OnlyWithin(before, memory[..], OUTPUT_PTR, LAYOUTS_PTR)
        invariant FitBefore(layouts, c, vertex, 0)
        invariant Filled(OutputOf(before), OutputOf(memory[..]), source, layouts, c.outputStride, vertex, 0)
      {
        for k := 0 to layoutCount
          invariant unchanged(this) && I.OnlyWithin(before, memory[..], OUTPUT_PTR, LAYOUTS_PTR)
          invariant FitBefore(layouts, c, vertex, k)
          invariant Filled(OutputOf(before), OutputOf(memory[..]), source, layouts, c.outputStride, vertex, k)
        {
          ghost var was := memory[..];
          InputsKept(before, was, k);
          ok := CopyAttribute(k, vertex, c, outputBytes, before);
          if !ok {
            assert Stopped(OutputOf(before), OutputOf(memory[..]), source, layouts, c, vertex, k);
            OneMisfitDecides(layouts, c, vertex, k);
            return;
          }
          NextLayout(OutputOf(before), OutputOf(was), OutputOf(memory[..]), source, layouts, c, vertex, k);
        }
        NextVertex(OutputOf(before), OutputOf(memory[..]), source, layouts, c, vertex);
      }
      LastVertexDecides(layouts, c);
      lastRepackBytes := outputBytes;
      ok := true;
    }

    method LoadLayout(k: nat) returns (l: Layout)
      requires Valid() && k < MAX_LAYOUTS
      ensures l == LayoutAt(memory[..], k)
    {
      var p := LAYOUTS_PTR + 16 * k;
      var sourceOffset := I.Load(memory, p, I.UINT, 0);
      var sourceStride := I.Load(memory, p, I.UINT, 1);
      var bytes := I.Load(memory, p, I.UINT, 2);
      var targetOffset := I.Load(memory, p, I.UINT, 3);
      l := Layout(sourceOffset, sourceStride, bytes, targetOffset);
    }

    /** The body of the inner loop. */
    method CopyAttribute(k: nat, vertex: U32, c: Call, outputBytes: U32, ghost before: seq<Byte>) returns (ok: bool)
      requires Valid() && Limits(c, 1) && outputBytes == Times(c.vertexCount, c.outputStride) && k < MAX_LAYOUTS
      requires |before| == memory.Length && I.OnlyWithin(before, memory[..], OUTPUT_PTR, LAYOUTS_PTR)
      requires LayoutAt(memory[..], k) == LayoutAt(before, k) && SourceOf(memory[..]) == SourceOf(before)
      modifies memory
      ensures ok <==> Fits(LayoutAt(before, k), vertex, c)
      ensures ok ==>
        Copied(OutputOf(old(memory[..])), OutputOf(memory[..]), SourceOf(before), LayoutAt(before, k), vertex,
          c.outputStride)
      ensures !ok ==> unchanged(memory)
      ensures I.OnlyWithin(before, memory[..], OUTPUT_PTR, LAYOUTS_PTR)
    {
      var l := LoadLayout(k);
      if l.bytes == 0 {
        return false;
      }
      if l.sourceStride == 0 {
        return false;
      }
      TimesIsProduct(vertex, l.sourceStride);
      TimesIsProduct(vertex, c.outputStride);
      NoOverflow(l.sourceOffset, vertex, l.sourceStride, l.bytes);
      NoOverflow(l.targetOffset, vertex, c.outputStride, l.bytes);
      var sourceOffset: U64 := l.sourceOffset + vertex * l.sourceStride;
      var targetOffset: U64 := vertex * c.outputStride + l.targetOffset;
      var sourceEnd: U64, targetEnd: U64 := sourceOffset + l.bytes, targetOffset + l.bytes;
      if sourceEnd > c.sourceBytes {
        return false;
      }
      if targetEnd > outputBytes {
        return false;
      }
      CopyBytes(targetOffset, sourceOffset, l.bytes, SourceOf(before));
      ok := true;
    }

    method CopyBytes(target: U32, from: U32, count: U32, ghost source: seq<Byte>)
      requires Valid() && from + count <= MAX_SOURCE_BYTES && target + count <= MAX_OUTPUT_BYTES
      requires source == SourceOf(memory[..])
      modifies memory
      ensures forall p :: 0 <= p < MAX_OUTPUT_BYTES ==>
        OutputOf(memory[..])[p] ==
        if target <= p < target + count then source[p - target + from] else OutputOf(old(memory[..]))[p]
      ensures I.OnlyWithin(old(memory[..]), memory[..], OUTPUT_PTR, LAYOUTS_PTR)
    {
      for i := 0 to count
        invariant forall a :: 0 <= a < memory.Length ==>
          memory[a] ==
          if OUTPUT_PTR + target <= a < OUTPUT_PTR + target + i then source[a - OUTPUT_PTR - target + from]
          else old(memory[a])
      {
        assert memory[SOURCE_PTR + from + i] == source[from + i];
        memory[OUTPUT_PTR + target + i] := memory[SOURCE_PTR + from + i];
      }
    }
  }
}
