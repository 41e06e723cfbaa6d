/**
 Which cells of the aquifer grid a scan looks at: the two by three by two cells around a block, numbered
 row by row, and what the scan then returns.
 */
module AquiferGrid {
  import opened NearestFour
  import opened Aquifer
  import opened StaleEntries

  /** A cell of the grid of centers; cells are 16 by 12 by 16 blocks. */
  datatype Cell = Cell(x: int, y: int, z: int)

  /** The cell from which a block's scan starts: the cell of the point five blocks back and one block up. */
  ghost predicate StartsAt(c: Call, b: Cell) {
    && 16 * b.x <= Wrap32(c.blockX - 5) < 16 * (b.x + 1)
    && 12 * b.y <= Wrap32(c.blockY + 1) < 12 * (b.y + 1)
    && 16 * b.z <= Wrap32(c.blockZ - 5) < 16 * (b.z + 1)
  }

  ghost predicate Around(b: Cell, g: Cell) {
    b.x <= g.x <= b.x + 1 && b.y - 1 <= g.y <= b.y + 1 && b.z <= g.z <= b.z + 1
  }

  /** The place of a cell in the scan: x slowest, z fastest. */
  ghost function Turn(b: Cell, g: Cell): int {
    6 * (g.x - b.x) + 2 * (g.y - b.y + 1) + (g.z - b.z)
  }

  /** The number of a cell in the grid, layer by layer and row by row. */
  ghost function RowMajor(c: Call, g: Cell): int {
    ((g.y - c.minGridY) * c.gridSizeZ + (g.z - c.minGridZ)) * c.gridSizeX + (g.x - c.minGridX)
  }

  lemma CellOf(v: int, size: int) returns (q: int)
    requires size > 0
    ensures size * q <= v < size * (q + 1)
  {
    q := v / size;
  }

  /** Every block has exactly one such cell. */
  lemma Start(c: Call) returns (b: Cell)
    ensures StartsAt(c, b) && forall d :: StartsAt(c, d) ==> d == b
  {
    var x := CellOf(Wrap32(c.blockX - 5), 16);
    var y := CellOf(Wrap32(c.blockY + 1), 12);
    var z := CellOf(Wrap32(c.blockZ - 5), 16);
    b := Cell(x, y, z);
  }

  lemma AlikeMul(a: int, b: int, k: int)
    requires Alike(a, b)
    ensures Alike(a * k, b * k)
  {
    var m: int :| a == b + WORD * m;
    assert a * k == b * k + WORD * (m * k);
  }

  lemma AlikeAdd(a: int, b: int, c: int, d: int)
    requires Alike(a, b) && Alike(c, d)
    ensures Alike(a + c, b + d)
  {
    var k: int :| a == b + WORD * k;
    var l: int :| c == d + WORD * l;
    assert a + c == b + d + WORD * (k + l);
  }

  lemma SubAlike(a: Int, v: int, b: Int)
    requires Alike(a, v)
    ensures Alike(Sub(a, b), v - b)
  {
    WrapAlike(a as int - b as int);
    AlikeAdd(a, v, -(b as int), -(b as int)) by { assert -(b as int) == -(b as int) + WORD * 0; }
    AlikeTrans(Sub(a, b), a as int - b as int, v - b);
  }

  /** One step of the row-major number in 32-bit arithmetic. */
  lemma RowStep(p: Int, v: int, size: Int, q: Int, w: int)
    requires Alike(p, v) && Alike(q, w)
    ensures Alike(Add(Mul(p, size), q), v * size + w)
  {
    WrapAlike(p as int * size as int);
    AlikeMul(p, v, size);
    AlikeTrans(Mul(p, size), p as int * size as int, v * size);
    AlikeAdd(Mul(p, size), v * size, q, w);
    WrapAlike(Mul(p, size) as int + q as int);
    AlikeTrans(Add(Mul(p, size), q), Mul(p, size) as int + q as int, v * size + w);
  }

  lemma LayerIs(c: Call, gridY: Int, gridZ: Int, y: int, z: int)
    requires Alike(gridY, y) && Alike(gridZ, z)
    ensures Alike(Add(Mul(Sub(gridY, c.minGridY), c.gridSizeZ), Sub(gridZ, c.minGridZ)),
      (y - c.minGridY) * c.gridSizeZ + (z - c.minGridZ))
  {
    SubAlike(gridY, y, c.minGridY);
    SubAlike(gridZ, z, c.minGridZ);
    RowStep(Sub(gridY, c.minGridY), y - c.minGridY, c.gridSizeZ, Sub(gridZ, c.minGridZ), z - c.minGridZ);
  }

  /** The layer and row part of the index, and what it is worth. */
  lemma LayerAlike(c: Call, gridX: Int, gridY: Int, gridZ: Int, g: Cell) returns (layer: Int, row: int)
    requires Alike(gridY, g.y) && Alike(gridZ, g.z)
    ensures IndexIn(c, gridX, gridY, gridZ) == Add(Mul(layer, c.gridSizeX), Sub(gridX, c.minGridX))
    ensures RowMajor(c, g) == row * c.gridSizeX + (g.x - c.minGridX)
    ensures Alike(layer, row)
  {
    layer := Add(Mul(Sub(gridY, c.minGridY), c.gridSizeZ), Sub(gridZ, c.minGridZ));
    row := (g.y - c.minGridY) * c.gridSizeZ + (g.z - c.minGridZ);
    LayerIs(c, gridY, gridZ, g.y, g.z);
  }

  lemma InLayerIs(c: Call, layer: Int, row: int, gridX: Int, x: int)
    requires Alike(layer, row) && Alike(gridX, x)
    ensures Add(Mul(layer, c.gridSizeX), Sub(gridX, c.minGridX)) == Wrap32(row * c.gridSizeX + (x - c.minGridX))
  {
    SubAlike(gridX, x, c.minGridX);
    RowStep(layer, row, c.gridSizeX, Sub(gridX, c.minGridX), x - c.minGridX);
    AlikeInt(Add(Mul(layer, c.gridSizeX), Sub(gridX, c.minGridX)), row * c.gridSizeX + (x - c.minGridX));
  }

  lemma IndexInIs(c: Call, gridX: Int, kX: int, gridY: Int, kY: int, gridZ: Int, kZ: int, g: Cell)
    requires gridX == g.x + WORD * kX && gridY == g.y + WORD * kY && gridZ == g.z + WORD * kZ
    ensures IndexIn(c, gridX, gridY, gridZ) == Wrap32(RowMajor(c, g))
  {
    AlikeBy(gridX, g.x, kX);
    AlikeBy(gridY, g.y, kY);
    AlikeBy(gridZ, g.z, kZ);
    var layer, row := LayerAlike(c, gridX, gridY, gridZ, g);
    InLayerIs(c, layer, row, gridX, g.x);
  }

  lemma AlikeBy(a: int, b: int, k: int)
    requires a == b + WORD * k
    ensures Alike(a, b)
  {
  }

  lemma AlikeInt(i: Int, n: int)
    requires Alike(i, n)
    ensures i == Wrap32(n)
  {
    WrapExact(i, n);
  }

  /** The wrapping index arithmetic is that of the integers, wrapped once. */
  lemma IndexIsRowMajor(c: Call, x: Int, y: Int, z: Int, b: Cell)
    requires StartsAt(c, b) && 0 <= x <= 1 && -1 <= y <= 1 && 0 <= z <= 1
    ensures IndexAt(c, x, y, z) == Wrap32(RowMajor(c, Cell(b.x + x, b.y + y, b.z + z)))
  {
    var gridX, kX := LineX(c, b, x);
    var gridY, kY := LineY(c, b, y);
    var gridZ, kZ := LineZ(c, b, z);
    IndexInIs(c, gridX, kX, gridY, kY, gridZ, kZ, Cell(b.x + x, b.y + y, b.z + z));
  }

  lemma GridLine(v: Int, size: nat, q: int, offset: Int) returns (line: Int, k: int)
    requires (size == 12 || size == 16) && size * q <= v < size * (q + 1)
    ensures line == Add(v / size, offset) && line == q + offset + WORD * k
  {
    line := Add(v / size, offset);
    assert v / size == q;
    var m := WrapBy(q + offset);
    k := -m;
  }

  lemma LineX(c: Call, b: Cell, x: Int) returns (line: Int, k: int)
    requires StartsAt(c, b)
    ensures line == Add(Sub(c.blockX, 5) / 16, x) && line == b.x + x + WORD * k
  {
    line, k := GridLine(Sub(c.blockX, 5), 16, b.x, x);
  }

  lemma LineY(c: Call, b: Cell, y: Int) returns (line: Int, k: int)
    requires StartsAt(c, b)
    ensures line == Add(Add(c.blockY, 1) / 12, y) && line == b.y + y + WORD * k
  {
    line, k := GridLine(Add(c.blockY, 1), 12, b.y, y);
  }

  lemma LineZ(c: Call, b: Cell, z: Int) returns (line: Int, k: int)
    requires StartsAt(c, b)
    ensures line == Add(Sub(c.blockZ, 5) / 16, z) && line == b.z + z + WORD * k
  {
    line, k := GridLine(Sub(c.blockZ, 5), 16, b.z, z);
  }

  /** For every call, the twelve indices are the numbers of the cells around the block, in scan order. */
  lemma ScansAround(c: Call, b: Cell, g: Cell)
    requires StartsAt(c, b) && Around(b, g)
    ensures 0 <= Turn(b, g) < 12 && Indices(c)[Turn(b, g)] == Wrap32(RowMajor(c, g))
  {
    var x, y, z := g.x - b.x, g.y - b.y, g.z - b.z;
    Order(c, x, y, z);
    assert Turn(b, g) == 6 * x + 2 * (y + 1) + z;
    IndexIsRowMajor(c, x, y, z, b);
    assert Cell(b.x + x, b.y + y, b.z + z) == g;
  }

  /** Every place in the scan is that of one of these cells. */
  lemma Turned(b: Cell, n: nat) returns (g: Cell)
    requires n < 12
    ensures Around(b, g) && Turn(b, g) == n
  {
    g := Cell(b.x + n / 6, b.y + n / 2 % 3 - 1, b.z + n % 2);
  }

  // ------------------------------------------------ blocks inside the grid

  /** A cell of a grid with that many layers. */
  ghost predicate InGrid(c: Call, layers: int, g: Cell) {
    && 0 <= g.x - c.minGridX < c.gridSizeX
    && 0 <= g.y - c.minGridY < layers
    && 0 <= g.z - c.minGridZ < c.gridSizeZ
  }

  /** All the cells around the block are in the grid, and source has one slot for every cell of it. */
  ghost predicate BoxInGrid(source: seq<Long>, c: Call, layers: int, b: Cell) {
    && StartsAt(c, b) && (forall g :: Around(b, g) ==> InGrid(c, layers, g))
    && |source| == layers * c.gridSizeZ * c.gridSizeX && |source| <= INT_MAX
  }

  lemma Times(a: int, b: int)
    requires a >= 0 && b >= 0
    ensures a * b >= 0
  {
  }

  lemma Below(q: int, n: int, size: int)
    requires q < n && size > 0
    ensures q * size + size <= n * size
  {
    Times(n - q - 1, size);
    assert (n - q - 1) * size == n * size - (q * size + size);
  }

  lemma MixedRadix(q: int, size: int, r: int, n: int)
    requires 0 <= q < n && 0 <= r < size
    ensures 0 <= q * size + r < n * size
  {
    Below(q, n, size);
    Times(q, size);
  }

  lemma MixedRadixUnique(q: int, r: int, q': int, r': int, size: int)
    requires 0 <= r < size && 0 <= r' < size && q * size + r == q' * size + r'
    ensures q == q' && r == r'
  {
    if q < q' {
      Below(q, q', size);
    } else if q' < q {
      Below(q', q, size);
    }
  }

  lemma RowMajorInside(c: Call, layers: int, g: Cell)
    requires InGrid(c, layers, g)
    ensures 0 <= RowMajor(c, g) < layers * c.gridSizeZ * c.gridSizeX
  {
    MixedRadix(g.y - c.minGridY, c.gridSizeZ, g.z - c.minGridZ, layers);
    MixedRadix((g.y - c.minGridY) * c.gridSizeZ + (g.z - c.minGridZ), c.gridSizeX, g.x - c.minGridX,
      layers * c.gridSizeZ);
  }

  /** Different cells of the grid have different numbers. */
  lemma RowMajorUnique(c: Call, layers: int, g: Cell, h: Cell)
    requires InGrid(c, layers, g) && InGrid(c, layers, h) && RowMajor(c, g) == RowMajor(c, h)
    ensures g == h
  {
    MixedRadixUnique((g.y - c.minGridY) * c.gridSizeZ + (g.z - c.minGridZ), g.x - c.minGridX,
      (h.y - c.minGridY) * c.gridSizeZ + (h.z - c.minGridZ), h.x - c.minGridX, c.gridSizeX);
    MixedRadixUnique(g.y - c.minGridY, g.z - c.minGridZ, h.y - c.minGridY, h.z - c.minGridZ, c.gridSizeZ);
  }

  lemma ScansCell(source: seq<Long>, c: Call, layers: int, b: Cell, g: Cell)
    requires BoxInGrid(source, c, layers, b) && Around(b, g)
    ensures 0 <= Turn(b, g) < 12 && 0 <= RowMajor(c, g) < |source| && Indices(c)[Turn(b, g)] == RowMajor(c, g)
  {
    ScansAround(c, b, g);
    RowMajorInside(c, layers, g);
    SmallIsKept(RowMajor(c, g));
  }

  lemma SmallIsKept(v: int)
    requires 0 <= v <= INT_MAX
    ensures Wrap32(v) == v
  {
  }

  lemma ScansDistinct(source: seq<Long>, c: Call, layers: int, b: Cell, m: nat, n: nat)
    requires BoxInGrid(source, c, layers, b) && m < n < 12
    ensures Indices(c)[m] != Indices(c)[n]
  {
    var g := Turned(b, m);
    var h := Turned(b, n);
    ScansCell(source, c, layers, b, g);
    ScansCell(source, c, layers, b, h);
    if RowMajor(c, g) == RowMajor(c, h) {
      RowMajorUnique(c, layers, g, h);
    }
  }

  /** Inside the grid nothing wraps: the scan looks at the slots of the cells around the block, at each once. */
  lemma ScansEachOnce(source: seq<Long>, c: Call, layers: int, b: Cell)
    requires BoxInGrid(source, c, layers, b)
    ensures forall g :: Around(b, g) ==>
      0 <= Turn(b, g) < 12 && 0 <= RowMajor(c, g) < |source| && Indices(c)[Turn(b, g)] == RowMajor(c, g)
    ensures forall m, n :: 0 <= m < n < 12 ==> Indices(c)[m] != Indices(c)[n]
  {
    forall g | Around(b, g)
      ensures 0 <= Turn(b, g) < 12 && 0 <= RowMajor(c, g) < |source| && Indices(c)[Turn(b, g)] == RowMajor(c, g)
    {
      ScansCell(source, c, layers, b, g);
    }
    forall m, n | 0 <= m < n < 12 ensures Indices(c)[m] != Indices(c)[n] {
      ScansDistinct(source, c, layers, b, m, n);
    }
  }

  /** So inside the grid the plain scan never faults, and the cached one agrees with it for every sound cache. */
  lemma GridStaysInside(source: seq<Long>, c: Call, layers: int, b: Cell)
    requires BoxInGrid(source, c, layers, b)
    ensures StaysInside(source, c)
  {
    forall k | 0 <= k < 12 ensures 0 <= Indices(c)[k] < |source| {
      var g := Turned(b, k);
      ScansCell(source, c, layers, b, g);
    }
  }

  lemma GridAgrees(source: seq<Long>, d: seq<Entry>, c: Call, layers: int, b: Cell)
    requires BoxInGrid(source, c, layers, b) && Sound(source, d)
    ensures CachedAnswer(source, d, c) == Answer(source, c)
  {
    GridStaysInside(source, c, layers, b);
    CachedAgrees(source, d, c);
  }

  // -------------------------------------------------- what is returned

  ghost function SquaredDistance(c: Call, p: Center): int {
    (p.x - c.blockX) * (p.x - c.blockX) + (p.y - c.blockY) * (p.y - c.blockY) + (p.z - c.blockZ) * (p.z - c.blockZ)
  }

  lemma SquaresAre(square: int -> int, c: Call, p: Center)
    requires IsSquare(square)
    ensures TrueSquares(square, c, p) == SquaredDistance(c, p)
  {
    assert Squared(p.x - c.blockX as int) && Squared(p.y - c.blockY as int) && Squared(p.z - c.blockZ as int);
  }

  /** The 32-bit distance is the squared distance wrapped once. */
  lemma DistanceIsSquared(c: Call, p: Center)
    ensures Distance(c, p) == Wrap32(SquaredDistance(c, p))
  {
    var square := Squaring();
    DistanceIsWrapped(square, c, p);
    SquaresAre(square, c, p);
  }

  /** The center kept for a cell, as a candidate of the scan. */
  ghost function CenterIn(source: seq<Long>, c: Call, b: Cell, g: Cell): Candidate
    requires 0 <= RowMajor(c, g) < |source| <= INT_MAX
  {
    Candidate(Wrap32(SquaredDistance(c, Decode(source[RowMajor(c, g)]))), RowMajor(c, g), Turn(b, g))
  }

  /** An unfilled slot holds Long.MAX_VALUE. */
  ghost predicate FilledIn(source: seq<Long>, c: Call, g: Cell) {
    0 <= RowMajor(c, g) < |source| && source[RowMajor(c, g)] != 0x7fff_ffff_ffff_ffff
  }

  ghost predicate AllFilled(source: seq<Long>, c: Call, b: Cell) {
    forall g :: Around(b, g) ==> FilledIn(source, c, g)
  }

  /** What the scan sees at the place of a cell. */
  lemma CellLook(source: seq<Long>, c: Call, layers: int, b: Cell, g: Cell)
    requires BoxInGrid(source, c, layers, b) && Around(b, g)
    ensures 0 <= RowMajor(c, g) < |source| && 0 <= Turn(b, g) < 12 && Indices(c)[Turn(b, g)] == RowMajor(c, g)
    ensures Looks(source, c, Indices(c))[Turn(b, g)] ==
      if FilledIn(source, c, g) then At(CenterIn(source, c, b, g).distance) else Unfilled
  {
    ScansCell(source, c, layers, b, g);
    if FilledIn(source, c, g) {
      DistanceIsSquared(c, Decode(source[RowMajor(c, g)]));
    }
  }

  /** Inside the grid a scan is not ready exactly when a cell around the block is unfilled. */
  lemma ReadyExactly(source: seq<Long>, c: Call, layers: int, b: Cell)
    requires BoxInGrid(source, c, layers, b)
    ensures Answer(source, c) == NotReady <==> !AllFilled(source, c, b)
  {
    var looks := Looks(source, c, Indices(c));
    GridStaysInside(source, c, layers, b);
    OutsideExactly(source, c);
    if AllFilled(source, c, b) {
      var t := NearestInGrid(source, c, layers, b);
    } else {
      var g :| Around(b, g) && !FilledIn(source, c, g);
      CellLook(source, c, layers, b, g);
      ScanStops(looks, Indices(c), 0, Empty());
    }
  }

  /**
   Inside the grid, over filled slots, the scan returns the first four of the twelve centers around the block
   in ascending order of their distances, the later-scanned first among equals.
   */
  lemma NearestInGrid(source: seq<Long>, c: Call, layers: int, b: Cell) returns (t: seq<Candidate>)
    requires BoxInGrid(source, c, layers, b) && AllFilled(source, c, b)
    ensures |t| == 12 && Ordered(t)
    ensures forall g :: Around(b, g) ==> FilledIn(source, c, g) && CenterIn(source, c, b, g) in t
    ensures Answer(source, c) == Found(t[..4])
  {
    var l := Indices(c);
    var looks := Looks(source, c, l);
    forall k | 0 <= k < 12 ensures looks[k].At? {
      var g := Turned(b, k);
      CellLook(source, c, layers, b, g);
    }
    var centers := Candidates(looks, l);
    t := SortAll([], centers);
    SortAllSorts([], centers);
    ScanResult(looks, l, t);
    forall g | Around(b, g) ensures FilledIn(source, c, g) && CenterIn(source, c, b, g) in t {
      CellLook(source, c, layers, b, g);
      assert centers[Turn(b, g)] == CenterIn(source, c, b, g);
      assert CenterIn(source, c, b, g) in multiset(t);
    }
  }
}
