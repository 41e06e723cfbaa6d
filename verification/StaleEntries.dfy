/**
 When one entry of the cache of decoded centers, whatever it holds, gives the distances of the slot it
 stands for. Distances are 32-bit, so a coordinate that is off by 2^31 cannot be told apart.
 */
module StaleEntries {
  import opened NearestFour
  import opened Aquifer

  const WORD := 0x1_0000_0000
  const HALF := 0x8000_0000

  /** Congruence modulo 2^32. */
  ghost predicate Alike(a: int, b: int) {
    exists k: int :: a == b + WORD * k
  }

  lemma WrapAlike(v: int)
    ensures Alike(Wrap32(v), v)
  {
    var k := -((v + HALF) / WORD);
    assert Wrap32(v) == v + WORD * k;
  }

  /** Wrapping gives the one Int of a class. */
  lemma WrapExact(a: int, b: int)
    ensures Alike(a, b) <==> Wrap32(a) == Wrap32(b)
  {
    if Alike(a, b) {
      var k: int :| a == b + WORD * k;
      WrapShift(b, k);
    }
    if Wrap32(a) == Wrap32(b) {
      var q, r := (a + HALF) / WORD, (b + HALF) / WORD;
      assert a == b + WORD * (q - r);
    }
  }

  lemma WrapShift(b: int, k: int)
    ensures Wrap32(b + WORD * k) == Wrap32(b)
  {
    var q, r := (b + HALF) / WORD, (b + HALF) % WORD;
    assert b + WORD * k + HALF == WORD * (q + k) + r;
  }

  lemma AlikeTrans(a: int, b: int, c: int)
    requires Alike(a, b) && Alike(b, c)
    ensures Alike(a, c)
  {
    var k: int :| a == b + WORD * k;
    var l: int :| b == c + WORD * l;
    assert a == c + WORD * (k + l);
  }

  lemma AlikeSquare(a: int, b: int)
    requires Alike(a, b)
    ensures Alike(a * a, b * b)
  {
    var k: int :| a == b + WORD * k;
    SquareOfSum(b, WORD * k);
    assert (WORD * k) * (2 * b + WORD * k) == WORD * (k * (2 * b + WORD * k));
    assert a * a == b * b + WORD * (k * (2 * b + WORD * k));
  }

  lemma SquareOfSum(b: int, d: int)
    ensures (b + d) * (b + d) == b * b + d * (2 * b + d)
  {
  }

  lemma AlikeSum(a: int, b: int, c: int, d: int, e: int, f: int)
    requires Alike(a, b) && Alike(c, d) && Alike(e, f)
    ensures Alike(a + c + e, b + d + f)
  {
    var k: int :| a == b + WORD * k;
    var l: int :| c == d + WORD * l;
    var m: int :| e == f + WORD * m;
    assert a + c + e == b + d + f + WORD * (k + l + m);
  }

  predicate Squared(v: int) { true }

  /** Squaring under another name; the product is at hand only where Squared is mentioned. */
  ghost predicate IsSquare(square: int -> int) {
    forall v: int {:trigger Squared(v)} :: square(v) == v * v
  }

  lemma Squaring() returns (square: int -> int)
    ensures IsSquare(square)
  {
    square := (v: int) => v * v;
  }

  /** The square of the true distance. */
  ghost function TrueSquares(square: int -> int, c: Call, center: Center): int {
    square(center.x - c.blockX as int) + square(center.y - c.blockY as int) + square(center.z - c.blockZ as int)
  }

  lemma WrappedSquare(square: int -> int, a: Int, b: Int)
    requires IsSquare(square)
    ensures Alike(Mul(Sub(a, b), Sub(a, b)), square(a - b as int))
  {
    var d := Sub(a, b);
    assert Squared(a - b as int);
    WrapAlike(a - b as int);
    AlikeSquare(d, a - b as int);
    WrapAlike(d as int * d as int);
    AlikeTrans(Mul(d, d), d as int * d as int, square(a - b as int));
  }

  /** All the wrapping may be left to the end. */
  lemma DistanceIsWrapped(square: int -> int, c: Call, center: Center)
    requires IsSquare(square)
    ensures Distance(c, center) == Wrap32(TrueSquares(square, c, center))
  {
    var x := Mul(Sub(center.x, c.blockX), Sub(center.x, c.blockX));
    var y := Mul(Sub(center.y, c.blockY), Sub(center.y, c.blockY));
    var z := Mul(Sub(center.z, c.blockZ), Sub(center.z, c.blockZ));
    WrapOnce(x, y, z);
    WrappedSquares(square, c, center, x, y, z);
    WrapExact(x as int + y as int + z as int, TrueSquares(square, c, center));
  }

  lemma WrappedSquares(square: int -> int, c: Call, center: Center, x: Int, y: Int, z: Int)
    requires IsSquare(square)
    requires x == Mul(Sub(center.x, c.blockX), Sub(center.x, c.blockX))
    requires y == Mul(Sub(center.y, c.blockY), Sub(center.y, c.blockY))
    requires z == Mul(Sub(center.z, c.blockZ), Sub(center.z, c.blockZ))
    ensures Alike(x as int + y as int + z as int, TrueSquares(square, c, center))
  {
    WrappedSquare(square, center.x, c.blockX);
    WrappedSquare(square, center.y, c.blockY);
    WrappedSquare(square, center.z, c.blockZ);
    AlikeSum(x, square(center.x - c.blockX as int), y, square(center.y - c.blockY as int), z,
      square(center.z - c.blockZ as int));
  }

  // -------------------------------------------- what distances can tell

  /** The coordinates differ by a multiple of 2^31. */
  predicate HalfApart(a: Int, b: Int) {
    (a as int - b as int) % HALF == 0
  }

  predicate Indistinct(e: Center, p: Center) {
    HalfApart(e.x, p.x) && HalfApart(e.y, p.y) && HalfApart(e.z, p.z)
  }

  lemma HalfSquare(square: int -> int, a: Int, b: Int, block: Int)
    requires IsSquare(square) && HalfApart(a, b)
    ensures Alike(square(a - block as int), square(b - block as int))
  {
    var m := (a as int - b as int) / HALF;
    var d := b - block as int;
    assert a - block as int == d + HALF * m;
    assert Squared(d) && Squared(d + HALF * m);
    SquareOfSum(d, HALF * m);
    HalfTimes(d, m);
    assert square(d + HALF * m) == square(d) + WORD * (m * d + 0x4000_0000 * (m * m));
  }

  lemma HalfTimes(d: int, m: int)
    ensures (HALF * m) * (2 * d + HALF * m) == WORD * (m * d + 0x4000_0000 * (m * m))
  {
  }

  lemma IndistinctDistances(c: Call, e: Center, p: Center)
    requires Indistinct(e, p)
    ensures Distance(c, e) == Distance(c, p)
  {
    var square := Squaring();
    IndistinctSquares(square, c, e, p);
    DistanceIsWrapped(square, c, e);
    DistanceIsWrapped(square, c, p);
    WrapExact(TrueSquares(square, c, e), TrueSquares(square, c, p));
  }

  lemma IndistinctSquares(square: int -> int, c: Call, e: Center, p: Center)
    requires IsSquare(square) && Indistinct(e, p)
    ensures Alike(TrueSquares(square, c, e), TrueSquares(square, c, p))
  {
    HalfSquare(square, e.x, p.x, c.blockX);
    HalfSquare(square, e.y, p.y, c.blockY);
    HalfSquare(square, e.z, p.z, c.blockZ);
    AlikeSum(square(e.x - c.blockX as int), square(p.x - c.blockX as int),
      square(e.y - c.blockY as int), square(p.y - c.blockY as int),
      square(e.z - c.blockZ as int), square(p.z - c.blockZ as int));
  }

  /** A call for the block at a center. */
  function Standing(b: Center): Call {
    Call(0, 0, 0, 0, 0, b.x, b.y, b.z)
  }

  /** A neighbouring coordinate. */
  function Beside(v: Int): Int {
    if v < 0x7fff_ffff then v + 1 else v - 1
  }

  /** The squares at a center and beside it give a half of the difference away. */
  lemma DifferenceShows(square: int -> int, a: Int, b: Int, rest: int)
    requires IsSquare(square)
    requires Alike(square(a - b as int) + rest, 0) && Alike(square(a - Beside(b) as int) + rest, 1)
    ensures HalfApart(a, b)
  {
    var d, s := a - b as int, Beside(b) - b as int;
    var k: int :| square(d) + rest == 0 + WORD * k;
    assert a - Beside(b) as int == d - s;
    var l: int :| square(d - s) + rest == 1 + WORD * l;
    SquareNext(square, d, s);
    Multiple(d, if s == 1 then k - l else l - k);
  }

  lemma SquareNext(square: int -> int, d: int, s: int)
    requires IsSquare(square) && (s == 1 || s == -1)
    ensures square(d - s) == square(d) - (if s == 1 then 2 * d else -2 * d) + 1
  {
    assert Squared(d) && Squared(d - s);
  }

  lemma Multiple(d: int, m: int)
    requires 2 * d == WORD * m
    ensures d % HALF == 0
  {
    assert d == HALF * m;
  }

  predicate Asked(c: Call) { true }

  /** No call tells the two centers apart; an instance is at hand only where Asked is mentioned. */
  ghost predicate SameDistances(e: Center, p: Center) {
    forall c: Call {:trigger Asked(c)} :: Distance(c, e) == Distance(c, p)
  }

  lemma DistancesTell(e: Center, p: Center)
    requires SameDistances(e, p)
    ensures Indistinct(e, p)
  {
    var square := Squaring();
    assert Squared(0) && Squared(1) && Squared(-1);
    Told(square, e, p, p);
    TellX(square, e, p);
    TellY(square, e, p);
    TellZ(square, e, p);
  }

  lemma TellX(square: int -> int, e: Center, p: Center)
    requires IsSquare(square) && SameDistances(e, p) && square(0) == 0 && square(1) == square(-1) == 1
    ensures HalfApart(e.x, p.x)
  {
    Told(square, e, p, p);
    Told(square, e, p, p.(x := Beside(p.x)));
    DifferenceShows(square, e.x, p.x, square(e.y - p.y as int) + square(e.z - p.z as int));
  }

  lemma TellY(square: int -> int, e: Center, p: Center)
    requires IsSquare(square) && SameDistances(e, p) && square(0) == 0 && square(1) == square(-1) == 1
    ensures HalfApart(e.y, p.y)
  {
    Told(square, e, p, p);
    Told(square, e, p, p.(y := Beside(p.y)));
    DifferenceShows(square, e.y, p.y, square(e.x - p.x as int) + square(e.z - p.z as int));
  }

  lemma TellZ(square: int -> int, e: Center, p: Center)
    requires IsSquare(square) && SameDistances(e, p) && square(0) == 0 && square(1) == square(-1) == 1
    ensures HalfApart(e.z, p.z)
  {
    Told(square, e, p, p);
    Told(square, e, p, p.(z := Beside(p.z)));
    DifferenceShows(square, e.z, p.z, square(e.x - p.x as int) + square(e.y - p.y as int));
  }

  lemma Told(square: int -> int, e: Center, p: Center, block: Center)
    requires IsSquare(square) && SameDistances(e, p)
    ensures Alike(TrueSquares(square, Standing(block), e), TrueSquares(square, Standing(block), p))
  {
    var c := Standing(block);
    assert Asked(c);
    DistanceIsWrapped(square, c, e);
    DistanceIsWrapped(square, c, p);
    WrapExact(TrueSquares(square, c, e), TrueSquares(square, c, p));
  }

  // ------------------------------------------------------ one entry

  /** The cached scan sees an index inside the array as the plain scan does, whatever the call. */
  ghost predicate SeenRight(source: seq<Long>, d: seq<Entry>, i: Int)
    requires |d| == |source|
  {
    forall c :: CachedLookAt(source, d, c, i) == LookAt(source, c, i)
  }

  lemma SeenRightExactly(source: seq<Long>, d: seq<Entry>, i: Int)
    requires |d| == |source| && 0 <= i < |source|
    ensures SeenRight(source, d, i) <==>
      !d[i].ready || source[i] == SENTINEL || Indistinct(d[i].center, Decode(source[i]))
  {
    var e := Seen(source[i], d[i]);
    DecodingsAgree(source[i]);
    if source[i] != SENTINEL {
      forall c ensures CachedLookAt(source, d, c, i) == At(Distance(c, e)) {
        DistancesAgree(c, e);
      }
      if Indistinct(e, Decode(source[i])) {
        forall c ensures CachedLookAt(source, d, c, i) == LookAt(source, c, i) {
          IndistinctDistances(c, e, Decode(source[i]));
        }
      }
      if SeenRight(source, d, i) {
        forall c: Call ensures Distance(c, e) == Distance(c, Decode(source[i])) {
          assert CachedLookAt(source, d, c, i) == LookAt(source, c, i);
        }
        DistancesTell(e, Decode(source[i]));
      }
    }
  }

  /** Every ready entry was decoded from some long, of the present source or of an earlier one. */
  ghost predicate DecodedCache(d: seq<Entry>) {
    forall i :: 0 <= i < |d| && d[i].ready ==> exists p: Long :: d[i].center == Decode(p)
  }

  /** Calls keep the cache that way, whatever the source holds by then. */
  lemma StaysDecoded(source: seq<Long>, d: seq<Entry>, c: Call)
    requires |d| == |source| && DecodedCache(d)
    ensures DecodedCache(CacheAfter(source, d, c))
  {
    FilledDecoded(source, d, Indices(c), Passed(CachedLooks(source, d, c, Indices(c)), 0));
  }

  lemma {:induction false} FilledDecoded(source: seq<Long>, d: seq<Entry>, l: seq<Int>, k: nat)
    requires |d| == |source| && DecodedCache(d) && k <= |l|
    ensures DecodedCache(Filled(source, d, l, k))
    decreases k
  {
    if k > 0 {
      FilledDecoded(source, d, l, k - 1);
      if 0 <= l[k - 1] < |source| {
        DecodingsAgree(source[l[k - 1]]);
      }
    }
  }

  /** Such an entry is seen right for every call exactly when it is the center of its slot. */
  lemma EntryExactly(source: seq<Long>, d: seq<Entry>, i: Int)
    requires |d| == |source| && 0 <= i < |source| && DecodedCache(d)
    ensures SeenRight(source, d, i) <==>
      !d[i].ready || source[i] == SENTINEL || d[i].center == Decode(source[i])
  {
    SeenRightExactly(source, d, i);
    if d[i].ready {
      var p: Long :| d[i].center == Decode(p);
      DecodeSmall(p);
      DecodeSmall(source[i]);
      var e, q := Decode(p), Decode(source[i]);
      SmallHalf(e.x, q.x);
      SmallHalf(e.y, q.y);
      SmallHalf(e.z, q.z);
    }
  }

  lemma SmallHalf(a: Int, b: Int)
    requires -0x200_0000 <= a < 0x200_0000 && -0x200_0000 <= b < 0x200_0000
    ensures HalfApart(a, b) <==> a == b
  {
  }

  lemma DecodeSmall(p: Long)
    ensures var c := Decode(p);
      && -0x200_0000 <= c.x < 0x200_0000 && -0x200_0000 <= c.y < 0x200_0000 && -0x200_0000 <= c.z < 0x200_0000
  {
    var x, z, y := Fields(p);
    FieldX(p, x, z, y);
    FieldY(p, x, z, y);
    FieldZ(p, x, z, y);
    SmallWrap(Signed(y, 0x800), Signed(z, 0x200_0000));
  }
}
