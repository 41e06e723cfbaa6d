/**
 BrowserAquifer.selectNearestCached: the uncached JVM scan and the JavaScript scan with its cache of
 decoded centers, on 32-bit and 64-bit signed arithmetic.
 */
module Aquifer {
  import opened NearestFour

  type Long = x: int | -0x8000_0000_0000_0000 <= x < 0x8000_0000_0000_0000

  const SENTINEL: Long := 0x7fff_ffff_ffff_ffff

  // --------------------------------------------------- machine arithmetic

  function Wrap32(v: int): Int {
    (v + 0x8000_0000) % 0x1_0000_0000 - 0x8000_0000
  }

  function Wrap64(v: int): Long {
    (v + 0x8000_0000_0000_0000) % 0x1_0000_0000_0000_0000 - 0x8000_0000_0000_0000
  }

  function Add(a: Int, b: Int): Int { Wrap32(a as int + b as int) }

  function Sub(a: Int, b: Int): Int { Wrap32(a as int - b as int) }

  function Mul(a: Int, b: Int): Int { Wrap32(a as int * b as int) }

  /** Three 32-bit terms may be wrapped once or after every addition. */
  lemma WrapOnce(a: Int, b: Int, c: Int)
    ensures Add(Add(a, b), c) == Wrap32(a as int + b as int + c as int)
  {
    var k := WrapBy(a as int + b as int);
    WrapAgain(a as int + b as int + c as int, k);
  }

  /** Wrapping subtracts a multiple of 2^32. */
  lemma WrapBy(v: int) returns (k: int)
    ensures Wrap32(v) == v - 0x1_0000_0000 * k
  {
    k := (v + 0x8000_0000) / 0x1_0000_0000;
  }

  lemma WrapAgain(v: int, k: int)
    ensures Wrap32(v - 0x1_0000_0000 * k) == Wrap32(v)
  {
    var q, r := (v + 0x8000_0000) / 0x1_0000_0000, (v + 0x8000_0000) % 0x1_0000_0000;
    assert v - 0x1_0000_0000 * k + 0x8000_0000 == 0x1_0000_0000 * (q - k) + r;
  }

  // ------------------------------------------------- packed positions

  datatype Center = Center(x: Int, y: Int, z: Int)

  /** Java: arithmetic shifts on a long, then a cast. */
  function Decode(p: Long): Center {
    Center(Wrap32(p / 0x40_0000_0000),
           Wrap32(Wrap64(p * 0x10_0000_0000_0000) / 0x10_0000_0000_0000),
           Wrap32(Wrap64(p * 0x400_0000) / 0x40_0000_0000))
  }

  function AsInt26(v: int): int { (v + 0x200_0000) % 0x400_0000 - 0x200_0000 }

  function AsInt12(v: int): int { (v + 0x800) % 0x1000 - 0x800 }

  /** JavaScript: BigInt shifts and asIntN, then `| 0`. */
  function DecodeBigInt(p: Long): Center {
    Center(Wrap32(AsInt26(p / 0x40_0000_0000)), Wrap32(AsInt12(p)), Wrap32(AsInt26(p / 0x1000)))
  }

  /** A position as its three fields. */
  lemma Fields(p: Long) returns (x: int, z: int, y: int)
    ensures p == 0x40_0000_0000 * x + 0x1000 * z + y
    ensures -0x200_0000 <= x < 0x200_0000 && 0 <= z < 0x400_0000 && 0 <= y < 0x1000
  {
    x := p / 0x40_0000_0000;
    var low := p % 0x40_0000_0000;
    z, y := low / 0x1000, low % 0x1000;
  }

  lemma WrapUnique(v: int, k: int, r: Long)
    requires v == 0x1_0000_0000_0000_0000 * k + r
    ensures Wrap64(v) == r
  {
  }

  lemma FieldX(p: Long, x: int, z: int, y: int)
    requires p == 0x40_0000_0000 * x + 0x1000 * z + y
    requires -0x200_0000 <= x < 0x200_0000 && 0 <= z < 0x400_0000 && 0 <= y < 0x1000
    ensures p / 0x40_0000_0000 == x && AsInt26(x) == x && Wrap32(x) == x
  {
  }

  function Signed(v: int, half: int): int {
    if v < half then v else v - 2 * half
  }

  lemma FieldY(p: Long, x: int, z: int, y: int)
    requires p == 0x40_0000_0000 * x + 0x1000 * z + y
    requires -0x200_0000 <= x < 0x200_0000 && 0 <= z < 0x400_0000 && 0 <= y < 0x1000
    ensures AsInt12(p) == Signed(y, 0x800)
    ensures Wrap64(p * 0x10_0000_0000_0000) / 0x10_0000_0000_0000 == Signed(y, 0x800)
  {
    var above := 0x400_0000 * x + z;
    assert p == 0x1000 * above + y;
    var k := if y < 0x800 then above else above + 1;
    WrapUnique(p * 0x10_0000_0000_0000, k, 0x10_0000_0000_0000 * Signed(y, 0x800));
  }

  lemma FieldZ(p: Long, x: int, z: int, y: int)
    requires p == 0x40_0000_0000 * x + 0x1000 * z + y
    requires -0x200_0000 <= x < 0x200_0000 && 0 <= z < 0x400_0000 && 0 <= y < 0x1000
    ensures p / 0x1000 == 0x400_0000 * x + z && AsInt26(p / 0x1000) == Signed(z, 0x200_0000)
    ensures Wrap64(p * 0x400_0000) / 0x40_0000_0000 == Signed(z, 0x200_0000)
  {
    var k := if z < 0x200_0000 then x else x + 1;
    WrapUnique(p * 0x400_0000, k, 0x40_0000_0000 * Signed(z, 0x200_0000) + 0x400_0000 * y);
  }

  /** The two decodings agree, and they lose nothing: two's complement fields of 26, 26 and 12 bits. */
  lemma DecodingsAgree(p: Long)
    ensures DecodeBigInt(p) == Decode(p)
    ensures -0x200_0000 <= Decode(p).x < 0x200_0000 && -0x200_0000 <= Decode(p).z < 0x200_0000
    ensures -0x800 <= Decode(p).y < 0x800
    ensures p == 0x40_0000_0000 * Decode(p).x + 0x1000 * (Decode(p).z % 0x400_0000) + Decode(p).y % 0x1000
  {
    var x, z, y := Fields(p);
    DecodedFields(p, x, z, y);
    SignedBack(y, z);
  }

  lemma DecodedFields(p: Long, x: int, z: int, y: int)
    requires p == 0x40_0000_0000 * x + 0x1000 * z + y
    requires -0x200_0000 <= x < 0x200_0000 && 0 <= z < 0x400_0000 && 0 <= y < 0x1000
    ensures Decode(p) == DecodeBigInt(p) == Center(x, Signed(y, 0x800), Signed(z, 0x200_0000))
  {
    FieldX(p, x, z, y);
    FieldY(p, x, z, y);
    FieldZ(p, x, z, y);
    SmallWrap(Signed(y, 0x800), Signed(z, 0x200_0000));
  }

  /** The two's complement reading of a field loses nothing. */
  lemma SignedBack(y: int, z: int)
    requires 0 <= y < 0x1000 && 0 <= z < 0x400_0000
    ensures Signed(y, 0x800) % 0x1000 == y && Signed(z, 0x200_0000) % 0x400_0000 == z
  {
  }

  lemma SmallWrap(a: int, b: int)
    requires -0x200_0000 <= a < 0x200_0000 && -0x200_0000 <= b < 0x200_0000
    ensures Wrap32(a) == a && Wrap32(b) == b
  {
  }

  // -------------------------------------------------------- the scan

  datatype Call = Call(minGridX: Int, minGridY: Int, minGridZ: Int, gridSizeX: Int, gridSizeZ: Int,
                       blockX: Int, blockY: Int, blockZ: Int)

  /** Cache index of a grid cell. */
  function IndexIn(c: Call, gridX: Int, gridY: Int, gridZ: Int): Int {
    Add(Mul(Add(Mul(Sub(gridY, c.minGridY), c.gridSizeZ), Sub(gridZ, c.minGridZ)), c.gridSizeX), Sub(gridX, c.minGridX))
  }

  /** Cache index of the candidate at an offset from the block's own grid cell. */
  function IndexAt(c: Call, offsetX: Int, offsetY: Int, offsetZ: Int): Int {
    IndexIn(c, Add(Sub(c.blockX, 5) / 16, offsetX), Add(Add(c.blockY, 1) / 12, offsetY),
      Add(Sub(c.blockZ, 5) / 16, offsetZ))
  }

  /** The twelve candidates in scan order: x outermost, z innermost. */
  function Indices(c: Call): (l: seq<Int>)
    ensures |l| == 12
  {
    seq(12, n requires 0 <= n < 12 => IndexAt(c, n / 6, n / 2 % 3 - 1, n % 2))
  }

  /** The nested loops visit the candidates in the order of Indices. */
  lemma Order(c: Call, offsetX: int, offsetY: int, offsetZ: int)
    requires 0 <= offsetX <= 1 && -1 <= offsetY <= 1 && 0 <= offsetZ <= 1
    ensures 0 <= 6 * offsetX + 2 * (offsetY + 1) + offsetZ < 12
    ensures Indices(c)[6 * offsetX + 2 * (offsetY + 1) + offsetZ] == IndexAt(c, offsetX, offsetY, offsetZ)
  {
    var n := 6 * offsetX + 2 * (offsetY + 1) + offsetZ;
    Digits(n, offsetX, offsetY, offsetZ);
    assert Indices(c)[n] == IndexAt(c, n / 6, n / 2 % 3 - 1, n % 2);
  }

  lemma Digits(n: int, x: int, y: int, z: int)
    requires n == 6 * x + 2 * (y + 1) + z && 0 <= x <= 1 && -1 <= y <= 1 && 0 <= z <= 1
    ensures n / 6 == x && n / 2 % 3 - 1 == y && n % 2 == z
  {
    assert n / 2 == 3 * x + (y + 1);
  }

  /** Squared distance in 32-bit arithmetic. */
  function Distance(c: Call, center: Center): Int {
    var dx, dy, dz := Sub(center.x, c.blockX), Sub(center.y, c.blockY), Sub(center.z, c.blockZ);
    Add(Add(Mul(dx, dx), Mul(dy, dy)), Mul(dz, dz))
  }

  /** What a scan sees at one index: no slot at all, an unfilled slot, or a center at a distance. */
  datatype Look = Away | Unfilled | At(distance: Int)

  datatype Outcome = NotReady | Outside | Found(slots: seq<Candidate>)

  function LookAt(source: seq<Long>, c: Call, i: Int): Look {
    if !(0 <= i < |source|) then Away
    else if source[i] == SENTINEL then Unfilled
    else At(Distance(c, Decode(source[i])))
  }

  function Looks(source: seq<Long>, c: Call, l: seq<Int>): (r: seq<Look>)
    ensures |r| == |l|
  {
    seq(|l|, n requires 0 <= n < |l| => LookAt(source, c, l[n]))
  }

  /** The scan from candidate k on, with the slots filled so far. */
  function Scan(looks: seq<Look>, l: seq<Int>, k: nat, s: seq<Candidate>): Outcome
    requires k <= |l| == |looks|
    decreases |l| - k
  {
    if k == |l| then Found(s)
    else match looks[k]
      case Away => Outside
      case Unfilled => NotReady
      case At(distance) => Scan(looks, l, k + 1, Insert(s, Candidate(distance, l[k], k)))
  }

  /** The number of candidates a scan gets through. */
  function Passed(looks: seq<Look>, k: nat): (r: nat)
    requires k <= |looks|
    ensures k <= r <= |looks|
    ensures forall i :: k <= i < r ==> looks[i].At?
    ensures r < |looks| ==> !looks[r].At?
    decreases |looks| - k
  {
    if k < |looks| && looks[k].At? then Passed(looks, k + 1) else k
  }

  function Candidates(looks: seq<Look>, l: seq<Int>): (r: seq<Candidate>)
    requires |l| == |looks| && forall i :: 0 <= i < |l| ==> looks[i].At?
    ensures |r| == |l|
  {
    seq(|l|, i requires 0 <= i < |l| => Candidate(looks[i].distance, l[i], i))
  }

  lemma {:induction false} ScanInserts(looks: seq<Look>, l: seq<Int>, k: nat)
    requires k <= |l| == |looks| && forall i :: 0 <= i < |l| ==> looks[i].At?
    ensures Scan(looks, l, k, InsertAll(Empty(), Candidates(looks, l)[..k])) ==
      Found(InsertAll(Empty(), Candidates(looks, l)))
    decreases |l| - k
  {
    var cs := Candidates(looks, l);
    if k < |l| {
      assert cs[..k + 1][..k] == cs[..k];
      ScanInserts(looks, l, k + 1);
    } else {
      assert cs[..k] == cs;
    }
  }

  lemma {:induction false} ScanStops(looks: seq<Look>, l: seq<Int>, k: nat, s: seq<Candidate>)
    requires k <= |l| == |looks| && Passed(looks, k) < |l|
    ensures Scan(looks, l, k, s) == if looks[Passed(looks, k)].Away? then Outside else NotReady
    decreases |l| - k
  {
    if looks[k].At? {
      ScanStops(looks, l, k + 1, Insert(s, Candidate(looks[k].distance, l[k], k)));
    }
  }

  /**
   A scan that gets through all its candidates returns the nearest four, ordered; any other reports why it
   stopped.
   */
  lemma ScanResult(looks: seq<Look>, l: seq<Int>, t: seq<Candidate>)
    requires |l| == |looks| >= 4
    ensures Passed(looks, 0) < |l| ==>
      Scan(looks, l, 0, Empty()) == if looks[Passed(looks, 0)].Away? then Outside else NotReady
    ensures Passed(looks, 0) == |l| && Ordered(t) && multiset(t) == multiset(Candidates(looks, l)) ==>
      |t| >= 4 && Scan(looks, l, 0, Empty()) == Found(t[..4])
  {
    if Passed(looks, 0) < |l| {
      ScanStops(looks, l, 0, Empty());
    } else {
      ScanInserts(looks, l, 0);
      assert Candidates(looks, l)[..0] == [];
      if Ordered(t) && multiset(t) == multiset(Candidates(looks, l)) {
        NearestFourOfAll(Candidates(looks, l), t);
      }
    }
  }

  /** The answer of the plain scan. */
  function Answer(source: seq<Long>, c: Call): Outcome {
    Scan(Looks(source, c, Indices(c)), Indices(c), 0, Empty())
  }

  // ------------------------------------------------- staying inside

  predicate HasCenter(source: seq<Long>, i: Int) {
    0 <= i < |source| && source[i] != SENTINEL
  }

  /** An index lies inside the array wherever all the earlier ones meet filled slots. */
  ghost predicate StaysInside(source: seq<Long>, c: Call) {
    forall k :: 0 <= k < 12 && MeetsCenters(source, c, k) ==> 0 <= Indices(c)[k] < |source|
  }

  ghost predicate MeetsCenters(source: seq<Long>, c: Call, k: nat)
    requires k <= 12
  {
    forall j :: 0 <= j < k ==> HasCenter(source, Indices(c)[j])
  }

  /** The plain scan faults exactly when some index leaves the array before an unfilled slot ends the scan. */
  lemma OutsideExactly(source: seq<Long>, c: Call)
    ensures Answer(source, c) != Outside <==> StaysInside(source, c)
  {
    var l := Indices(c);
    var looks := Looks(source, c, l);
    var p := Passed(looks, 0);
    assert forall k :: 0 <= k < 12 ==> (looks[k].At? <==> HasCenter(source, l[k]));
    if p < 12 {
      ScanStops(looks, l, 0, Empty());
      assert MeetsCenters(source, c, p);
      assert forall k :: p < k < 12 ==> !MeetsCenters(source, c, k);
    } else {
      ScanInserts(looks, l, 0);
      assert Candidates(looks, l)[..0] == [];
    }
  }

  // ---------------------------------------------------- the cached scan

  /** One slot of the cache of decoded centers. */
  datatype Entry = Entry(ready: bool, center: Center)

  /** The center that the cached scan uses for a filled slot. */
  function Seen(p: Long, e: Entry): Center {
    if e.ready then e.center else DecodeBigInt(p)
  }

  /** JavaScript sums the squares exactly and wraps once. */
  function DistanceBigSum(c: Call, center: Center): Int {
    var dx, dy, dz := Sub(center.x, c.blockX), Sub(center.y, c.blockY), Sub(center.z, c.blockZ);
    Wrap32(Mul(dx, dx) as int + Mul(dy, dy) as int + Mul(dz, dz) as int)
  }

  /** Outside the array JavaScript reads undefined, which is no sentinel and gives distance 0. */
  function CachedLookAt(source: seq<Long>, d: seq<Entry>, c: Call, i: Int): Look
    requires |d| == |source|
  {
    if !(0 <= i < |source|) then At(0)
    else if source[i] == SENTINEL then Unfilled
    else At(DistanceBigSum(c, Seen(source[i], d[i])))
  }

  function CachedLooks(source: seq<Long>, d: seq<Entry>, c: Call, l: seq<Int>): (r: seq<Look>)
    requires |d| == |source|
    ensures |r| == |l|
  {
    seq(|l|, n requires 0 <= n < |l| => CachedLookAt(source, d, c, l[n]))
  }

  /** The cache after the first k candidates of l. */
  function Filled(source: seq<Long>, d: seq<Entry>, l: seq<Int>, k: nat): (r: seq<Entry>)
    requires |d| == |source| && k <= |l|
    ensures |r| == |d|
    decreases k
  {
    if k == 0 then d
    else
      var e := Filled(source, d, l, k - 1);
      var i := l[k - 1];
      if 0 <= i < |source| && !e[i].ready then e[i := Entry(true, DecodeBigInt(source[i]))] else e
  }

  function CachedAnswer(source: seq<Long>, d: seq<Entry>, c: Call): Outcome
    requires |d| == |source|
  {
    Scan(CachedLooks(source, d, c, Indices(c)), Indices(c), 0, Empty())
  }

  /** A scan that stops part-way keeps what it decoded up to there. */
  function CacheAfter(source: seq<Long>, d: seq<Entry>, c: Call): (r: seq<Entry>)
    requires |d| == |source|
    ensures |r| == |d|
  {
    Filled(source, d, Indices(c), Passed(CachedLooks(source, d, c, Indices(c)), 0))
  }

  /** Every ready entry holds the center of a filled slot. */
  ghost predicate Sound(source: seq<Long>, d: seq<Entry>) {
    |d| == |source| && forall i :: 0 <= i < |d| && d[i].ready ==>
      source[i] != SENTINEL && d[i].center == Decode(source[i])
  }

  lemma {:induction false} FilledSound(source: seq<Long>, d: seq<Entry>, l: seq<Int>, k: nat)
    requires Sound(source, d) && k <= |l|
    requires forall i :: 0 <= i < k && 0 <= l[i] < |source| ==> source[l[i]] != SENTINEL
    ensures Sound(source, Filled(source, d, l, k))
    decreases k
  {
    if k > 0 {
      FilledSound(source, d, l, k - 1);
      if 0 <= l[k - 1] < |source| {
        DecodingsAgree(source[l[k - 1]]);
      }
    }
  }

  lemma SoundLook(source: seq<Long>, d: seq<Entry>, c: Call, i: Int)
    requires Sound(source, d)
    ensures CachedLookAt(source, d, c, i) == if LookAt(source, c, i).Away? then At(0) else LookAt(source, c, i)
  {
    if 0 <= i < |source| {
      DecodingsAgree(source[i]);
      DistancesAgree(c, Decode(source[i]));
    }
  }

  lemma DistancesAgree(c: Call, center: Center)
    ensures DistanceBigSum(c, center) == Distance(c, center)
  {
    var dx, dy, dz := Sub(center.x, c.blockX), Sub(center.y, c.blockY), Sub(center.z, c.blockZ);
    var x, y, z := Mul(dx, dx), Mul(dy, dy), Mul(dz, dz);
    WrapOnce(x, y, z);
    assert Distance(c, center) == Add(Add(x, y), z);
  }

  /** What the cached scan sees of what the plain one sees. */
  ghost predicate Mirrors(looks: seq<Look>, cached: seq<Look>) {
    |cached| == |looks| && forall i :: 0 <= i < |looks| ==> cached[i] == if looks[i].Away? then At(0) else looks[i]
  }

  lemma {:induction false} SameLooks(looks: seq<Look>, cached: seq<Look>, l: seq<Int>, k: nat, s: seq<Candidate>)
    requires k <= |l| == |looks| == |cached|
    requires Mirrors(looks, cached)
    ensures Scan(looks, l, k, s) == Scan(cached, l, k, s) || Scan(looks, l, k, s) == Outside
    decreases |l| - k
  {
    if k < |l| && looks[k].At? {
      SameLooks(looks, cached, l, k + 1, Insert(s, Candidate(looks[k].distance, l[k], k)));
    }
  }

  lemma {:induction false} NeverOutside(cached: seq<Look>, l: seq<Int>, k: nat, s: seq<Candidate>)
    requires k <= |l| == |cached| && forall i :: 0 <= i < |l| ==> !cached[i].Away?
    ensures Scan(cached, l, k, s) != Outside
    decreases |l| - k
  {
    if k < |l| && cached[k].At? {
      NeverOutside(cached, l, k + 1, Insert(s, Candidate(cached[k].distance, l[k], k)));
    }
  }

  lemma SoundLooks(source: seq<Long>, d: seq<Entry>, c: Call, l: seq<Int>)
    requires Sound(source, d)
    ensures Mirrors(Looks(source, c, l), CachedLooks(source, d, c, l))
  {
    forall i | 0 <= i < |l|
      ensures CachedLooks(source, d, c, l)[i] == if Looks(source, c, l)[i].Away? then At(0) else Looks(source, c, l)[i]
    {
      SoundLook(source, d, c, l[i]);
    }
  }

  lemma PassedFilled(source: seq<Long>, d: seq<Entry>, c: Call, l: seq<Int>, i: nat)
    requires |d| == |source| && i < Passed(CachedLooks(source, d, c, l), 0) && 0 <= l[i] < |source|
    ensures source[l[i]] != SENTINEL
  {
    assert CachedLooks(source, d, c, l)[i].At?;
  }

  /** Whether or not it gets to its end, a scan leaves a sound cache sound. */
  lemma StaysSound(source: seq<Long>, d: seq<Entry>, c: Call)
    requires Sound(source, d)
    ensures Sound(source, CacheAfter(source, d, c))
  {
    var l := Indices(c);
    var k := Passed(CachedLooks(source, d, c, l), 0);
    forall i | 0 <= i < k && 0 <= l[i] < |source|
      ensures source[l[i]] != SENTINEL
    {
      PassedFilled(source, d, c, l, i);
    }
    FilledSound(source, d, l, k);
  }

  /** With a sound cache the two scans agree exactly when the call stays inside the array. */
  lemma CachedAgrees(source: seq<Long>, d: seq<Entry>, c: Call)
    requires Sound(source, d)
    ensures CachedAnswer(source, d, c) == Answer(source, c) <==> StaysInside(source, c)
  {
    OutsideExactly(source, c);
    var l := Indices(c);
    SoundLooks(source, d, c, l);
    ScansAgree(Looks(source, c, l), CachedLooks(source, d, c, l), l);
  }

  /** They do differ: over an empty array the plain scan faults and the cached one does not. */
  lemma EmptyDiffers(c: Call)
    ensures Answer([], c) == Outside && CachedAnswer([], [], c) != Outside
  {
    var l := Indices(c);
    assert MeetsCenters([], c, 0);
    OutsideExactly([], c);
    NeverOutside(CachedLooks([], [], c, l), l, 0, Empty());
  }

  lemma ScansAgree(looks: seq<Look>, cached: seq<Look>, l: seq<Int>)
    requires |l| == |looks| && Mirrors(looks, cached)
    ensures Scan(cached, l, 0, Empty()) == Scan(looks, l, 0, Empty()) <==> Scan(looks, l, 0, Empty()) != Outside
  {
    SameLooks(looks, cached, l, 0, Empty());
    NeverOutside(cached, l, 0, Empty());
  }

  // ------------------------------------------------------------- runs

  /** A slot may be filled once; a filled slot never changes. */
  ghost predicate Warmed(before: seq<Long>, after: seq<Long>) {
    |after| == |before| && forall i :: 0 <= i < |before| ==> before[i] != SENTINEL ==> after[i] == before[i]
  }

  datatype Event = Change(source: seq<Long>) | Ask(call: Call)

  /** The changes of a run are all warmings. */
  ghost predicate WarmRun(source: seq<Long>, events: seq<Event>)
    decreases |events|
  {
    events == [] ||
    match events[0]
    case Change(after) => Warmed(source, after) && WarmRun(after, events[1..])
    case Ask(_) => WarmRun(source, events[1..])
  }

  function PlainAnswers(source: seq<Long>, events: seq<Event>): seq<Outcome>
    decreases |events|
  {
    if events == [] then []
    else match events[0]
      case Change(after) => PlainAnswers(after, events[1..])
      case Ask(c) => [Answer(source, c)] + PlainAnswers(source, events[1..])
  }

  /** Which calls of a run stay inside the array as it then is. */
  ghost function InsideCalls(source: seq<Long>, events: seq<Event>): seq<bool>
    decreases |events|
  {
    if events == [] then []
    else match events[0]
      case Change(after) => InsideCalls(after, events[1..])
      case Ask(c) => [StaysInside(source, c)] + InsideCalls(source, events[1..])
  }

  function CachedAnswers(source: seq<Long>, d: seq<Entry>, events: seq<Event>): seq<Outcome>
    requires |d| == |source|
    requires forall i :: 0 <= i < |events| && events[i].Change? ==> |events[i].source| == |source|
    decreases |events|
  {
    if events == [] then []
    else match events[0]
      case Change(after) => CachedAnswers(after, d, events[1..])
      case Ask(c) => [CachedAnswer(source, d, c)] + CachedAnswers(source, CacheAfter(source, d, c), events[1..])
  }

  lemma {:induction false} WarmLengths(source: seq<Long>, events: seq<Event>)
    requires WarmRun(source, events)
    ensures forall i :: 0 <= i < |events| && events[i].Change? ==> |events[i].source| == |source|
    decreases |events|
  {
    if events != [] {
      var rest := events[1..];
      WarmLengths(if events[0].Change? then events[0].source else source, rest);
      forall i | 0 <= i < |events| && events[i].Change?
        ensures |events[i].source| == |source|
      {
        assert i > 0 ==> events[i] == rest[i - 1];
      }
    }
  }

  /** Over any run that only fills slots, the cached answers that are right are those of calls that stay inside. */
  lemma {:induction false} RunsAgree(source: seq<Long>, d: seq<Entry>, events: seq<Event>)
    requires Sound(source, d) && WarmRun(source, events)
    requires forall i :: 0 <= i < |events| && events[i].Change? ==> |events[i].source| == |source|
    ensures AgreeWhere(CachedAnswers(source, d, events), PlainAnswers(source, events), InsideCalls(source, events))
    decreases |events|
  {
    if events != [] {
      var rest := events[1..];
      match events[0]
      case Change(after) =>
        RunsAgree(after, d, rest);
      case Ask(c) =>
        CachedAgrees(source, d, c);
        StaysSound(source, d, c);
        var d' := CacheAfter(source, d, c);
        RunsAgree(source, d', rest);
        OneMoreAnswer(CachedAnswer(source, d, c), Answer(source, c), StaysInside(source, c),
          CachedAnswers(source, d', rest), PlainAnswers(source, rest), InsideCalls(source, rest));
    }
  }

  /** The answers are equal at exactly the marked places. */
  ghost predicate AgreeWhere(cached: seq<Outcome>, plain: seq<Outcome>, marked: seq<bool>) {
    && |cached| == |plain| == |marked|
    && forall i :: 0 <= i < |plain| ==> (cached[i] == plain[i] <==> marked[i])
  }

  lemma OneMoreAnswer(a: Outcome, b: Outcome, m: bool, cached: seq<Outcome>, plain: seq<Outcome>, marked: seq<bool>)
    requires AgreeWhere(cached, plain, marked) && (a == b <==> m)
    ensures AgreeWhere([a] + cached, [b] + plain, [m] + marked)
  {
  }

  /** A new cache is sound, so a run that starts with one agrees throughout. */
  lemma NewCacheAgrees(source: seq<Long>, d: seq<Entry>, events: seq<Event>)
    requires |d| == |source| && forall i :: 0 <= i < |d| ==> !d[i].ready
    requires WarmRun(source, events)
    requires forall i :: 0 <= i < |events| && events[i].Change? ==> |events[i].source| == |source|
    ensures AgreeWhere(CachedAnswers(source, d, events), PlainAnswers(source, events), InsideCalls(source, events))
  {
    RunsAgree(source, d, events);
  }

  lemma {:induction false} UniformScan(looks: seq<Look>, l: seq<Int>, distance: Int, k: nat, s: seq<Candidate>)
    requires k < |l| == |looks| && forall i :: 0 <= i < |l| ==> looks[i] == At(distance)
    requires |s| == 4 && s[0].distance >= distance
    ensures Scan(looks, l, k, s).Found?
    ensures |Scan(looks, l, k, s).slots| == 4 && Scan(looks, l, k, s).slots[0].distance == distance
    decreases |l| - k
  {
    if k + 1 < |l| {
      UniformScan(looks, l, distance, k + 1, Insert(s, Candidate(distance, l[k], k)));
    }
  }

  /**
   The condition on changes matters: once a filled slot is overwritten by another center, the cached answer is
   wrong.
   */
  lemma StaleCache(n: nat, p: Long, q: Long, c: Call)
    requires p != SENTINEL && q != SENTINEL
    requires Distance(c, Decode(p)) != Distance(c, Decode(q))
    requires forall i :: i in Indices(c) ==> 0 <= i < n
    ensures var d := seq(n, _ => Entry(true, Decode(p)));
      Sound(seq(n, _ => p), d) && CachedAnswer(seq(n, _ => q), d, c) != Answer(seq(n, _ => q), c)
  {
    var d, after := seq(n, _ => Entry(true, Decode(p))), seq(n, _ => q);
    var l := Indices(c);
    assert forall i :: 0 <= i < |l| ==> l[i] in l;
    DistancesAgree(c, Decode(p));
    UniformScan(CachedLooks(after, d, c, l), l, Distance(c, Decode(p)), 0, Empty());
    UniformScan(Looks(after, c, l), l, Distance(c, Decode(q)), 0, Empty());
  }
}
