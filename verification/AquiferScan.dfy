/**
 The loops of the two aquifer scans, proved to compute the answers of module Aquifer.
 */
module AquiferScan {
  import opened NearestFour
  import opened Aquifer

  datatype Reply = Returned(value: bool) | Thrown

  /** Keeps the scan predicates folded in the loops. */
  predicate Unfold(u: int) { true }

  /** What a caller sees of an outcome: the four distances and then the four indices, or nothing. */
  ghost predicate Reported(o: Outcome, reply: Reply, before: seq<Int>, after: seq<Int>) {
    && |after| == |before|
    && match o
       case NotReady => reply == Returned(false) && after == before
       case Outside => reply == Thrown && after == before
       case Found(s) =>
         && reply == Returned(true) && |s| == 4 && |before| >= 8
         && after[0] == s[0].distance && after[1] == s[1].distance
         && after[2] == s[2].distance && after[3] == s[3].distance
         && after[4] == s[0].index && after[5] == s[1].index && after[6] == s[2].index && after[7] == s[3].index
         && after[8..] == before[8..]
  }

  method Report(near: Nearest, target: array<Int>, ghost s: seq<Candidate>)
    requires near.Holds(s) && target.Length >= 8
    modifies target
    ensures Reported(Found(s), Returned(true), old(target[..]), target[..])
  {
    target[0] := near.distance0;
    target[1] := near.distance1;
    target[2] := near.distance2;
    target[3] := near.distance3;
    target[4] := near.index0;
    target[5] := near.index1;
    target[6] := near.index2;
    target[7] := near.index3;
  }

  // ------------------------------------------------- the plain scan

  class JvmAquifer {

    static method SelectNearest(packed: array?<Long>, c: Call, output: array?<Int>) returns (reply: Reply)
      requires var p: object? := packed; p == null || p != output
      modifies output
      ensures packed == null || output == null || output.Length < 8 ==> reply == Returned(false)
      ensures output != null && (packed == null || output.Length < 8) ==> output[..] == old(output[..])
      ensures packed != null && output != null && output.Length >= 8 ==>
        Reported(Answer(packed[..], c), reply, old(output[..]), output[..])
    {
      if packed == null || output == null || output.Length < 8 {
        return Returned(false);
      }
      ghost var s := Empty();
      var near := new Nearest();
      for offsetX := 0 to 2
        invariant Reached(packed[..], c, 6 * offsetX, near, s)
        invariant output[..] == old(output[..])
      {
        for offsetY := -1 to 2
          invariant Reached(packed[..], c, 6 * offsetX + 2 * (offsetY + 1), near, s)
          invariant output[..] == old(output[..])
        {
          for offsetZ := 0 to 2
            invariant Reached(packed[..], c, 6 * offsetX + 2 * (offsetY + 1) + offsetZ, near, s)
            invariant output[..] == old(output[..])
          {
            var look;
            look, s := VisitOffset(packed, c, offsetX, offsetY, offsetZ, near, s);
            match look
            case Away => return Thrown;
            case Unfilled => return Returned(false);
            case At(_) =>
          }
        }
      }
      Finished(packed[..], c, near, s);
      Report(near, output, s);
      reply := Returned(true);
    }

    /** The first k of the twelve candidates of a call are scanned. */
    static ghost predicate Reached(source: seq<Long>, c: Call, k: nat, near: Nearest, s: seq<Candidate>)
      reads near
    {
      near.Holds(s) && forall u {:trigger Unfold(u)} :: Unfold(u) ==>
        k <= 12 && Scan(Looks(source, c, Indices(c)), Indices(c), k, s) == Answer(source, c)
    }

    static lemma Finished(source: seq<Long>, c: Call, near: Nearest, s: seq<Candidate>)
      requires Reached(source, c, 12, near, s)
      ensures Answer(source, c) == Found(s)
    {
      assert Unfold(0);
    }

    static method VisitOffset(packed: array<Long>, c: Call, offsetX: Int, offsetY: Int, offsetZ: Int, near: Nearest,
                              ghost s: seq<Candidate>)
      returns (look: Look, ghost t: seq<Candidate>)
      requires 0 <= offsetX <= 1 && -1 <= offsetY <= 1 && 0 <= offsetZ <= 1
      requires Reached(packed[..], c, 6 * offsetX + 2 * (offsetY + 1) + offsetZ, near, s)
      modifies near
      ensures look == Away ==> Answer(packed[..], c) == Outside
      ensures look == Unfilled ==> Answer(packed[..], c) == NotReady
      ensures look.At? ==> Reached(packed[..], c, 6 * offsetX + 2 * (offsetY + 1) + offsetZ + 1, near, t)
    {
      assert Unfold(0);
      ghost var k := 6 * offsetX + 2 * (offsetY + 1) + offsetZ;
      Order(c, offsetX, offsetY, offsetZ);
      var index := IndexAt(c, offsetX, offsetY, offsetZ);
      look := Visit(packed, c, index, near, k, s);
      assert look == Looks(packed[..], c, Indices(c))[k];
      t := if look.At? then Insert(s, Candidate(look.distance, index, k)) else s;
    }

    static method Visit(packed: array<Long>, c: Call, index: Int, near: Nearest, ghost k: nat, ghost s: seq<Candidate>)
      returns (look: Look)
      requires near.Holds(s)
      modifies near
      ensures look == LookAt(packed[..], c, index)
      ensures look.At? ==> near.Holds(Insert(s, Candidate(look.distance, index, k)))
    {
      if !(0 <= index < packed.Length) {
        return Away;
      }
      var position := packed[index];
      if position == SENTINEL {
        return Unfilled;
      }
      var distance := Distance(c, Decode(position));
      near.Offer(distance, index, k, s);
      look := At(distance);
    }
  }

  // ------------------------------------------------ the cached scan

  function NewEntries(length: nat): (r: seq<Entry>)
    ensures |r| == length
  {
    seq(length, _ => Entry(false, Center(0, 0, 0)))
  }

  /** The typed arrays kept for one source array. */
  class Decoded {
    const ready: array<bool>
    const x: array<Int>
    const y: array<Int>
    const z: array<Int>

    ghost predicate Valid()
    {
      ready.Length == x.Length == y.Length == z.Length && x != y && y != z && x != z
    }

    ghost function Arrays(): set<object>
    {
      var r: object := ready;
      {r, x, y, z}
    }

    ghost function Entries(): (r: seq<Entry>)
      requires Valid()
      reads Arrays()
      ensures |r| == ready.Length
    {
      seq(ready.Length, i requires 0 <= i < ready.Length reads Arrays() => Entry(ready[i], Center(x[i], y[i], z[i])))
    }

    constructor (length: nat)
      ensures Valid() && fresh(Arrays()) && ready.Length == length
      ensures Entries() == NewEntries(length)
    {
      ready := new bool[length](_ => false);
      x, y, z := new Int[length](_ => 0), new Int[length](_ => 0), new Int[length](_ => 0);
    }

    /** The center of a filled slot, decoded at most once. */
    method CenterOf(index: nat, position: Long) returns (center: Center)
      requires Valid() && index < ready.Length
      modifies Arrays()
      ensures center == Seen(position, old(Entries())[index])
      ensures Entries() == old(Entries())[index := Entry(true, center)]
    {
      if !ready[index] {
        x[index] := Wrap32(AsInt26(position / 0x40_0000_0000));
        y[index] := Wrap32(AsInt12(position));
        z[index] := Wrap32(AsInt26(position / 0x1000));
        ready[index] := true;
      }
      center := Center(x[index], y[index], z[index]);
    }
  }

  /** The cache during a scan: each center is the one seen at its start. */
  lemma {:induction false} SeenUnchanged(source: seq<Long>, d: seq<Entry>, l: seq<Int>, k: nat, i: nat)
    requires |d| == |source| && k <= |l| && i < |d|
    ensures Seen(source[i], Filled(source, d, l, k)[i]) == Seen(source[i], d[i])
    decreases k
  {
    if k > 0 {
      SeenUnchanged(source, d, l, k - 1, i);
    }
  }

  /** A visit that decodes or finds the same center is a step of Filled. */
  lemma VisitFills(source: seq<Long>, d: seq<Entry>, l: seq<Int>, k: nat)
    requires |d| == |source| && k < |l| && 0 <= l[k] < |source|
    ensures var i := l[k]; var e := Filled(source, d, l, k);
      Filled(source, d, l, k + 1) == e[i := Entry(true, Seen(source[i], d[i]))]
  {
    SeenUnchanged(source, d, l, k, l[k]);
  }

  class BrowserAquifer {
    var decodedCaches: map<array<Long>, Decoded>

    ghost predicate Valid()
      reads this
    {
      && (forall a :: a in decodedCaches ==> decodedCaches[a].Valid() && decodedCaches[a].ready.Length == a.Length)
      && (forall a, b :: a in decodedCaches && b in decodedCaches && a != b ==>
           decodedCaches[a].Arrays() !! decodedCaches[b].Arrays())
    }

    /** Every array that belongs to the cache. */
    ghost predicate Private(o: object)
      reads this
    {
      exists a :: a in decodedCaches && o in decodedCaches[a].Arrays()
    }

    ghost function ArraysFor(source: array<Long>): set<object>
      reads this
    {
      if source in decodedCaches then decodedCaches[source].Arrays() else {}
    }

    /** The decoded centers a call with this source starts from. */
    ghost function EntriesFor(source: array<Long>): (r: seq<Entry>)
      requires Valid()
      reads this, ArraysFor(source)
      ensures |r| == source.Length
    {
      if source in decodedCaches then decodedCaches[source].Entries() else NewEntries(source.Length)
    }

    constructor ()
      ensures Valid() && decodedCaches == map[]
    {
      decodedCaches := map[];
    }

    /** A missing array or a short output is refused before the cache is touched. */
    method SelectNearest(source: array?<Long>, c: Call, target: array?<Int>) returns (found: bool)
      requires Valid() && (source != null ==> !Private(source)) && (target != null ==> !Private(target))
      requires var p: object? := source; p == null || p != target
      modifies this, target, if source == null then {} else ArraysFor(source)
      ensures Valid()
      ensures source == null || target == null || target.Length < 8 ==> !found && unchanged(this)
      ensures target != null && (source == null || target.Length < 8) ==> target[..] == old(target[..])
      ensures source != null && target != null && target.Length >= 8 ==>
        && Reported(CachedAnswer(source[..], old(EntriesFor(source)), c), Returned(found), old(target[..]), target[..])
        && EntriesFor(source) == CacheAfter(source[..], old(EntriesFor(source)), c)
      ensures forall a :: a in old(decodedCaches) ==> a in decodedCaches && decodedCaches[a] == old(decodedCaches[a])
    {
      if source == null || target == null || target.Length < 8 {
        return false;
      }
      found := SelectReady(source, c, target);
    }

    method SelectReady(source: array<Long>, c: Call, target: array<Int>) returns (found: bool)
      requires Valid() && target.Length >= 8 && !Private(source) && !Private(target)
      requires var p: object := source; p != target
      modifies this, target, ArraysFor(source)
      ensures Valid() && source in decodedCaches
      ensures Reported(CachedAnswer(source[..], old(EntriesFor(source)), c), Returned(found), old(target[..]),
        target[..])
      ensures EntriesFor(source) == CacheAfter(source[..], old(EntriesFor(source)), c)
      ensures forall a :: a in old(decodedCaches) ==> a in decodedCaches && decodedCaches[a] == old(decodedCaches[a])
    {
      ghost var d := EntriesFor(source);
      var decoded := EntryFor(source);
      found := ScanWith(decoded, source, c, target, d);
    }

    /** Looks up the cache of a source array, or adds an empty one. */
    method EntryFor(source: array<Long>) returns (decoded: Decoded)
      requires Valid() && !Private(source)
      modifies this
      ensures Valid() && source in decodedCaches && decoded == decodedCaches[source]
      ensures fresh(decoded.Arrays() - old(ArraysFor(source)))
      ensures source !in decoded.Arrays() && decoded.Entries() == old(EntriesFor(source))
      ensures forall a :: a in old(decodedCaches) ==> a in decodedCaches && decodedCaches[a] == old(decodedCaches[a])
    {
      if source !in decodedCaches || decodedCaches[source].ready.Length != source.Length {
        var empty := new Decoded(source.Length);
        decodedCaches := decodedCaches[source := empty];
      }
      decoded := decodedCaches[source];
    }

    /** The first k candidates are scanned: their slots and the cache are as they should be. */
    static ghost predicate Progress(decoded: Decoded, source: array<Long>, d: seq<Entry>, looks: seq<Look>,
                                    l: seq<Int>, k: nat,
                                    near: Nearest, s: seq<Candidate>)
      requires decoded.Valid()
      reads decoded.Arrays(), source, near
    {
      && k <= |l| == |looks| && |d| == source.Length && near.Holds(s)
      && Scan(looks, l, k, s) == Scan(looks, l, 0, Empty()) && Passed(looks, k) == Passed(looks, 0)
      && decoded.Entries() == Filled(source[..], d, l, k)
    }

    /** The body of the innermost loop. */
    static method Visit(decoded: Decoded, source: array<Long>, c: Call, index: Int, near: Nearest,
                        ghost d: seq<Entry>, ghost looks: seq<Look>, ghost l: seq<Int>, ghost k: nat,
                        ghost s: seq<Candidate>)
      returns (filled: bool, ghost t: seq<Candidate>)
      requires decoded.Valid() && decoded.ready.Length == source.Length && source !in decoded.Arrays()
      requires Progress(decoded, source, d, looks, l, k, near, s) && k < |l|
      requires index == l[k] && looks[k] == CachedLookAt(source[..], d, c, index)
      modifies near, decoded.Arrays()
      ensures !filled ==>
        Scan(looks, l, 0, Empty()) == NotReady && decoded.Entries() == Filled(source[..], d, l, Passed(looks, 0))
      ensures filled ==> Progress(decoded, source, d, looks, l, k + 1, near, t)
    {
      t := s;
      var distance: Int := 0;
      if 0 <= index < source.Length {
        var position := source[index];
        if position == SENTINEL {
          return false, s;
        }
        VisitFills(source[..], d, l, k);
        SeenUnchanged(source[..], d, l, k, index);
        var center := decoded.CenterOf(index, position);
        distance := DistanceBigSum(c, center);
      }
      near.Offer(distance, index, k, s);
      t := Insert(s, Candidate(distance, index, k));
      filled := true;
    }

    /** The first k of the twelve candidates of a call are scanned. */
    static ghost predicate Reached(decoded: Decoded, source: array<Long>, c: Call, d: seq<Entry>, k: nat,
                                   near: Nearest, s: seq<Candidate>)
      requires decoded.Valid()
      reads decoded.Arrays(), source, near
    {
      |d| == source.Length && forall u {:trigger Unfold(u)} :: Unfold(u) ==>
        Progress(decoded, source, d, CachedLooks(source[..], d, c, Indices(c)), Indices(c), k, near, s)
    }

    static method VisitOffset(decoded: Decoded, source: array<Long>, c: Call, offsetX: Int, offsetY: Int,
                              offsetZ: Int, near: Nearest,
                              ghost d: seq<Entry>, ghost k: nat, ghost s: seq<Candidate>)
      returns (filled: bool, ghost t: seq<Candidate>)
      requires 0 <= offsetX <= 1 && -1 <= offsetY <= 1 && 0 <= offsetZ <= 1
      requires k == 6 * offsetX + 2 * (offsetY + 1) + offsetZ
      requires decoded.Valid() && decoded.ready.Length == source.Length && source !in decoded.Arrays()
      requires Reached(decoded, source, c, d, k, near, s)
      modifies near, decoded.Arrays()
      ensures !filled ==>
        CachedAnswer(source[..], d, c) == NotReady && decoded.Entries() == CacheAfter(source[..], d, c)
      ensures filled ==> Reached(decoded, source, c, d, k + 1, near, t)
    {
      ghost var l := Indices(c);
      assert Unfold(0);
      Order(c, offsetX, offsetY, offsetZ);
      filled, t := Visit(decoded, source, c, IndexAt(c, offsetX, offsetY, offsetZ), near, d,
        CachedLooks(source[..], d, c, l), l, k, s);
    }

    static lemma Finished(decoded: Decoded, source: array<Long>, c: Call, d: seq<Entry>, near: Nearest,
                          s: seq<Candidate>)
      requires decoded.Valid() && Reached(decoded, source, c, d, 12, near, s)
      ensures CachedAnswer(source[..], d, c) == Found(s) && decoded.Entries() == CacheAfter(source[..], d, c)
      ensures near.Holds(s)
    {
      assert Unfold(0);
    }

    static lemma Started(decoded: Decoded, source: array<Long>, c: Call, d: seq<Entry>, near: Nearest)
      requires decoded.Valid() && |d| == source.Length && decoded.Entries() == d && near.Holds(Empty())
      ensures Reached(decoded, source, c, d, 0, near, Empty())
    {
    }

    static method ScanWith(decoded: Decoded, source: array<Long>, c: Call, target: array<Int>, ghost d: seq<Entry>)
      returns (found: bool)
      requires decoded.Valid() && decoded.ready.Length == source.Length && decoded.Entries() == d
      requires source !in decoded.Arrays() && target !in decoded.Arrays() && target.Length >= 8
      requires var p: object := source; p != target
      modifies decoded.Arrays(), target
      ensures Reported(CachedAnswer(source[..], d, c), Returned(found), old(target[..]), target[..])
      ensures decoded.Entries() == CacheAfter(source[..], d, c)
    {
      ghost var s := Empty();
      var near := new Nearest();
      Started(decoded, source, c, d, near);
      for offsetX := 0 to 2
        invariant Reached(decoded, source, c, d, 6 * offsetX, near, s)
        invariant target[..] == old(target[..])
      {
        found, s := ScanColumn(decoded, source, c, offsetX, near, d, s);
        if !found {
          return;
        }
      }
      Finished(decoded, source, c, d, near, s);
      Report(near, target, s);
      found := true;
    }

    /** The two inner loops. */
    static method ScanColumn(decoded: Decoded, source: array<Long>, c: Call, offsetX: Int, near: Nearest,
                             ghost d: seq<Entry>, ghost s: seq<Candidate>)
      returns (filled: bool, ghost t: seq<Candidate>)
      requires 0 <= offsetX <= 1
      requires decoded.Valid() && decoded.ready.Length == source.Length && source !in decoded.Arrays()
      requires Reached(decoded, source, c, d, 6 * offsetX, near, s)
      modifies near, decoded.Arrays()
      ensures !filled ==>
        CachedAnswer(source[..], d, c) == NotReady && decoded.Entries() == CacheAfter(source[..], d, c)
      ensures filled ==> Reached(decoded, source, c, d, 6 * (offsetX + 1), near, t)
    {
      t := s;
      ghost var k := 6 * offsetX;
      for offsetY := -1 to 2
        invariant k == 6 * offsetX + 2 * (offsetY + 1) && Reached(decoded, source, c, d, k, near, t)
      {
        for offsetZ := 0 to 2
          invariant k == 6 * offsetX + 2 * (offsetY + 1) + offsetZ && Reached(decoded, source, c, d, k, near, t)
        {
          filled, t := VisitOffset(decoded, source, c, offsetX, offsetY, offsetZ, near, d, k, t);
          if !filled {
            return;
          }
          k := k + 1;
        }
      }
      filled := true;
    }
  }
}
