/**
 The four-slot insertion of the aquifer scan: it keeps the four nearest candidates of a list in
 ascending order, later-scanned ones first among equals.
 */
module NearestFour {

  type Int = x: int | -0x8000_0000 <= x < 0x8000_0000

  const INT_MAX: Int := 0x7fff_ffff

  /** A candidate: its distance, its cache index, and its place in the scan. */
  datatype Candidate = Candidate(distance: Int, index: Int, rank: int)

  /** In front of the first entry that is not nearer. */
  function InsertSorted(s: seq<Candidate>, c: Candidate): (r: seq<Candidate>)
    ensures |r| == |s| + 1
  {
    if s == [] || s[0].distance >= c.distance then [c] + s
    else [s[0]] + InsertSorted(s[1..], c)
  }

  /** The same with the last entry dropped. */
  function Insert(s: seq<Candidate>, c: Candidate): (r: seq<Candidate>)
    ensures |r| == |s|
  {
    InsertSorted(s, c)[..|s|]
  }

  function InsertAll(s: seq<Candidate>, l: seq<Candidate>): (r: seq<Candidate>)
    ensures |r| == |s|
    decreases |l|
  {
    if l == [] then s else Insert(InsertAll(s, l[..|l| - 1]), l[|l| - 1])
  }

  /** The initial slots, as candidates scanned before the first one. */
  function Empty(): seq<Candidate> {
    [Candidate(INT_MAX, 0, -1), Candidate(INT_MAX, 0, -2), Candidate(INT_MAX, 0, -3), Candidate(INT_MAX, 0, -4)]
  }

  // -------------------------------------------------- what it means

  /** Nearer first; among equally near ones, the later-scanned first. */
  predicate Precedes(a: Candidate, b: Candidate) {
    a.distance < b.distance || (a.distance == b.distance && a.rank > b.rank)
  }

  ghost predicate Ordered(s: seq<Candidate>) {
    forall i, j :: 0 <= i < j < |s| ==> Precedes(s[i], s[j])
  }

  /** A scan numbers its candidates. */
  ghost predicate Ranked(l: seq<Candidate>) {
    forall i :: 0 <= i < |l| ==> l[i].rank == i
  }

  lemma {:induction false} InsertMembers(s: seq<Candidate>, c: Candidate)
    ensures multiset(InsertSorted(s, c)) == multiset(s) + multiset{c}
  {
    if s != [] && s[0].distance < c.distance {
      InsertMembers(s[1..], c);
      assert s == [s[0]] + s[1..];
    }
  }

  lemma {:induction false} InsertOrdered(s: seq<Candidate>, c: Candidate)
    requires Ordered(s) && forall d :: d in s ==> d.rank < c.rank
    ensures Ordered(InsertSorted(s, c))
  {
    if s != [] && s[0].distance < c.distance {
      var rest := InsertSorted(s[1..], c);
      InsertOrdered(s[1..], c);
      InsertMembers(s[1..], c);
      forall j | 0 <= j < |rest|
        ensures Precedes(s[0], rest[j])
      {
        assert rest[j] in multiset(rest);
        if rest[j] != c {
          assert rest[j] in s[1..];
        }
      }
    } else if s != [] {
      forall j | 0 <= j < |s|
        ensures Precedes(c, s[j])
      {
        assert j > 0 ==> Precedes(s[0], s[j]);
        assert s[j] in s;
      }
    }
  }

  /** The untruncated list. */
  ghost function SortAll(s: seq<Candidate>, l: seq<Candidate>): (r: seq<Candidate>)
    ensures |r| == |s| + |l|
    decreases |l|
  {
    if l == [] then s else InsertSorted(SortAll(s, l[..|l| - 1]), l[|l| - 1])
  }

  lemma {:induction false} TruncateInsert(s: seq<Candidate>, n: nat, c: Candidate)
    requires n <= |s|
    ensures Insert(s[..n], c) == InsertSorted(s, c)[..n]
  {
    if n > 0 && s[0].distance < c.distance {
      TruncateInsert(s[1..], n - 1, c);
      assert s[..n][1..] == s[1..][..n - 1];
    }
  }

  lemma {:induction false} TruncateAll(s: seq<Candidate>, l: seq<Candidate>)
    ensures InsertAll(s, l) == SortAll(s, l)[..|s|]
    decreases |l|
  {
    if l != [] {
      TruncateAll(s, l[..|l| - 1]);
      TruncateInsert(SortAll(s, l[..|l| - 1]), |s|, l[|l| - 1]);
    }
  }

  lemma {:induction false} SortAllSorts(e: seq<Candidate>, l: seq<Candidate>)
    requires Ordered(e) && Ranked(l) && forall d :: d in e ==> d.rank < 0
    ensures Ordered(SortAll(e, l))
    ensures multiset(SortAll(e, l)) == multiset(l) + multiset(e)
    decreases |l|
  {
    if l != [] {
      var front, c := l[..|l| - 1], l[|l| - 1];
      var s := SortAll(e, front);
      SortAllSorts(e, front);
      assert l == front + [c];
      forall d | d in s
        ensures d.rank < c.rank
      {
        assert d in multiset(s);
        assert d in front || d in e;
      }
      InsertOrdered(s, c);
      InsertMembers(s, c);
    }
  }

  /** An ordered list is fixed by its members. */
  lemma {:induction false} OrderedUnique(s: seq<Candidate>, t: seq<Candidate>)
    requires Ordered(s) && Ordered(t) && multiset(s) == multiset(t)
    ensures s == t
  {
    if s == [] {
      assert |multiset(t)| == 0;
    } else {
      SameFirst(s, t);
      assert s == [s[0]] + s[1..] && t == [t[0]] + t[1..];
      assert multiset(s[1..]) == multiset(s) - multiset{s[0]};
      assert multiset(t[1..]) == multiset(t) - multiset{t[0]};
      OrderedUnique(s[1..], t[1..]);
    }
  }

  lemma SameFirst(s: seq<Candidate>, t: seq<Candidate>)
    requires s != [] && Ordered(s) && Ordered(t) && multiset(s) == multiset(t)
    ensures t != [] && s[0] == t[0]
  {
    assert s[0] in multiset(t);
    assert t[0] in multiset(s);
    var i :| 0 <= i < |s| && s[i] == t[0];
    var j :| 0 <= j < |t| && t[j] == s[0];
    assert i == 0 || Precedes(s[0], s[i]);
    assert j == 0 || Precedes(t[0], t[j]);
  }

  /** After any scan of at least four candidates, the slots are the first four of the sorted candidates. */
  lemma {:induction false} NearestFourOfAll(l: seq<Candidate>, t: seq<Candidate>)
    requires |l| >= 4 && Ranked(l) && Ordered(t) && multiset(t) == multiset(l)
    ensures |t| >= 4 && InsertAll(Empty(), l) == t[..4]
  {
    TruncateAll(Empty(), l);
    SortAllSorts(Empty(), l);
    var whole := t + Empty();
    assert |t| == |multiset(t)| == |l|;
    forall i, j | 0 <= i < j < |whole|
      ensures Precedes(whole[i], whole[j])
    {
      if i < |t| <= j {
        assert t[i] in multiset(l);
      }
    }
    OrderedUnique(SortAll(Empty(), l), whole);
  }

  lemma InsertFour(s: seq<Candidate>, c: Candidate)
    requires |s| == 4
    ensures Insert(s, c) ==
      if s[0].distance >= c.distance then [c, s[0], s[1], s[2]]
      else if s[1].distance >= c.distance then [s[0], c, s[1], s[2]]
      else if s[2].distance >= c.distance then [s[0], s[1], c, s[2]]
      else if s[3].distance >= c.distance then [s[0], s[1], s[2], c]
      else s
  {
    var s3, s2, s1 := [s[3]], [s[2], s[3]], [s[1], s[2], s[3]];
    assert s3 == [s[3]] + [] && s2 == [s[2]] + s3 && s1 == [s[1]] + s2 && s == [s[0]] + s1;
    assert s3[..0] == [] && s2[..1] == [s[2]] && s1[..2] == [s[1], s[2]] && s[..3] == [s[0], s[1], s[2]];
    InsertHead(s[3], [], c);
    InsertHead(s[2], s3, c);
    InsertHead(s[1], s2, c);
    InsertHead(s[0], s1, c);
  }

  lemma InsertHead(x: Candidate, rest: seq<Candidate>, c: Candidate)
    ensures Insert([x] + rest, c) ==
      if x.distance >= c.distance then [c] + ([x] + rest)[..|rest|] else [x] + Insert(rest, c)
  {
    var s := [x] + rest;
    assert s[1..] == rest;
    if x.distance >= c.distance {
      assert ([c] + s)[..|s|] == [c] + s[..|rest|];
    } else {
      assert ([x] + InsertSorted(rest, c))[..|s|] == [x] + InsertSorted(rest, c)[..|rest|];
    }
  }

  /** The eight variables of the scan. */
  class Nearest {
    var distance0: Int
    var distance1: Int
    var distance2: Int
    var distance3: Int
    var index0: Int
    var index1: Int
    var index2: Int
    var index3: Int

    /** The variables hold these slots. */
    ghost predicate Holds(s: seq<Candidate>)
      reads this
    {
      && |s| == 4
      && s[0].distance == distance0 && s[1].distance == distance1
      && s[2].distance == distance2 && s[3].distance == distance3
      && s[0].index == index0 && s[1].index == index1 && s[2].index == index2 && s[3].index == index3
    }

    constructor ()
      ensures Holds(Empty())
    {
      distance0, distance1, distance2, distance3 := INT_MAX, INT_MAX, INT_MAX, INT_MAX;
      index0, index1, index2, index3 := 0, 0, 0, 0;
    }

    method Offer(distance: Int, index: Int, ghost rank: int, ghost s: seq<Candidate>)
      requires Holds(s)
      modifies this
      ensures Holds(Insert(s, Candidate(distance, index, rank)))
    {
      ghost var c := Candidate(distance, index, rank);
      InsertFour(s, c);
      if distance0 >= distance {
        distance3 := distance2;
        distance2 := distance1;
        distance1 := distance0;
        distance0 := distance;
        index3 := index2;
        index2 := index1;
        index1 := index0;
        index0 := index;
      } else if distance1 >= distance {
        distance3 := distance2;
        distance2 := distance1;
        distance1 := distance;
        index3 := index2;
        index2 := index1;
        index1 := index;
      } else if distance2 >= distance {
        distance3 := distance2;
        distance2 := distance;
        index3 := index2;
        index2 := index;
      } else if distance3 >= distance {
        distance3 := distance;
        index3 := index;
      }
    }
  }
}
